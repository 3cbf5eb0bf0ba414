/** What the manifest says about one tool: the part of it the installer reads. */
module Manifest {

  /** How a tool is obtained. Only the Github release method is modelled in depth. */
  datatype InstallMethod =
    | Github(repo: string, assetPattern: string, sha256: map<string, string>)
    | Other(kind: string)

  datatype ToolSpec = ToolSpec(version: string, bin: string, install: InstallMethod)

  /** Tool names a manifest may declare: lower-case letters, digits, '-' and '_'. */
  predicate IsValidToolName(name: string) {
    && name != []
    && forall c :: c in name ==> 'a' <= c <= 'z' || '0' <= c <= '9' || c == '-' || c == '_'
  }
}

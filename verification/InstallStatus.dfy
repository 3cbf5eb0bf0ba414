/** The statuses one install reports, and the shape every report has. */
module InstallStatus {
  import opened Wrappers

  datatype Status =
    | Queued
    | Downloading(bytesDownloaded: nat, total: Option<nat>)
    | Verifying
    | TofuRecorded(triple: string, sha256: string)
    | Extracting
    | Installing
    | Done(binPath: string)
    | Failed(message: string)

  /** The statuses that end a wait. */
  predicate Terminal(st: Status) {
    st.Done? || st.Failed?
  }

  /** No status in the list ends a wait. */
  predicate NoTerminal(sts: seq<Status>) {
    forall i :: 0 <= i < |sts| ==> !Terminal(sts[i])
  }

  /**
   What one install reports while it runs (`emits`) together with the verdict the worker
   adds at the end: a failure reports nothing terminal by itself, a success reports its
   `Done` once as the last thing the installer says and leaves the worker to say it again.
   */
  predicate WellFormedReport(emits: seq<Status>, verdict: Status) {
    match verdict
    case Failed(_) => NoTerminal(emits)
    case Done(_) => |emits| > 0 && emits[|emits| - 1] == verdict && NoTerminal(emits[..|emits| - 1])
    case _ => false
  }

  /** Every terminal status in the list is this one. */
  predicate TerminalsAre(sts: seq<Status>, verdict: Status) {
    forall i :: 0 <= i < |sts| && Terminal(sts[i]) ==> sts[i] == verdict
  }
}

/**
 One install attempt of the GitHub method, from deciding which hash to expect to publishing the
 binary. Every foreign answer (network, disk, clock of a crash) is an input: any step may fail,
 and the machine may stop between any two steps.
 */
module GithubInstall {
  import opened Wrappers
  import opened Manifest
  import opened InstallStatus
  import opened UrlPolicy
  import opened Sidecar
  import opened ByteStrings
  import FindBin

  /** An extracted package: always a directory. */
  type Tree = n: FindBin.Node | n.Dir? witness FindBin.Dir(true, [])

  // ── The disk of one tool ───────────────────────────────────────────────

  /** A directory that is missing, partly removed, or complete. */
  datatype Slot = Absent | Torn | Whole(tree: Tree)

  /** The checksum sidecar's text, the package directory and its backup sibling. */
  datatype ToolDisk = ToolDisk(sidecar: Option<string>, pkg: Slot, bak: Slot)

  const EMPTY_DISK: ToolDisk := ToolDisk(None, Absent, Absent)

  // ── What the world answers ─────────────────────────────────────────────

  datatype Outcome = Succeeds | Fails | Crashes

  /** Removing a directory: all of it, none of it, or some of it; a crash may come on top. */
  datatype Removal = Removed | Kept | Partly | CrashedKept | CrashedPartly

  /**
   Moving a directory. A rename (`Moved`) happens or is refused. Between file systems the move is
   a staged copy that replaces what is at the destination (`Copied`); it never leaves a partial
   copy, but it may stop with the destination taken away and not yet replaced (`Unseated`), or
   with the copy in place and its source still there, possibly half removed (`LeftCopy`). A crash
   may come on top of each.
   */
  datatype Move =
    | Moved
    | Copied
    | Refused
    | Unseated
    | LeftCopy(torn: bool)
    | CrashedEarly
    | CrashedUnseated
    | CrashedWithCopy(torn: bool)

  /** The machine, as the program sees it at run time. */
  datatype Host = Host(os: string, arch: string)

  function HostTriple(h: Host): Option<string> {
    if h == Host("linux", "x86_64") then Some("x86_64-unknown-linux-gnu")
    else if h == Host("linux", "aarch64") then Some("aarch64-unknown-linux-gnu")
    else if h == Host("macos", "x86_64") then Some("x86_64-apple-darwin")
    else if h == Host("macos", "aarch64") then Some("aarch64-apple-darwin")
    else if h == Host("windows", "x86_64") then Some("x86_64-pc-windows-msvc")
    else None
  }

  datatype World = World(
    host: Host,
    readSidecar: Outcome,
    stage: Outcome,
    download: Outcome, chunks: seq<nat>, total: Option<nat>, bytes: Bytes,
    hashFile: Outcome,
    unpack: Outcome, tree: Tree,
    rereadSidecar: Outcome, writeSidecar: Outcome,
    chmod: Outcome,
    clearBak: Removal, setAside: Move, moveIn: Move, dropBak: Removal, rollback: Move,
    publish: Outcome,
    writeRev: Outcome)

  // ── Results ────────────────────────────────────────────────────────────

  datatype InstallError =
    | UnsupportedMethod
    | UnsupportedTriple(host: string)
    | UnsafeUrlComponent(value: string)
    | ChecksumMismatch(expected: string, actual: string)
    | BinNotFound(bin: string)
    | Io

  datatype Ending = Installed(binPath: string) | Failing(error: InstallError) | Crashed

  /** The disk afterwards, the statuses reported on the way, and how the attempt ended. */
  datatype Run = Run(disk: ToolDisk, reported: seq<Status>, ending: Ending)

  function Message(e: InstallError): string {
    match e
    case UnsupportedMethod => "unsupported install method: not a github method"
    case UnsupportedTriple(host) => "unsupported triple: " + host
    case UnsafeUrlComponent(value) => "refusing unsafe URL component: " + value
    case ChecksumMismatch(expected, actual) => "checksum mismatch: expected " + expected + ", got " + actual
    case BinNotFound(bin) => "binary not found in installed package: " + bin
    case Io => "io"
  }

  /** The terminal status the worker makes of a result. */
  function VerdictOf(e: Ending): Status
    requires !e.Crashed?
  {
    match e
    case Installed(binPath) => Done(binPath)
    case Failing(error) => Failed(Message(error))
  }

  /** How a step that did not succeed ends the attempt. */
  function Stopped(o: Outcome, e: InstallError): Ending {
    if o == Crashes then Crashed else Failing(e)
  }

  // ── Which hash to expect ───────────────────────────────────────────────

  datatype ExpectedSha = Pinned(hash: string) | Cached(hash: string) | Tofu

  predicate HasPin(m: InstallMethod, triple: string) {
    m.Github? && triple in m.sha256 && m.sha256[triple] != ""
  }

  /** What the stored sidecar records for a version and triple. */
  function Recorded(sidecar: Option<string>, version: string, triple: string): Option<string> {
    match sidecar
    case Some(text) => Lookup(FromToml(text), version, triple)
    case None => None
  }

  /** `resolve_expected_sha`: a manifest pin, else a recorded hash, else trust on first use. */
  function Resolve(d: ToolDisk, m: InstallMethod, version: string, triple: string, read: Outcome): Option<ExpectedSha>
    requires m.Github?
  {
    if HasPin(m, triple) then Some(Pinned(m.sha256[triple]))
    else if read != Succeeds then None
    else match Recorded(d.sidecar, version, triple)
         case Some(hash) => Some(Cached(hash))
         case None => Some(Tofu)
  }

  // ── The swap ───────────────────────────────────────────────────────────

  function Remove(s: Slot, r: Removal): Slot {
    if s.Absent? then Absent
    else match r
         case Removed => Absent
         case Kept => s
         case CrashedKept => s
         case _ => Torn
  }

  predicate RemovalCrashed(r: Removal) {
    r.CrashedKept? || r.CrashedPartly?
  }

  /** What is left at the source of a copy that could not clean up. */
  function Leftover(src: Slot, torn: bool): Slot {
    if torn then Torn else src
  }

  /**
   The two slots after a move, and what the caller sees. A rename onto a complete directory is
   refused; the copying fallback replaces it.
   */
  function MoveSlot(src: Slot, dst: Slot, m: Move): (Slot, Slot, Outcome) {
    if src.Absent? then (src, dst, if m.CrashedEarly? then Crashes else Fails)
    else match m
         case Moved => if dst.Whole? then (src, dst, Fails) else (Absent, src, Succeeds)
         case Copied => (Absent, src, Succeeds)
         case Refused => (src, dst, Fails)
         case Unseated => (src, Absent, Fails)
         case LeftCopy(torn) => (Leftover(src, torn), src, Fails)
         case CrashedEarly => (src, dst, Crashes)
         case CrashedUnseated => (src, Absent, Crashes)
         case CrashedWithCopy(torn) => (Leftover(src, torn), src, Crashes)
  }

  /** Set an existing package aside; nothing to do when there is none. */
  function SetAside(d: ToolDisk, w: World): (ToolDisk, Outcome) {
    if d.pkg.Absent? then (d, Succeeds)
    else
      var d1 := d.(bak := Remove(d.bak, w.clearBak));
      if RemovalCrashed(w.clearBak) then (d1, Crashes)
      else
        var (pkg, bak, o) := MoveSlot(d1.pkg, d1.bak, w.setAside);
        (d1.(pkg := pkg, bak := bak), o)
  }

  /** Move the new tree in, then drop the backup; when the move fails, put the backup back. */
  function MoveIn(d: ToolDisk, w: World): (ToolDisk, Outcome) {
    var (_, pkg, o) := MoveSlot(Whole(w.tree), d.pkg, w.moveIn);
    var d1 := d.(pkg := pkg);
    match o
    case Succeeds => (d1.(bak := Remove(d1.bak, w.dropBak)), if RemovalCrashed(w.dropBak) then Crashes else Succeeds)
    case Crashes => (d1, Crashes)
    case Fails =>
      if d1.bak.Absent? then (d1, Fails)
      else
        var (bak, pkg', r) := MoveSlot(d1.bak, d1.pkg, w.rollback);
        (d1.(pkg := pkg', bak := bak), if r == Crashes then Crashes else Fails)
  }

  // ── The attempt ────────────────────────────────────────────────────────

  function Downloads(chunks: seq<nat>, total: Option<nat>): seq<Status> {
    seq(|chunks|, i requires 0 <= i < |chunks| => Downloading(chunks[i], total))
  }

  function Joined(p: FindBin.Path): string {
    if p == [] then "" else "/" + p[0] + Joined(p[1..])
  }

  function BinAbs(name: string, rel: FindBin.Path): string {
    "packages/" + name + Joined(rel)
  }

  /** Steps 7 to 12: make executable, swap, link, write the revision, report success. */
  ghost function Publish(d: ToolDisk, name: string, w: World, rel: FindBin.Path, said: seq<Status>): Run {
    if w.chmod != Succeeds then Run(d, said, Stopped(w.chmod, Io))
    else
      var said1 := said + [Installing];
      var (d1, o1) := SetAside(d, w);
      if o1 != Succeeds then Run(d1, said1, Stopped(o1, Io))
      else
        var (d2, o2) := MoveIn(d1, w);
        if o2 != Succeeds then Run(d2, said1, Stopped(o2, Io))
        else if w.publish != Succeeds then Run(d2, said1, Stopped(w.publish, Io))
        else if w.writeRev != Succeeds then Run(d2, said1, Stopped(w.writeRev, Io))
        else Run(d2, said1 + [Done(BinAbs(name, rel))], Installed(BinAbs(name, rel)))
  }

  /** Step 6b: read the sidecar again, add the hash, write it back. */
  ghost function Record(d: ToolDisk, version: string, triple: string, hash: string, w: World): (ToolDisk, Outcome) {
    if w.rereadSidecar != Succeeds then (d, w.rereadSidecar)
    else if w.writeSidecar != Succeeds then (d, w.writeSidecar)
    else
      var had: Checksums := match d.sidecar case Some(text) => FromToml(text) case None => map[];
      (d.(sidecar := Some(ToToml(Insert(had, version, triple, hash)))), Succeeds)
  }

  /** Steps 5 and 6: unpack into a clean directory and look for the binary. */
  ghost function Unpack(d: ToolDisk, name: string, spec: ToolSpec, triple: string, tofu: bool, hash: string,
                        w: World, said: seq<Status>): Run
  {
    var said1 := said + [Extracting];
    if w.unpack != Succeeds then Run(d, said1, Stopped(w.unpack, Io))
    else
      match FindBin.BinPath(w.tree, spec.bin)
      case None => Run(d, said1, Failing(BinNotFound(spec.bin)))
      case Some(rel) =>
        if !tofu then Publish(d, name, w, rel, said1)
        else
          var (d1, o) := Record(d, spec.version, triple, hash, w);
          if o != Succeeds then Run(d1, said1, Stopped(o, Io))
          else Publish(d1, name, w, rel, said1 + [TofuRecorded(triple, hash)])
  }

  /** Steps 3 and 4: download, hash, compare. */
  ghost function Fetch(d: ToolDisk, name: string, spec: ToolSpec, triple: string, expected: ExpectedSha,
                       w: World, sha: Bytes -> string): Run
  {
    if w.stage != Succeeds then Run(d, [], Stopped(w.stage, Io))
    else
      var said := Downloads(w.chunks, w.total);
      if w.download != Succeeds then Run(d, said, Stopped(w.download, Io))
      else
        var said1 := said + [Verifying];
        var actual := sha(w.bytes);
        if w.hashFile != Succeeds then Run(d, said1, Stopped(w.hashFile, Io))
        else if !expected.Tofu? && actual != expected.hash
        then Run(d, said1, Failing(ChecksumMismatch(expected.hash, actual)))
        else Unpack(d, name, spec, triple, expected.Tofu?, actual, w, said1)
  }

  /** `install_github_locked`. */
  ghost function Attempt(d: ToolDisk, name: string, spec: ToolSpec, w: World, sha: Bytes -> string): Run {
    if !spec.install.Github? then Run(d, [], Failing(UnsupportedMethod))
    else
      match HostTriple(w.host)
      case None => Run(d, [], Failing(UnsupportedTriple(w.host.os + "/" + w.host.arch)))
      case Some(triple) =>
        match Resolve(d, spec.install, spec.version, triple, w.readSidecar)
        case None => Run(d, [], Stopped(w.readSidecar, Io))
        case Some(expected) =>
          var asset := ExpandAsset(spec.install.assetPattern, triple, spec.version);
          if !IsSafeRepo(spec.install.repo) then Run(d, [], Failing(UnsafeUrlComponent(spec.install.repo)))
          else if !IsSafeUrlComponent(spec.version) then Run(d, [], Failing(UnsafeUrlComponent(spec.version)))
          else if !IsSafeUrlComponent(asset) then Run(d, [], Failing(UnsafeUrlComponent(asset)))
          else Fetch(d, name, spec, triple, expected, w, sha)
  }

  // ── Two facts about one attempt ────────────────────────────────────────

  lemma PublishReports(d: ToolDisk, name: string, w: World, rel: FindBin.Path, said: seq<Status>)
    requires NoTerminal(said)
    ensures var r := Publish(d, name, w, rel, said);
            !r.ending.Crashed? ==> WellFormedReport(r.reported, VerdictOf(r.ending))
  {
    hide SetAside, MoveIn;
    var said2 := said + [Installing] + [Done(BinAbs(name, rel))];
    assert said2[..|said2| - 1] == said + [Installing];
  }

  lemma UnpackReports(d: ToolDisk, name: string, spec: ToolSpec, triple: string, tofu: bool, hash: string,
                      w: World, said: seq<Status>)
    requires NoTerminal(said)
    ensures var r := Unpack(d, name, spec, triple, tofu, hash, w, said);
            !r.ending.Crashed? ==> WellFormedReport(r.reported, VerdictOf(r.ending))
  {
    hide Publish, Record, FindBin.BinPath;
    var rel := FindBin.BinPath(w.tree, spec.bin);
    if rel.Some? {
      PublishReports(d, name, w, rel.value, said + [Extracting]);
      var d1 := Record(d, spec.version, triple, hash, w).0;
      PublishReports(d1, name, w, rel.value, said + [Extracting] + [TofuRecorded(triple, hash)]);
    }
  }

  /**
   What an attempt reports fits the pool's protocol: a failure reports nothing terminal, a
   success reports its own `Done` once, last.
   */
  lemma AttemptReportIsWellFormed(d: ToolDisk, name: string, spec: ToolSpec, w: World, sha: Bytes -> string)
    ensures var r := Attempt(d, name, spec, w, sha);
            !r.ending.Crashed? ==> WellFormedReport(r.reported, VerdictOf(r.ending))
  {
    hide Unpack, Resolve, IsSafeRepo, IsSafeUrlComponent, ExpandAsset;
    var said := Downloads(w.chunks, w.total);
    var triple := HostTriple(w.host);
    if triple.Some? {
      UnpackReports(d, name, spec, triple.value, true, sha(w.bytes), w, said + [Verifying]);
      UnpackReports(d, name, spec, triple.value, false, sha(w.bytes), w, said + [Verifying]);
    }
  }

  // ── When an attempt succeeds ───────────────────────────────────────────

  /** The download's hash is the one to expect, or it can be put on record. */
  ghost predicate HashIsAccepted(d: ToolDisk, spec: ToolSpec, triple: string, w: World, actual: string)
    requires spec.install.Github?
  {
    if HasPin(spec.install, triple) then actual == spec.install.sha256[triple]
    else
      && w.readSidecar == Succeeds
      && match Recorded(d.sidecar, spec.version, triple)
         case Some(hash) => actual == hash
         case None => w.rereadSidecar == Succeeds && w.writeSidecar == Succeeds
  }

  /** What is installed can be set aside, and the new tree moved in. */
  predicate PackageCanBeSwapped(d: ToolDisk, w: World) {
    && (!d.pkg.Absent? ==>
          && !RemovalCrashed(w.clearBak)
          && (w.setAside.Copied? || (w.setAside.Moved? && !Remove(d.bak, w.clearBak).Whole?)))
    && (w.moveIn.Moved? || w.moveIn.Copied?) && !RemovalCrashed(w.dropBak)
  }

  ghost predicate EveryStepWorks(d: ToolDisk, spec: ToolSpec, w: World, sha: Bytes -> string) {
    && spec.install.Github? && HostTriple(w.host).Some?
    && IsSafeRepo(spec.install.repo) && IsSafeUrlComponent(spec.version)
    && IsSafeUrlComponent(ExpandAsset(spec.install.assetPattern, HostTriple(w.host).value, spec.version))
    && w.stage == Succeeds && w.download == Succeeds && w.hashFile == Succeeds && w.unpack == Succeeds
    && HashIsAccepted(d, spec, HostTriple(w.host).value, w, sha(w.bytes))
    && FindBin.BinPath(w.tree, spec.bin).Some?
    && w.chmod == Succeeds && PackageCanBeSwapped(d, w) && w.publish == Succeeds && w.writeRev == Succeeds
  }

  lemma SwapsExactlyWhen(d: ToolDisk, w: World)
    ensures SetAside(d, w).1 == Succeeds && MoveIn(SetAside(d, w).0, w).1 == Succeeds <==> PackageCanBeSwapped(d, w)
  {
  }

  lemma PublishesExactlyWhen(d: ToolDisk, name: string, w: World, rel: FindBin.Path, said: seq<Status>)
    ensures Publish(d, name, w, rel, said).ending.Installed? <==>
      w.chmod == Succeeds && PackageCanBeSwapped(d, w) && w.publish == Succeeds && w.writeRev == Succeeds
  {
    SwapsExactlyWhen(d, w);
    hide SetAside, MoveIn, PackageCanBeSwapped;
  }

  /** An attempt installs exactly when every step works and the hash is accepted: nothing else stops it. */
  lemma InstallsExactlyWhen(d: ToolDisk, name: string, spec: ToolSpec, w: World, sha: Bytes -> string)
    ensures Attempt(d, name, spec, w, sha).ending.Installed? <==> EveryStepWorks(d, spec, w, sha)
  {
    hide Publish, Recorded, PackageCanBeSwapped, FindBin.BinPath, IsSafeRepo, IsSafeUrlComponent, ExpandAsset, ToToml, FromToml, Insert;
    var triple, rel := HostTriple(w.host), FindBin.BinPath(w.tree, spec.bin);
    if triple.Some? && rel.Some? {
      var actual := sha(w.bytes);
      var said := Downloads(w.chunks, w.total) + [Verifying] + [Extracting];
      var d1 := Record(d, spec.version, triple.value, actual, w).0;
      PublishesExactlyWhen(d, name, w, rel.value, said);
      PublishesExactlyWhen(d1, name, w, rel.value, said + [TofuRecorded(triple.value, actual)]);
      SwapIgnoresSidecar(d, d1.sidecar, w);
    }
  }

  lemma SwapIgnoresSidecar(d: ToolDisk, sidecar: Option<string>, w: World)
    ensures PackageCanBeSwapped(d.(sidecar := sidecar), w) == PackageCanBeSwapped(d, w)
  {
  }
}

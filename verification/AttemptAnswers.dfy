/**
 What one attempt tells its caller: the path of the binary, the statuses in the order of the
 steps, and the cause of a failure. Stated on the answers themselves, on manifest entry, disk and
 world.
 */
module AttemptAnswers {
  import opened Wrappers
  import opened Manifest
  import opened InstallStatus
  import opened UrlPolicy
  import opened Text
  import opened Sidecar
  import opened GithubInstall
  import opened ByteStrings
  import opened Slices
  import FindBin
  import TreeSurvival

  // ── The path of the binary ─────────────────────────────────────────────

  /** No name in the tree holds a separator, as on any disk. */
  ghost predicate SlashFree(node: FindBin.Node) {
    node.Dir? ==>
      && (forall i :: 0 <= i < |node.entries| ==> '/' !in node.entries[i].name)
      && (forall i :: 0 <= i < |node.entries| ==> SlashFree(node.entries[i].node))
  }

  lemma {:induction false} FilesAreSlashFree(node: FindBin.Node, p: FindBin.Path)
    requires SlashFree(node) && FindBin.FileAt(node, p)
    ensures forall i :: 0 <= i < |p| ==> '/' !in p[i]
    decreases p
  {
    if p != [] {
      var i := FindBin.ChildIndex(node.entries, p[0]);
      FilesAreSlashFree(node.entries[i].node, p[1..]);
      assert forall k | 1 <= k < |p| :: p[k] == p[1..][k - 1];
    }
  }

  lemma {:induction false} SegmentsOfJoined(a: string, rel: FindBin.Path)
    requires '/' !in a && forall i :: 0 <= i < |rel| ==> '/' !in rel[i]
    ensures Segments(a + Joined(rel)) == [a] + rel
    decreases |rel|
  {
    if rel == [] {
      assert a + "" == a;
      OneSegment(a);
    } else {
      var rest := rel[0] + Joined(rel[1..]);
      assert a + Joined(rel) == a + "/" + rest;
      FirstSegment(a, rest);
      SegmentsOfJoined(rel[0], rel[1..]);
      assert rel == [rel[0]] + rel[1..];
    }
  }

  lemma BinAbsSegments(name: string, rel: FindBin.Path)
    requires '/' !in name && forall i :: 0 <= i < |rel| ==> '/' !in rel[i]
    ensures Segments(BinAbs(name, rel)) == ["packages", name] + rel
  {
    hide Segments;
    var rest := name + Joined(rel);
    assert BinAbs(name, rel) == "packages" + "/" + rest;
    FirstSegment("packages", rest);
    SegmentsOfJoined(name, rel);
    assert ["packages"] + ([name] + rel) == ["packages", name] + rel;
  }

  /**
   A success names the binary it installed: the tool's own package directory followed by a path
   that is a file of that name in the tree now in place, the one the lookup chose; and the last
   thing it reports is that path.
   */
  lemma InstalledPathIsTheBinary(d: ToolDisk, name: string, spec: ToolSpec, w: World, sha: Bytes -> string)
    returns (rel: FindBin.Path)
    requires '/' !in name && SlashFree(w.tree) && FindBin.WellNamed(w.tree)
    requires Attempt(d, name, spec, w, sha).ending.Installed?
    ensures var r := Attempt(d, name, spec, w, sha);
      && Segments(r.ending.binPath) == ["packages", name] + rel
      && FindBin.FileAt(w.tree, rel) && FindBin.Named(rel, spec.bin) && FindBin.BinPath(w.tree, spec.bin) == Some(rel)
      && r.disk.pkg == Whole(w.tree)
      && r.reported != [] && r.reported[|r.reported| - 1] == Done(r.ending.binPath)
  {
    hide Attempt, Segments, BinAbs, FindBin.FileAt, FindBin.BinPath, FindBin.Named;
    rel := InstalledPath(d, name, spec, w, sha);
    FindBin.BinPathIsAFile(w.tree, spec.bin);
    FilesAreSlashFree(w.tree, rel);
    BinAbsSegments(name, rel);
    TreeSurvival.SuccessPutsTreeInPlace(d, name, spec, w, sha);
  }

  // ── The statuses, in order ─────────────────────────────────────────────

  /** Whether nothing pins the hash and nothing is on record for this version and triple. */
  ghost predicate IsFirstUse(d: ToolDisk, spec: ToolSpec, triple: string) {
    !HasPin(spec.install, triple) && Recorded(d.sidecar, spec.version, triple) == None
  }

  function TofuStage(firstUse: bool, triple: string, hash: string): seq<Status> {
    if firstUse then [TofuRecorded(triple, hash)] else []
  }

  /** What follows the download, up to the success. */
  function LaterStages(firstUse: bool, triple: string, hash: string): seq<Status> {
    [Verifying, Extracting] + TofuStage(firstUse, triple, hash) + [Installing]
  }

  lemma PublishStages(d: ToolDisk, name: string, w: World, rel: FindBin.Path, said: seq<Status>)
    ensures var r := Publish(d, name, w, rel, said);
      && (r.ending.Installed? ==> r.ending.binPath == BinAbs(name, rel) && r.reported == said + [Installing] + [Done(r.ending.binPath)])
      && (!r.ending.Installed? ==> r.reported == said || r.reported == said + [Installing])
      && (r.ending.Failing? ==> r.ending.error == Io)
  {
    hide SetAside, MoveIn, BinAbs;
  }

  lemma UnpackStages(d: ToolDisk, name: string, spec: ToolSpec, triple: string, tofu: bool, hash: string,
                     w: World, said: seq<Status>)
    ensures var r, rel := Unpack(d, name, spec, triple, tofu, hash, w, said), FindBin.BinPath(w.tree, spec.bin);
      var all := said + [Extracting] + TofuStage(tofu, triple, hash) + [Installing];
      && (r.ending.Installed? ==>
            && rel.Some? && r.ending.binPath == BinAbs(name, rel.value)
            && r.reported == all + [Done(r.ending.binPath)])
      && (!r.ending.Installed? ==> said < r.reported <= all)
      && (r.ending.Failing? && r.ending.error != Io ==>
            r.ending.error == BinNotFound(spec.bin) && rel == None && r.reported == said + [Extracting])
  {
    hide Publish, Record, FindBin.BinPath, BinAbs;
    var rel := FindBin.BinPath(w.tree, spec.bin);
    if rel.Some? {
      PublishStages(d, name, w, rel.value, said + [Extracting]);
      var d1 := Record(d, spec.version, triple, hash, w).0;
      PublishStages(d1, name, w, rel.value, said + [Extracting] + [TofuRecorded(triple, hash)]);
      assert said + [Extracting] + [] == said + [Extracting];
    }
  }

  /** The causes of the failures that are not just an I/O error, and how far the attempt had come. */
  ghost predicate IsCause(d: ToolDisk, spec: ToolSpec, w: World, hash: string, later: seq<Status>, error: InstallError) {
    match error
    case UnsupportedMethod => !spec.install.Github?
    case UnsupportedTriple(host) => HostTriple(w.host) == None && host == w.host.os + "/" + w.host.arch
    case UnsafeUrlComponent(value) =>
      && spec.install.Github? && HostTriple(w.host).Some? && later == []
      && if !IsSafeRepo(spec.install.repo) then value == spec.install.repo
         else if !IsSafeUrlComponent(spec.version) then value == spec.version
         else
           value == ExpandAsset(spec.install.assetPattern, HostTriple(w.host).value, spec.version) && !IsSafeUrlComponent(value)
    case ChecksumMismatch(expected, actual) =>
      && actual == hash && expected != actual && later == [Verifying]
      && spec.install.Github? && HostTriple(w.host).Some?
      && var triple := HostTriple(w.host).value;
         if triple in spec.install.sha256 && spec.install.sha256[triple] != "" then expected == spec.install.sha256[triple]
         else Recorded(d.sidecar, spec.version, triple) == Some(expected)
    case BinNotFound(bin) =>
      bin == spec.bin && FindBin.BinPath(w.tree, bin) == None && later == [Verifying, Extracting]
    case Io => true
  }

  /** From the download on: every stage said is one of the stages, in their order. */
  lemma FetchStages(d: ToolDisk, name: string, spec: ToolSpec, triple: string, expected: ExpectedSha,
                    w: World, sha: Bytes -> string)
    ensures var r, n := Fetch(d, name, spec, triple, expected, w, sha), |w.chunks|;
      var later := LaterStages(expected.Tofu?, triple, sha(w.bytes));
      && (r.reported != [] ==> n <= |r.reported| && forall i :: 0 <= i < n ==> r.reported[i] == Downloading(w.chunks[i], w.total))
      && (r.reported != [] && !r.ending.Installed? ==> r.reported[n..] <= later)
      && (r.ending.Installed? ==>
            && FindBin.BinPath(w.tree, spec.bin).Some?
            && r.ending.binPath == BinAbs(name, FindBin.BinPath(w.tree, spec.bin).value)
            && r.reported != [] && r.reported[n..] == later + [Done(r.ending.binPath)])
      && (r.ending.Failing? && r.ending.error != Io ==>
            && r.reported != []
            && ((r.ending.error == BinNotFound(spec.bin) && FindBin.BinPath(w.tree, spec.bin) == None
                 && r.reported[n..] == [Verifying, Extracting])
                || (!expected.Tofu? && expected.hash != sha(w.bytes) && r.reported[n..] == [Verifying]
                    && r.ending.error == ChecksumMismatch(expected.hash, sha(w.bytes)))))
  {
    hide Unpack, FindBin.BinPath, BinAbs;
    var said := Downloads(w.chunks, w.total);
    UnpackStages(d, name, spec, triple, expected.Tofu?, sha(w.bytes), w, said + [Verifying]);
    var later := LaterStages(expected.Tofu?, triple, sha(w.bytes));
    assert said + [Verifying] + [Extracting] + TofuStage(expected.Tofu?, triple, sha(w.bytes)) + [Installing] == said + later;
  }

  /**
   What is reported is the download in its chunks, then verifying, extracting, the hash put on
   record if this is the first use, installing. A success says all of that and then `Done`; any
   other ending stopped somewhere on the way.
   */
  lemma ReportsFollowTheSteps(d: ToolDisk, name: string, spec: ToolSpec, w: World, sha: Bytes -> string)
    ensures var r, n := Attempt(d, name, spec, w, sha), |w.chunks|;
      r.reported != [] ==>
        && n <= |r.reported| && (forall i :: 0 <= i < n ==> r.reported[i] == Downloading(w.chunks[i], w.total))
        && HostTriple(w.host).Some?
        && var triple := HostTriple(w.host).value;
           var later := LaterStages(IsFirstUse(d, spec, triple), triple, sha(w.bytes));
           if r.ending.Installed? then r.reported[n..] == later + [Done(r.ending.binPath)] else r.reported[n..] <= later
  {
    hide Fetch, Recorded, IsSafeRepo, IsSafeUrlComponent, ExpandAsset, HostTriple, LaterStages;
    var triple := HostTriple(w.host);
    if triple.Some? && spec.install.Github? {
      var expected := Resolve(d, spec.install, spec.version, triple.value, w.readSidecar);
      if expected.Some? {
        FetchStages(d, name, spec, triple.value, expected.value, w, sha);
      }
    }
  }

  /** The path a success names. */
  lemma InstalledPath(d: ToolDisk, name: string, spec: ToolSpec, w: World, sha: Bytes -> string) returns (rel: FindBin.Path)
    requires Attempt(d, name, spec, w, sha).ending.Installed?
    ensures var r := Attempt(d, name, spec, w, sha);
      && FindBin.BinPath(w.tree, spec.bin) == Some(rel) && r.ending.binPath == BinAbs(name, rel)
      && r.reported != [] && r.reported[|r.reported| - 1] == Done(r.ending.binPath)
  {
    hide Fetch, Recorded, IsSafeRepo, IsSafeUrlComponent, ExpandAsset, HostTriple, LaterStages, FindBin.BinPath, BinAbs;
    var triple := HostTriple(w.host).value;
    FetchStages(d, name, spec, triple, Resolve(d, spec.install, spec.version, triple, w.readSidecar).value, w, sha);
    rel := FindBin.BinPath(w.tree, spec.bin).value;
  }

  /**
   A failure names its cause: the part of the URL that was refused, the hash that the pin or the
   record asks for next to the one the download has, the binary that no part of the tree holds.
   */
  lemma FailuresNameTheirCause(d: ToolDisk, name: string, spec: ToolSpec, w: World, sha: Bytes -> string)
    requires Attempt(d, name, spec, w, sha).ending.Failing?
    ensures var r, n := Attempt(d, name, spec, w, sha), |w.chunks|;
      IsCause(d, spec, w, sha(w.bytes), if n <= |r.reported| then r.reported[n..] else [], r.ending.error)
  {
    hide Fetch, Recorded, IsSafeRepo, IsSafeUrlComponent, ExpandAsset, HostTriple, FindBin.BinPath;
    var triple := HostTriple(w.host);
    if triple.Some? && spec.install.Github? {
      var expected := Resolve(d, spec.install, spec.version, triple.value, w.readSidecar);
      if expected.Some? {
        FetchStages(d, name, spec, triple.value, expected.value, w, sha);
      }
    }
  }

  /** A sidecar that cannot be read stops an unpinned attempt before anything else is looked at. */
  lemma UnreadableSidecarComesFirst(d: ToolDisk, name: string, spec: ToolSpec, w: World, sha: Bytes -> string)
    requires spec.install.Github? && HostTriple(w.host).Some? && !HasPin(spec.install, HostTriple(w.host).value)
    requires w.readSidecar != Succeeds
    ensures Attempt(d, name, spec, w, sha) == Run(d, [], if w.readSidecar == Crashes then Crashed else Failing(Io))
  {
  }

  /** Some step the attempt may come to does not succeed, and the machine goes on. */
  predicate SomethingFails(d: ToolDisk, w: World) {
    || Fails in {w.readSidecar, w.stage, w.download, w.hashFile, w.unpack, w.rereadSidecar, w.writeSidecar}
    || Fails in {w.chmod, w.publish, w.writeRev}
    || w.setAside.Refused? || w.setAside.Unseated? || w.setAside.LeftCopy?
    || (w.setAside.Moved? && !w.clearBak.Removed? && d.bak.Whole?)
    || w.moveIn.Refused? || w.moveIn.Unseated? || w.moveIn.LeftCopy?
  }

  predicate StopsTheMachine(m: Move) {
    m.CrashedEarly? || m.CrashedUnseated? || m.CrashedWithCopy?
  }

  /** At some step the attempt may come to the machine stops. */
  predicate SomethingCrashes(w: World) {
    || Crashes in {w.readSidecar, w.stage, w.download, w.hashFile, w.unpack, w.rereadSidecar, w.writeSidecar}
    || Crashes in {w.chmod, w.publish, w.writeRev}
    || RemovalCrashed(w.clearBak) || RemovalCrashed(w.dropBak)
    || StopsTheMachine(w.setAside) || StopsTheMachine(w.moveIn) || StopsTheMachine(w.rollback)
  }

  lemma SwapStops(d: ToolDisk, w: World)
    ensures var (d1, o1) := SetAside(d, w);
      && (o1 == Fails ==> SomethingFails(d, w)) && (o1 == Crashes ==> SomethingCrashes(w))
      && (o1 == Succeeds ==>
            && (MoveIn(d1, w).1 == Fails ==> SomethingFails(d, w))
            && (MoveIn(d1, w).1 == Crashes ==> SomethingCrashes(w)))
  {
  }

  lemma PublishStops(d: ToolDisk, name: string, w: World, rel: FindBin.Path, said: seq<Status>)
    ensures var r := Publish(d, name, w, rel, said);
      (r.ending == Failing(Io) ==> SomethingFails(d, w)) && (r.ending.Crashed? ==> SomethingCrashes(w))
  {
    SwapStops(d, w);
    hide SetAside, MoveIn;
  }

  lemma UnpackStops(d: ToolDisk, name: string, spec: ToolSpec, triple: string, tofu: bool, hash: string,
                    w: World, said: seq<Status>)
    ensures var r := Unpack(d, name, spec, triple, tofu, hash, w, said);
      (r.ending == Failing(Io) ==> SomethingFails(d, w)) && (r.ending.Crashed? ==> SomethingCrashes(w))
  {
    hide Publish, FindBin.BinPath, ToToml, FromToml, Insert;
    var rel := FindBin.BinPath(w.tree, spec.bin);
    if rel.Some? {
      PublishStops(d, name, w, rel.value, said + [Extracting]);
      var d1 := Record(d, spec.version, triple, hash, w).0;
      PublishStops(d1, name, w, rel.value, said + [Extracting] + [TofuRecorded(triple, hash)]);
    }
  }

  /**
   A failure without a cause of its own comes from a step that failed, and an attempt ends without
   any answer only where the machine stopped.
   */
  lemma EndingsAreNotInvented(d: ToolDisk, name: string, spec: ToolSpec, w: World, sha: Bytes -> string)
    ensures var r := Attempt(d, name, spec, w, sha);
      (r.ending == Failing(Io) ==> SomethingFails(d, w)) && (r.ending.Crashed? ==> SomethingCrashes(w))
  {
    hide Unpack, Recorded, IsSafeRepo, IsSafeUrlComponent, ExpandAsset, HostTriple;
    var said, triple := Downloads(w.chunks, w.total), HostTriple(w.host);
    if triple.Some? {
      UnpackStops(d, name, spec, triple.value, true, sha(w.bytes), w, said + [Verifying]);
      UnpackStops(d, name, spec, triple.value, false, sha(w.bytes), w, said + [Verifying]);
    }
  }

  /**
   The link and the revision file come last: when one of them is all that fails, the attempt
   fails although the new tree is in place.
   */
  lemma LateFailureIsInPlace(d: ToolDisk, name: string, spec: ToolSpec, w: World, sha: Bytes -> string)
    requires EveryStepWorks(d, spec, w.(publish := Succeeds, writeRev := Succeeds), sha)
    requires w.publish != Succeeds || w.writeRev != Succeeds
    ensures var r := Attempt(d, name, spec, w, sha);
      && !r.ending.Installed? && r.disk.pkg == Whole(w.tree)
      && r.reported != [] && r.reported[|r.reported| - 1] == Installing
  {
    hide Recorded, FindBin.BinPath, IsSafeRepo, IsSafeUrlComponent, ExpandAsset, HostTriple, Publish, Remove, ToToml, FromToml, Insert, PackageCanBeSwapped;
    var triple, rel := HostTriple(w.host).value, FindBin.BinPath(w.tree, spec.bin).value;
    var said := Downloads(w.chunks, w.total) + [Verifying] + [Extracting];
    var d1 := Record(d, spec.version, triple, sha(w.bytes), w).0;
    SwapIgnoresSidecar(d, d1.sidecar, w);
    SwapIgnoresTheEnd(d, w);
    LateFailure(d, name, w, rel, said);
    LateFailure(d1, name, w, rel, said + [TofuRecorded(triple, sha(w.bytes))]);
  }

  lemma SwapIgnoresTheEnd(d: ToolDisk, w: World)
    ensures PackageCanBeSwapped(d, w.(publish := Succeeds, writeRev := Succeeds)) == PackageCanBeSwapped(d, w)
  {
  }

  lemma LateFailure(d: ToolDisk, name: string, w: World, rel: FindBin.Path, said: seq<Status>)
    requires w.chmod == Succeeds && PackageCanBeSwapped(d, w) && (w.publish != Succeeds || w.writeRev != Succeeds)
    ensures var r := Publish(d, name, w, rel, said);
      !r.ending.Installed? && r.disk.pkg == Whole(w.tree) && r.reported == said + [Installing]
  {
  }

  /** The verdict on an attempt: the path of a success, both hashes of a mismatch. */
  lemma VerdictSaysIt(binPath: string, expected: string, actual: string)
    ensures VerdictOf(Installed(binPath)) == Done(binPath)
    ensures VerdictOf(Failing(ChecksumMismatch(expected, actual))) ==
      Failed("checksum mismatch: expected " + expected + ", got " + actual)
    ensures VerdictOf(Failing(BinNotFound(actual))) == Failed("binary not found in installed package: " + actual)
  {
  }

  // ── The machine and the asset ──────────────────────────────────────────

  /** A triple begins with the machine's architecture and ends as its system's triples do. */
  lemma TripleNamesTheHost(h: Host)
    ensures HostTriple(h).Some? <==>
      h.arch in {"x86_64", "aarch64"} && h.os in {"linux", "macos", "windows"} && !(h.os == "windows" && h.arch == "aarch64")
    ensures HostTriple(h).Some? ==>
      && StartsWith(HostTriple(h).value, h.arch)
      && EndsWith(HostTriple(h).value, if h.os == "linux" then "-linux-gnu" else if h.os == "macos" then "-darwin" else "-msvc")
  {
    hide HostTriple;
    HostsWithTriple(h);
    TripleBegins(h);
    TripleEnds(h);
  }

  lemma HostsWithTriple(h: Host)
    ensures HostTriple(h).Some? <==>
      h.arch in {"x86_64", "aarch64"} && h.os in {"linux", "macos", "windows"} && !(h.os == "windows" && h.arch == "aarch64")
  {
  }

  lemma TripleBegins(h: Host)
    ensures HostTriple(h).Some? ==> StartsWith(HostTriple(h).value, h.arch)
  {
  }

  lemma TripleEnds(h: Host)
    ensures HostTriple(h).Some? ==>
      EndsWith(HostTriple(h).value, if h.os == "linux" then "-linux-gnu" else if h.os == "macos" then "-darwin" else "-msvc")
  {
  }
}

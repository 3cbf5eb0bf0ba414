/**
 A tool that was installed keeps a complete tree on disk, over whole histories of attempts that
 may fail or crash anywhere; and exactly when the next attempt could take it away.
 */
module TreeSurvival {
  import opened Wrappers
  import opened Manifest
  import opened InstallStatus
  import opened UrlPolicy
  import opened Sidecar
  import opened GithubInstall
  import opened InstallHistory
  import opened ByteStrings
  import FindBin

  // ── One attempt ────────────────────────────────────────────────────────

  /** A complete tree is on disk, in place or at the backup path. */
  predicate HasTree(d: ToolDisk) {
    d.pkg.Whole? || d.bak.Whole?
  }

  /** Setting the package aside never leaves it half removed: a rename never does. */
  predicate NeverTears(w: World) {
    match w.setAside
    case LeftCopy(torn) => !torn
    case CrashedWithCopy(torn) => !torn
    case _ => true
  }

  /**
   `last` is the complete tree that was in the package directory last, if one ever was. It is
   there still, or it is at the backup path while nothing complete is in place.
   */
  predicate Intact(d: ToolDisk, last: Option<Tree>) {
    match last
    case None => d.pkg == Absent && d.bak == Absent
    case Some(t) => d.pkg == Whole(t) || (!d.pkg.Whole? && d.bak == Whole(t))
  }

  /** The tree that was in place last, given the one before and the disk now. */
  function LastSeen(d: ToolDisk, last: Option<Tree>): Option<Tree> {
    if d.pkg.Whole? then Some(d.pkg.tree) else last
  }

  /** What an attempt that starts at `d` with an untorn package directory may leave. */
  ghost predicate SwapStep(d: ToolDisk, w: World, r: Run) {
    && (HasTree(d) ==> HasTree(r.disk))
    && (forall last :: Intact(d, last) ==> Intact(r.disk, LastSeen(r.disk, last)))
    && (r.disk.pkg.Whole? ==>
          || r.disk.pkg == Whole(w.tree) || r.disk.pkg == d.pkg
          || (d.pkg.Absent? && r.disk.pkg == d.bak))
    && (HasTree(d) && NeverTears(w) ==> !r.disk.pkg.Torn?)
  }

  lemma PublishSwap(d: ToolDisk, name: string, w: World, rel: FindBin.Path, said: seq<Status>)
    requires !d.pkg.Torn?
    ensures SwapStep(d, w, Publish(d, name, w, rel, said))
  {
    if w.chmod == Succeeds {
      SetAsideKeeps(d, w);
      var (d1, o1) := SetAside(d, w);
      if o1 == Succeeds {
        MoveInKeeps(d, d1, w);
      }
    }
  }

  lemma SetAsideKeeps(d: ToolDisk, w: World)
    requires !d.pkg.Torn?
    ensures var (d1, o) := SetAside(d, w);
      && (o == Succeeds ==> d1 == if d.pkg.Absent? then d else d.(pkg := Absent, bak := d.pkg))
      && (o != Succeeds ==>
            && d.pkg.Whole? && (d1.pkg == d.pkg || (!d1.pkg.Whole? && d1.bak == d.pkg))
            && (NeverTears(w) ==> d1.pkg == d.pkg))
  {
  }

  lemma MoveInKeeps(d: ToolDisk, d1: ToolDisk, w: World)
    requires !d.pkg.Torn? && d1 == if d.pkg.Absent? then d else d.(pkg := Absent, bak := d.pkg)
    ensures var (d2, o) := MoveIn(d1, w);
      && (d2.pkg == Whole(w.tree) || d2.pkg == d1.bak || (d2.pkg == Absent && d2.bak == d1.bak))
      && (o == Succeeds ==> d2.pkg == Whole(w.tree))
  {
  }

  lemma UnpackSwap(d: ToolDisk, name: string, spec: ToolSpec, triple: string, tofu: bool, hash: string,
                   w: World, said: seq<Status>)
    requires !d.pkg.Torn?
    ensures SwapStep(d, w, Unpack(d, name, spec, triple, tofu, hash, w, said))
  {
    hide Publish, FindBin.BinPath, FromToml, ToToml, Insert;
    var rel := FindBin.BinPath(w.tree, spec.bin);
    if rel.Some? {
      PublishSwap(d, name, w, rel.value, said + [Extracting]);
      var d1 := Record(d, spec.version, triple, hash, w).0;
      PublishSwap(d1, name, w, rel.value, said + [Extracting] + [TofuRecorded(triple, hash)]);
    }
  }

  /**
   However an attempt fails, wherever the machine stops and however its moves are made: if the
   package directory was not half removed when it started, the tree that was in place last is
   complete afterwards.
   */
  lemma AttemptSwap(d: ToolDisk, name: string, spec: ToolSpec, w: World, sha: Bytes -> string)
    requires !d.pkg.Torn?
    ensures SwapStep(d, w, Attempt(d, name, spec, w, sha))
  {
    hide Unpack, Resolve, IsSafeRepo, IsSafeUrlComponent, ExpandAsset;
    var said := Downloads(w.chunks, w.total) + [Verifying];
    var triple := HostTriple(w.host);
    if triple.Some? {
      UnpackSwap(d, name, spec, triple.value, true, sha(w.bytes), w, said);
      UnpackSwap(d, name, spec, triple.value, false, sha(w.bytes), w, said);
    }
  }

  lemma PublishInstallsTree(d: ToolDisk, name: string, w: World, rel: FindBin.Path, said: seq<Status>)
    ensures var r := Publish(d, name, w, rel, said); r.ending.Installed? ==>
      && r.disk.pkg == Whole(w.tree)
      && (w.dropBak.Removed? ==> r.disk.bak == Absent)
      && (w.dropBak.Partly? ==> r.disk.bak == if d.pkg.Absent? && d.bak.Absent? then Absent else Torn)
  {
  }

  /** A crash while a stale backup is cleared leaves the package alone and of the backup all or a part. */
  lemma ClearingCrash(d: ToolDisk, w: World)
    requires !d.pkg.Absent? && RemovalCrashed(w.clearBak)
    ensures SetAside(d, w) ==
      (d.(bak := if d.bak.Absent? then Absent else if w.clearBak.CrashedKept? then d.bak else Torn), Crashes)
  {
  }

  /**
   A success puts the attempt's tree in place, whatever the disk was like before, and leaves no
   backup behind unless the removal of it does.
   */
  lemma SuccessPutsTreeInPlace(d: ToolDisk, name: string, spec: ToolSpec, w: World, sha: Bytes -> string)
    requires Attempt(d, name, spec, w, sha).ending.Installed?
    ensures Attempt(d, name, spec, w, sha).disk.pkg == Whole(w.tree)
    ensures w.dropBak.Removed? ==> Attempt(d, name, spec, w, sha).disk.bak == Absent
    ensures w.dropBak.Partly? ==>
      Attempt(d, name, spec, w, sha).disk.bak == if d.pkg.Absent? && d.bak.Absent? then Absent else Torn
  {
    hide Publish, Recorded, FindBin.BinPath, IsSafeRepo, IsSafeUrlComponent, ExpandAsset, ToToml, FromToml, Insert;
    var triple, rel := HostTriple(w.host), FindBin.BinPath(w.tree, spec.bin);
    if triple.Some? && rel.Some? {
      var said := Downloads(w.chunks, w.total) + [Verifying] + [Extracting];
      var d1 := Record(d, spec.version, triple.value, sha(w.bytes), w).0;
      PublishInstallsTree(d, name, w, rel.value, said);
      PublishInstallsTree(d1, name, w, rel.value, said + [TofuRecorded(triple.value, sha(w.bytes))]);
    }
  }

  /**
   A move of the new tree that fails before anything is in place leaves the old tree: back in
   place when the rollback puts it there, at the backup path when it does not. A move that fails
   only because its source could not be cleaned up has put the new tree in place, and it stays
   unless the rollback replaces it by a copy of the old one.
   */
  lemma FailedMoveIn(d: ToolDisk, w: World, prior: Tree)
    requires d.pkg == Whole(prior) && SetAside(d, w).1 == Succeeds
    requires MoveIn(SetAside(d, w).0, w).1 == Fails
    ensures var d' := MoveIn(SetAside(d, w).0, w).0;
      var copied := w.rollback.Copied? || w.rollback.LeftCopy?;
      && (w.moveIn.Refused? || w.moveIn.Unseated? || w.moveIn.LeftCopy?)
      && (!w.moveIn.LeftCopy? ==>
            if w.rollback.Moved? || copied then d'.pkg == Whole(prior)
            else d'.pkg == Absent && d'.bak == Whole(prior))
      && (w.moveIn.LeftCopy? ==>
            if copied then d'.pkg == Whole(prior)
            else if w.rollback.Unseated? then d'.pkg == Absent && d'.bak == Whole(prior)
            else d'.pkg == Whole(w.tree) && d'.bak == Whole(prior))
  {
  }

  // ── Exactly when an attempt can take the tree away ─────────────────────

  const PLAIN_TREE: Tree := FindBin.Dir(true, [FindBin.Entry("b", FindBin.File)])

  /** A manifest entry that pins the hash of the empty download. */
  function PlainSpec(sha: Bytes -> string): ToolSpec {
    ToolSpec("1", "b", Github("a/b", "x", map["x86_64-unknown-linux-gnu" := sha([])]))
  }

  /** A world in which every step works and only the moves are left open. */
  function PlainWorld(setAside: Move, moveIn: Move): World {
    World(Host("linux", "x86_64"), Succeeds, Succeeds, Succeeds, [], None, [], Succeeds, Succeeds, PLAIN_TREE,
          Succeeds, Succeeds, Succeeds, Removed, setAside, moveIn, Removed, Moved, Succeeds, Succeeds)
  }

  lemma PlainSpecIsSafe()
    ensures IsSafeRepo("a/b") && IsSafeUrlComponent("1")
    ensures IsSafeUrlComponent(ExpandAsset("x", "x86_64-unknown-linux-gnu", "1"))
    ensures FindBin.BinPath(PLAIN_TREE, "b") == Some(["b"])
  {
  }

  lemma PlainAttempt(d: ToolDisk, name: string, setAside: Move, moveIn: Move, sha: Bytes -> string)
    requires HexDigest(sha)
    ensures var w := PlainWorld(setAside, moveIn);
      var r := Attempt(d, name, PlainSpec(sha), w, sha);
      && r.disk == Publish(d, name, w, ["b"], [Verifying] + [Extracting]).disk
      && r.ending == Publish(d, name, w, ["b"], [Verifying] + [Extracting]).ending
  {
    hide Publish, IsSafeRepo, IsSafeUrlComponent, ExpandAsset, FindBin.BinPath, Recorded;
    var w, spec, t, actual := PlainWorld(setAside, moveIn), PlainSpec(sha), "x86_64-unknown-linux-gnu", sha([]);
    PlainSpecIsSafe();
    assert |actual| == 64;
    assert HasPin(spec.install, t);
    assert Downloads(w.chunks, w.total) + [Verifying] == [Verifying];
    assert Attempt(d, name, spec, w, sha) == Fetch(d, name, spec, t, Pinned(actual), w, sha);
    assert Fetch(d, name, spec, t, Pinned(actual), w, sha) == Unpack(d, name, spec, t, false, actual, w, [Verifying]);
  }

  /** An attempt that starts with a half removed package directory can drop the backup and then fail. */
  lemma TornStartCanLoseTree(d: ToolDisk, name: string, sha: Bytes -> string)
    requires d.pkg.Torn? && HexDigest(sha)
    ensures !HasTree(Attempt(d, name, PlainSpec(sha), PlainWorld(Moved, Refused), sha).disk)
  {
    hide Attempt;
    PlainAttempt(d, name, Moved, Refused, sha);
  }

  /**
   A complete tree survives the next attempt, whatever the manifest says and whatever the world
   does, exactly when the package directory is not half removed as the attempt begins.
   */
  lemma SurvivesExactlyWhenUntorn(d: ToolDisk, name: string, sha: Bytes -> string)
    requires HasTree(d) && HexDigest(sha)
    ensures (forall spec, w :: HasTree(Attempt(d, name, spec, w, sha).disk)) <==> !d.pkg.Torn?
  {
    hide Attempt;
    if d.pkg.Torn? {
      TornStartCanLoseTree(d, name, sha);
    } else {
      forall spec, w ensures HasTree(Attempt(d, name, spec, w, sha).disk) {
        AttemptSwap(d, name, spec, w, sha);
      }
    }
  }

  // ── Histories ──────────────────────────────────────────────────────────

  /** The tool's disk after the first `k` attempts. */
  ghost function DiskAfter(st: Store, tries: seq<Try>, sha: Bytes -> string, k: nat, name: string): ToolDisk
    requires k <= |tries|
  {
    DiskOf(StoreAfter(st, tries[..k], sha), name)
  }

  /** No attempt on the tool among those from `i` up to `j` begins with a half removed package directory. */
  ghost predicate StartsUntorn(st: Store, tries: seq<Try>, sha: Bytes -> string, i: nat, j: nat, name: string)
    requires i <= j <= |tries|
  {
    forall k :: i <= k < j && tries[k].name == name ==> !DiskAfter(st, tries, sha, k, name).pkg.Torn?
  }

  lemma DiskStep(st: Store, tries: seq<Try>, sha: Bytes -> string, k: nat, name: string)
    requires ValidTries(tries) && k < |tries| && IsValidToolName(name)
    ensures var d, t := DiskAfter(st, tries, sha, k, name), tries[k];
      DiskAfter(st, tries, sha, k + 1, name) == if t.name == name then Attempt(d, name, t.spec, t.world, sha).disk else d
  {
    hide Attempt, StoreAfter, DiskOf, IsValidToolName;
    OneTry(st, tries, sha, k, name);
  }

  /**
   Over any history of attempts on any tools, with any failures, crashes and kinds of move: a
   complete tree stays as long as no attempt on its tool begins with a half removed directory.
   */
  lemma {:induction false} TreeForGood(st: Store, tries: seq<Try>, sha: Bytes -> string, i: nat, j: nat, name: string)
    requires ValidTries(tries) && IsValidToolName(name) && i <= j <= |tries|
    requires HasTree(DiskAfter(st, tries, sha, i, name)) && StartsUntorn(st, tries, sha, i, j, name)
    ensures HasTree(DiskAfter(st, tries, sha, j, name))
    decreases j - i
  {
    hide Attempt, DiskAfter, IsValidToolName, HasTree, ValidTries;
    if i < j {
      TreeForGood(st, tries, sha, i, j - 1, name);
      DiskStep(st, tries, sha, j - 1, name);
      var t := tries[j - 1];
      if t.name == name {
        AttemptSwap(DiskAfter(st, tries, sha, j - 1, name), name, t.spec, t.world, sha);
      }
    }
  }

  /** A tool that was ever installed has a complete tree at every later point, under the same condition. */
  lemma InstalledForGood(st: Store, tries: seq<Try>, sha: Bytes -> string, i: nat, j: nat, name: string)
    requires ValidTries(tries) && i < j <= |tries| && tries[i].name == name
    requires StartsUntorn(st, tries, sha, i + 1, j, name)
    requires RunOf(StoreAfter(st, tries[..i], sha), tries[i], sha).ending.Installed?
    ensures DiskAfter(st, tries, sha, i + 1, name).pkg == Whole(tries[i].world.tree)
    ensures HasTree(DiskAfter(st, tries, sha, j, name))
  {
    hide Attempt, StoreAfter, DiskOf, IsValidToolName;
    var t := tries[i];
    DiskStep(st, tries, sha, i, name);
    SuccessPutsTreeInPlace(DiskAfter(st, tries, sha, i, name), name, t.spec, t.world, sha);
    TreeForGood(st, tries, sha, i + 1, j, name);
  }

  /** The complete tree that was in the tool's package directory last, after the first `k` attempts. */
  ghost function LastInPlace(tries: seq<Try>, sha: Bytes -> string, k: nat, name: string): Option<Tree>
    requires k <= |tries|
  {
    if k == 0 then None
    else LastSeen(DiskAfter(EMPTY_STORE, tries, sha, k, name), LastInPlace(tries, sha, k - 1, name))
  }

  /** From an empty store on, the tree that was in place last is itself complete at every point. */
  lemma {:induction false} LastTreeSurvives(tries: seq<Try>, sha: Bytes -> string, k: nat, name: string)
    requires ValidTries(tries) && IsValidToolName(name) && k <= |tries|
    requires StartsUntorn(EMPTY_STORE, tries, sha, 0, k, name)
    ensures Intact(DiskAfter(EMPTY_STORE, tries, sha, k, name), LastInPlace(tries, sha, k, name))
  {
    hide Attempt, DiskAfter, IsValidToolName, ValidTries, LastSeen, Intact;
    if k == 0 {
      StartsEmpty(tries, sha, name);
    } else {
      LastTreeSurvives(tries, sha, k - 1, name);
      DiskStep(EMPTY_STORE, tries, sha, k - 1, name);
      var d, t := DiskAfter(EMPTY_STORE, tries, sha, k - 1, name), tries[k - 1];
      if t.name == name {
        AttemptSwap(d, name, t.spec, t.world, sha);
      } else {
        SeenAgain(d, LastInPlace(tries, sha, k - 1, name));
      }
    }
  }

  lemma SeenAgain(d: ToolDisk, last: Option<Tree>)
    requires Intact(d, last)
    ensures Intact(d, LastSeen(d, last))
  {
  }

  lemma StartsEmpty(tries: seq<Try>, sha: Bytes -> string, name: string)
    ensures Intact(DiskAfter(EMPTY_STORE, tries, sha, 0, name), None)
    ensures forall last :: LastSeen(DiskAfter(EMPTY_STORE, tries, sha, 0, name), last) == last
  {
    DiskNow(EMPTY_STORE, tries, sha, name);
  }

  // ── When setting aside is a rename ─────────────────────────────────────

  ghost predicate NeverTearing(tries: seq<Try>, i: nat, j: nat, name: string)
    requires i <= j <= |tries|
  {
    forall k :: i <= k < j && tries[k].name == name ==> NeverTears(tries[k].world)
  }

  /** Then the package directory is never half removed, and the tree is there for good. */
  lemma {:induction false} RenamesKeepUntorn(st: Store, tries: seq<Try>, sha: Bytes -> string, i: nat, j: nat, name: string)
    requires ValidTries(tries) && IsValidToolName(name) && i <= j <= |tries|
    requires var d := DiskAfter(st, tries, sha, i, name); HasTree(d) && !d.pkg.Torn?
    requires NeverTearing(tries, i, j, name)
    ensures StartsUntorn(st, tries, sha, i, j, name)
    ensures var d := DiskAfter(st, tries, sha, j, name); HasTree(d) && !d.pkg.Torn?
    decreases j - i
  {
    hide Attempt, DiskAfter, IsValidToolName, HasTree, ValidTries, NeverTears;
    if i < j {
      RenamesKeepUntorn(st, tries, sha, i, j - 1, name);
      DiskStep(st, tries, sha, j - 1, name);
      var t := tries[j - 1];
      if t.name == name {
        AttemptSwap(DiskAfter(st, tries, sha, j - 1, name), name, t.spec, t.world, sha);
      }
    }
  }

  /** A future in which setting this tool's package aside is a rename, but for the last attempt perhaps. */
  ghost predicate Foreseeable(tries: seq<Try>, name: string) {
    ValidTries(tries) && (tries != [] ==> NeverTearing(tries, 0, |tries| - 1, name))
  }

  /**
   A complete tree survives every such future exactly when the package directory is not half
   removed now: one look at the disk decides.
   */
  lemma EveryFutureKeepsTree(st: Store, name: string, sha: Bytes -> string)
    requires IsValidToolName(name) && HexDigest(sha) && HasTree(DiskOf(st, name))
    ensures (forall tries :: Foreseeable(tries, name) ==> HasTree(DiskAfter(st, tries, sha, |tries|, name)))
      <==> !DiskOf(st, name).pkg.Torn?
  {
    hide Attempt, StoreAfter, IsValidToolName, HasTree, DiskOf, HexDigest, NeverTears;
    if DiskOf(st, name).pkg.Torn? {
      var t := Try(name, PlainSpec(sha), PlainWorld(Moved, Refused));
      var tries := [t];
      assert Foreseeable(tries, name);
      DiskNow(st, tries, sha, name);
      DiskStep(st, tries, sha, 0, name);
      TornStartCanLoseTree(DiskOf(st, name), name, sha);
    } else {
      forall tries | Foreseeable(tries, name) ensures HasTree(DiskAfter(st, tries, sha, |tries|, name)) {
        ForeseeableKeepsTree(st, tries, name, sha);
      }
    }
  }

  lemma ForeseeableKeepsTree(st: Store, tries: seq<Try>, name: string, sha: Bytes -> string)
    requires IsValidToolName(name) && HasTree(DiskOf(st, name)) && !DiskOf(st, name).pkg.Torn?
    requires Foreseeable(tries, name)
    ensures HasTree(DiskAfter(st, tries, sha, |tries|, name))
  {
    hide Attempt, DiskAfter, IsValidToolName, HasTree, DiskOf, NeverTearing, ValidTries;
    DiskNow(st, tries, sha, name);
    if tries != [] {
      var n := |tries| - 1;
      RenamesKeepUntorn(st, tries, sha, 0, n, name);
      DiskStep(st, tries, sha, n, name);
      AttemptSwap(DiskAfter(st, tries, sha, n, name), name, tries[n].spec, tries[n].world, sha);
    }
  }

  lemma DiskNow(st: Store, tries: seq<Try>, sha: Bytes -> string, name: string)
    ensures DiskAfter(st, tries, sha, 0, name) == DiskOf(st, name)
  {
    assert tries[..0] == [];
  }

  /**
   Without it the tree can be lost: a tool is installed, a second attempt copies the package
   aside and removes only part of the original, a third drops the backup and then fails.
   */
  lemma CopyingTheBackupCanLoseTheTree(name: string, sha: Bytes -> string) returns (tries: seq<Try>)
    requires IsValidToolName(name) && HexDigest(sha)
    ensures |tries| == 3 && ValidTries(tries) && forall i :: 0 <= i < 3 ==> tries[i].name == name
    ensures DiskAfter(EMPTY_STORE, tries, sha, 1, name).pkg == Whole(tries[0].world.tree)
    ensures NeverTears(tries[0].world) && !NeverTears(tries[1].world) && NeverTears(tries[2].world)
    ensures !HasTree(DiskAfter(EMPTY_STORE, tries, sha, 3, name))
  {
    var spec := PlainSpec(sha);
    tries := [Try(name, spec, PlainWorld(Moved, Moved)),
              Try(name, spec, PlainWorld(LeftCopy(true), Moved)),
              Try(name, spec, PlainWorld(Moved, Refused))];
    LossStepByStep(name, tries, sha);
  }

  lemma LossStepByStep(name: string, tries: seq<Try>, sha: Bytes -> string)
    requires IsValidToolName(name) && HexDigest(sha) && |tries| == 3
    requires tries[0] == Try(name, PlainSpec(sha), PlainWorld(Moved, Moved))
    requires tries[1] == Try(name, PlainSpec(sha), PlainWorld(LeftCopy(true), Moved))
    requires tries[2] == Try(name, PlainSpec(sha), PlainWorld(Moved, Refused))
    ensures DiskAfter(EMPTY_STORE, tries, sha, 1, name).pkg == Whole(PLAIN_TREE)
    ensures !HasTree(DiskAfter(EMPTY_STORE, tries, sha, 3, name))
  {
    hide Attempt, IsValidToolName, DiskAfter, HexDigest, PlainSpec;
    DiskNow(EMPTY_STORE, tries, sha, name);
    var d0, d1, d2 := EMPTY_DISK, DiskAfter(EMPTY_STORE, tries, sha, 1, name), DiskAfter(EMPTY_STORE, tries, sha, 2, name);
    DiskStep(EMPTY_STORE, tries, sha, 0, name);
    PlainAttempt(d0, name, Moved, Moved, sha);
    DiskStep(EMPTY_STORE, tries, sha, 1, name);
    PlainAttempt(d1, name, LeftCopy(true), Moved, sha);
    DiskStep(EMPTY_STORE, tries, sha, 2, name);
    TornStartCanLoseTree(d2, name, sha);
  }
}

/**
 Trust over whole histories of install attempts on one store: a hash trusted on first use is
 never replaced.
 */
module InstallHistory {
  import opened Wrappers
  import opened Manifest
  import opened InstallStatus
  import opened UrlPolicy
  import opened Sidecar
  import opened SidecarFile
  import opened GithubInstall
  import opened ByteStrings
  import FindBin

  // ── What an attempt may do to the disk, by stage ───────────────────────

  /** The attempt got past unpacking and found the binary. */
  ghost predicate FoundBinary(spec: ToolSpec, w: World) {
    w.unpack == Succeeds && FindBin.BinPath(w.tree, spec.bin).Some?
  }

  /** The sidecar after recording this hash for this version and triple. */
  ghost function WithHash(sidecar: Option<string>, version: string, triple: string, hash: string): Option<string> {
    var had: Checksums := match sidecar case Some(text) => FromToml(text) case None => map[];
    Some(ToToml(Insert(had, version, triple, hash)))
  }

  lemma PublishKeepsSidecar(d: ToolDisk, name: string, w: World, rel: FindBin.Path, said: seq<Status>)
    ensures Publish(d, name, w, rel, said).disk.sidecar == d.sidecar
  {
  }

  /**
   The trust decision of an attempt. The sidecar changes only in an unpinned attempt that found
   nothing recorded, after the binary was found, and then by exactly one entry; a package that was
   touched, and so every success, means the download's hash is the pinned one, or the one on
   record by then.
   */
  predicate Touched(d: ToolDisk, r: Run) {
    r.ending.Installed? || r.disk.pkg != d.pkg || r.disk.bak != d.bak
  }

  ghost predicate TrustStep(d: ToolDisk, spec: ToolSpec, w: World, actual: string, r: Run) {
    var triple := HostTriple(w.host);
    && (r.disk.sidecar != d.sidecar ==>
          && spec.install.Github? && triple.Some? && !HasPin(spec.install, triple.value)
          && FoundBinary(spec, w)
          && Recorded(d.sidecar, spec.version, triple.value) == None
          && r.disk.sidecar == WithHash(d.sidecar, spec.version, triple.value, actual))
    && (Touched(d, r) ==>
          && spec.install.Github? && triple.Some? && FoundBinary(spec, w)
          && (HasPin(spec.install, triple.value) ==> actual == spec.install.sha256[triple.value])
          && (!HasPin(spec.install, triple.value) ==>
                || Recorded(d.sidecar, spec.version, triple.value) == Some(actual)
                || (Recorded(d.sidecar, spec.version, triple.value) == None &&
                    r.disk.sidecar == WithHash(d.sidecar, spec.version, triple.value, actual))))
  }

  lemma UnpackTrust(d: ToolDisk, name: string, spec: ToolSpec, triple: string, tofu: bool, hash: string,
                    w: World, said: seq<Status>)
    ensures var r := Unpack(d, name, spec, triple, tofu, hash, w, said);
            && (r.disk.sidecar != d.sidecar ==>
                  tofu && FoundBinary(spec, w) && r.disk.sidecar == WithHash(d.sidecar, spec.version, triple, hash))
            && (Touched(d, r) ==> FoundBinary(spec, w))
            && (Touched(d, r) && tofu ==> r.disk.sidecar == WithHash(d.sidecar, spec.version, triple, hash))
  {
    hide Publish, FindBin.BinPath, ToToml, FromToml, Insert;
    var rel := FindBin.BinPath(w.tree, spec.bin);
    if rel.Some? {
      PublishKeepsSidecar(d, name, w, rel.value, said + [Extracting]);
      var d1 := Record(d, spec.version, triple, hash, w).0;
      PublishKeepsSidecar(d1, name, w, rel.value, said + [Extracting] + [TofuRecorded(triple, hash)]);
    }
  }

  lemma AttemptTrust(d: ToolDisk, name: string, spec: ToolSpec, w: World, sha: Bytes -> string)
    ensures TrustStep(d, spec, w, sha(w.bytes), Attempt(d, name, spec, w, sha))
  {
    hide Unpack, FoundBinary, WithHash, Recorded, IsSafeRepo, IsSafeUrlComponent, ExpandAsset;
    var triple := HostTriple(w.host);
    var said := Downloads(w.chunks, w.total) + [Verifying];
    if triple.Some? {
      UnpackTrust(d, name, spec, triple.value, true, sha(w.bytes), w, said);
      UnpackTrust(d, name, spec, triple.value, false, sha(w.bytes), w, said);
    }
  }

  // ── Trust on first use ─────────────────────────────────────────────────

  /** SHA-256 in hexadecimal: never the empty string. */
  ghost predicate HexDigest(sha: Bytes -> string) {
    forall b :: |sha(b)| == 64
  }

  lemma HostTriplesArePlain(h: Host)
    ensures HostTriple(h).Some? ==> PlainTriple(HostTriple(h).value)
  {
    hide PlainTriple;
    KnownTriplesArePlain();
  }

  lemma KnownTriplesArePlain()
    ensures PlainTriple("x86_64-unknown-linux-gnu") && PlainTriple("aarch64-unknown-linux-gnu")
    ensures PlainTriple("x86_64-apple-darwin") && PlainTriple("aarch64-apple-darwin")
    ensures PlainTriple("x86_64-pc-windows-msvc")
  {
    NoEqualsIn("x86_64-unknown-linux-gnu");
    NoEqualsIn("aarch64-unknown-linux-gnu");
    NoEqualsIn("x86_64-apple-darwin");
    NoEqualsIn("aarch64-apple-darwin");
    NoEqualsIn("x86_64-pc-windows-msvc");
  }

  lemma NoEqualsIn(s: string)
    requires forall i :: 0 <= i < |s| ==> s[i] != '='
    ensures '=' !in s
  {
  }

  /** Through the text, recording one hash adds that hash and keeps every other lookup. */
  lemma WithHashLookup(sidecar: Option<string>, version: string, triple: string, hash: string, v: string, t: string)
    requires hash != "" && PlainTriple(t)
    ensures Recorded(WithHash(sidecar, version, triple, hash), v, t) ==
            if v == version && t == triple then Some(hash) else Recorded(sidecar, v, t)
  {
    hide ToToml, FromToml, PlainTriple, Tidy;
    var had: Checksums := match sidecar case Some(text) => FromToml(text) case None => map[];
    LookupSurvives(Insert(had, version, triple, hash), v, t);
    if sidecar.Some? {
      LoadedHashesAreNonEmpty(sidecar.value, v, t);
    }
  }

  lemma LoadedHashesAreNonEmpty(text: string, v: string, t: string)
    ensures Lookup(FromToml(text), v, t) != Some("")
  {
    hide ParseLines;
    ParsedIsTidy(ParseState(map[], None), Text.Lines(text));
  }

  /** Whatever one attempt does, a recorded hash stays the recorded hash. */
  lemma AttemptKeepsHash(d: ToolDisk, name: string, spec: ToolSpec, w: World, sha: Bytes -> string, v: string, t: string)
    requires HexDigest(sha) && PlainTriple(t) && Recorded(d.sidecar, v, t).Some?
    ensures Recorded(Attempt(d, name, spec, w, sha).disk.sidecar, v, t) == Recorded(d.sidecar, v, t)
  {
    hide Attempt, Recorded, WithHash, PlainTriple, FoundBinary;
    AttemptTrust(d, name, spec, w, sha);
    assert sha(w.bytes) != "";
    if Attempt(d, name, spec, w, sha).disk.sidecar != d.sidecar {
      WithHashLookup(d.sidecar, spec.version, HostTriple(w.host).value, sha(w.bytes), v, t);
    }
  }

  /** A hash that appears for the first time is that of a download that proved to be a package. */
  lemma NewHashIsEarned(d: ToolDisk, name: string, spec: ToolSpec, w: World, sha: Bytes -> string, v: string, t: string)
    requires HexDigest(sha) && PlainTriple(t) && Recorded(d.sidecar, v, t) == None
    requires Recorded(Attempt(d, name, spec, w, sha).disk.sidecar, v, t).Some?
    ensures v == spec.version && HostTriple(w.host) == Some(t) && !HasPin(spec.install, t)
    ensures FoundBinary(spec, w)
    ensures Recorded(Attempt(d, name, spec, w, sha).disk.sidecar, v, t) == Some(sha(w.bytes))
  {
    hide Attempt, Recorded, WithHash, PlainTriple, FoundBinary;
    AttemptTrust(d, name, spec, w, sha);
    assert sha(w.bytes) != "";
    if Attempt(d, name, spec, w, sha).disk.sidecar != d.sidecar {
      WithHashLookup(d.sidecar, spec.version, HostTriple(w.host).value, sha(w.bytes), v, t);
    }
  }

  /** An unpinned success leaves exactly the hash of what it installed on record. */
  lemma UnpinnedSuccessIsRecorded(d: ToolDisk, name: string, spec: ToolSpec, w: World, sha: Bytes -> string)
    requires HexDigest(sha) && Attempt(d, name, spec, w, sha).ending.Installed?
    ensures spec.install.Github? && HostTriple(w.host).Some?
    ensures !HasPin(spec.install, HostTriple(w.host).value) ==>
      Recorded(Attempt(d, name, spec, w, sha).disk.sidecar, spec.version, HostTriple(w.host).value) == Some(sha(w.bytes))
  {
    hide Attempt, Recorded, WithHash, FoundBinary;
    AttemptTrust(d, name, spec, w, sha);
    HostTriplesArePlain(w.host);
    var t := HostTriple(w.host).value;
    assert sha(w.bytes) != "";
    if !HasPin(spec.install, t) {
      WithHashLookup(d.sidecar, spec.version, t, sha(w.bytes), spec.version, t);
      if Recorded(d.sidecar, spec.version, t).Some? {
        AttemptKeepsHash(d, name, spec, w, sha, spec.version, t);
      }
    }
  }

  /**
   Trust comes first: whatever fails or stops the machine, the package and its backup are touched
   only for a download that has the pinned hash, or the hash that is on record when the attempt
   ends.
   */
  lemma TrustComesFirst(d: ToolDisk, name: string, spec: ToolSpec, w: World, sha: Bytes -> string)
    requires HexDigest(sha) && Touched(d, Attempt(d, name, spec, w, sha))
    ensures spec.install.Github? && HostTriple(w.host).Some? && FoundBinary(spec, w)
    ensures var r, t := Attempt(d, name, spec, w, sha), HostTriple(w.host).value;
      if HasPin(spec.install, t) then sha(w.bytes) == spec.install.sha256[t]
      else Recorded(r.disk.sidecar, spec.version, t) == Some(sha(w.bytes))
  {
    hide Attempt, Recorded, WithHash, FoundBinary;
    AttemptTrust(d, name, spec, w, sha);
    HostTriplesArePlain(w.host);
    var t := HostTriple(w.host).value;
    assert sha(w.bytes) != "";
    if !HasPin(spec.install, t) {
      WithHashLookup(d.sidecar, spec.version, t, sha(w.bytes), spec.version, t);
      if Recorded(d.sidecar, spec.version, t).Some? {
        AttemptKeepsHash(d, name, spec, w, sha, spec.version, t);
      }
    }
  }

  /**
   A download whose hash is not the expected one changes nothing: sidecar, package and backup are
   what they were, and nothing of the archive was unpacked.
   */
  lemma WrongHashChangesNothing(d: ToolDisk, name: string, spec: ToolSpec, w: World, sha: Bytes -> string)
    requires spec.install.Github? && HostTriple(w.host).Some?
    requires var t := HostTriple(w.host).value;
      if HasPin(spec.install, t) then sha(w.bytes) != spec.install.sha256[t]
      else Recorded(d.sidecar, spec.version, t).Some? && sha(w.bytes) != Recorded(d.sidecar, spec.version, t).value
    ensures var r := Attempt(d, name, spec, w, sha);
            r.disk == d && !r.ending.Installed? && Extracting !in r.reported
  {
    hide Recorded, Unpack, IsSafeRepo, IsSafeUrlComponent, ExpandAsset;
  }

  /** After an unpinned success, the same tool and version accept that download again and no other. */
  lemma OnlyTheFirstDownload(d: ToolDisk, name: string, spec: ToolSpec, w1: World, w2: World, sha: Bytes -> string)
    requires HexDigest(sha) && w1.host == w2.host && HostTriple(w1.host).Some?
    requires spec.install.Github? && !HasPin(spec.install, HostTriple(w1.host).value)
    requires Attempt(d, name, spec, w1, sha).ending.Installed?
    ensures var d1 := Attempt(d, name, spec, w1, sha).disk;
            && (sha(w2.bytes) != sha(w1.bytes) ==> Attempt(d1, name, spec, w2, sha).disk == d1)
            && (HashIsAccepted(d1, spec, HostTriple(w1.host).value, w2, sha(w2.bytes)) <==>
                  w2.readSidecar == Succeeds && sha(w2.bytes) == sha(w1.bytes))
  {
    hide Attempt, Recorded, HexDigest;
    var d1 := Attempt(d, name, spec, w1, sha).disk;
    UnpinnedSuccessIsRecorded(d, name, spec, w1, sha);
    if sha(w2.bytes) != sha(w1.bytes) {
      WrongHashChangesNothing(d1, name, spec, w2, sha);
    }
  }

  lemma PublishDropsBackup(d: ToolDisk, name: string, w: World, rel: FindBin.Path, said: seq<Status>)
    requires Publish(d, name, w, rel, said).ending.Installed? && w.dropBak == Removed
    ensures Publish(d, name, w, rel, said).disk.bak == Absent
  {
  }

  lemma InstallDropsBackup(d: ToolDisk, name: string, spec: ToolSpec, w: World, sha: Bytes -> string)
    requires Attempt(d, name, spec, w, sha).ending.Installed? && w.dropBak == Removed
    ensures Attempt(d, name, spec, w, sha).disk.bak == Absent
  {
    hide Publish, Recorded, FindBin.BinPath, IsSafeRepo, IsSafeUrlComponent, ExpandAsset, ToToml, FromToml, Insert;
    var triple, rel := HostTriple(w.host), FindBin.BinPath(w.tree, spec.bin);
    if triple.Some? && rel.Some? {
      var said := Downloads(w.chunks, w.total) + [Verifying] + [Extracting];
      var d1 := Record(d, spec.version, triple.value, sha(w.bytes), w).0;
      var said1 := said + [TofuRecorded(triple.value, sha(w.bytes))];
      if Publish(d, name, w, rel.value, said).ending.Installed? {
        PublishDropsBackup(d, name, w, rel.value, said);
      }
      if Publish(d1, name, w, rel.value, said1).ending.Installed? {
        PublishDropsBackup(d1, name, w, rel.value, said1);
      }
    }
  }

  /** What was installed once can be installed again: the recorded hash and the package in place are no obstacle. */
  lemma ReinstallSucceeds(d: ToolDisk, name: string, spec: ToolSpec, w: World, sha: Bytes -> string)
    requires HexDigest(sha) && Attempt(d, name, spec, w, sha).ending.Installed?
    requires w.readSidecar == Succeeds && (w.setAside.Moved? || w.setAside.Copied?) && !RemovalCrashed(w.clearBak)
    requires w.dropBak == Removed
    ensures Attempt(Attempt(d, name, spec, w, sha).disk, name, spec, w, sha).ending.Installed?
  {
    hide Attempt, Recorded, HexDigest, FindBin.BinPath, IsSafeRepo, IsSafeUrlComponent, ExpandAsset;
    var d1 := Attempt(d, name, spec, w, sha).disk;
    InstallsExactlyWhen(d, name, spec, w, sha);
    UnpinnedSuccessIsRecorded(d, name, spec, w, sha);
    InstallDropsBackup(d, name, spec, w, sha);
    InstallsExactlyWhen(d1, name, spec, w, sha);
  }

  /** A pinned attempt installs the pinned hash or nothing, whatever the sidecar says, and leaves it alone. */
  lemma PinnedIgnoresSidecar(d: ToolDisk, other: Option<string>, name: string, spec: ToolSpec, w: World, sha: Bytes -> string)
    requires spec.install.Github? && HostTriple(w.host).Some? && HasPin(spec.install, HostTriple(w.host).value)
    ensures var r := Attempt(d, name, spec, w, sha);
            && r.disk.sidecar == d.sidecar
            && Attempt(d.(sidecar := other), name, spec, w, sha) == r.(disk := r.disk.(sidecar := other))
            && (r.ending.Installed? ==> sha(w.bytes) == spec.install.sha256[HostTriple(w.host).value])
  {
    AttemptTrust(d, name, spec, w, sha);
    hide Publish, Recorded, IsSafeRepo, IsSafeUrlComponent, ExpandAsset, FindBin.BinPath, Record, TrustStep;
    var said := Downloads(w.chunks, w.total) + [Verifying] + [Extracting];
    var rel := FindBin.BinPath(w.tree, spec.bin);
    if rel.Some? {
      PublishKeepsSidecar(d, name, w, rel.value, said);
      PublishIgnoresSidecar(d, other, name, w, rel.value, said);
    }
  }

  lemma PublishIgnoresSidecar(d: ToolDisk, other: Option<string>, name: string, w: World, rel: FindBin.Path, said: seq<Status>)
    ensures var r := Publish(d, name, w, rel, said);
            Publish(d.(sidecar := other), name, w, rel, said) == r.(disk := r.disk.(sidecar := other))
  {
  }

  // ── The whole store ────────────────────────────────────────────────────

  /** Sidecar texts by tool, and the directories under `packages/` by name. */
  datatype Store = Store(sidecars: map<string, string>, packages: map<string, Slot>)

  const EMPTY_STORE: Store := Store(map[], map[])

  /** `package_backup_path`: the sibling with `.bak` appended to the whole name. */
  function BackupName(name: string): string {
    name + ".bak"
  }

  /** Backup names are distinct, and none is the package directory of another valid tool. */
  lemma BackupsDoNotCollide(m: string, n: string)
    ensures BackupName(m) == BackupName(n) ==> m == n
    ensures IsValidToolName(m) ==> BackupName(n) != m
  {
    assert BackupName(m)[..|m|] == m && BackupName(n)[..|n|] == n;
    assert BackupName(n)[|n|] == '.';
    assert BackupName(n)[|n|] in BackupName(n);
  }

  function SlotOf(packages: map<string, Slot>, dir: string): Slot {
    if dir in packages then packages[dir] else Absent
  }

  function DiskOf(st: Store, name: string): ToolDisk {
    ToolDisk(if name in st.sidecars then Some(st.sidecars[name]) else None,
             SlotOf(st.packages, name), SlotOf(st.packages, BackupName(name)))
  }

  function PutDisk(st: Store, name: string, d: ToolDisk): Store {
    Store(match d.sidecar case Some(text) => st.sidecars[name := text] case None => st.sidecars - {name},
          st.packages[BackupName(name) := d.bak][name := d.pkg])
  }

  /** A disk put for one valid tool is read back for it, and no other valid tool notices. */
  lemma PutIsLocal(st: Store, name: string, d: ToolDisk, other: string)
    requires IsValidToolName(name) && IsValidToolName(other)
    ensures DiskOf(PutDisk(st, name, d), other) == if other == name then d else DiskOf(st, other)
  {
    BackupsDoNotCollide(name, other);
    BackupsDoNotCollide(other, name);
    BackupsDoNotCollide(name, name);
  }

  /** One attempt: which tool, what the manifest says, what the world does. */
  datatype Try = Try(name: string, spec: ToolSpec, world: World)

  ghost function RunOf(st: Store, t: Try, sha: Bytes -> string): Run {
    Attempt(DiskOf(st, t.name), t.name, t.spec, t.world, sha)
  }

  /** The store after a sequence of attempts. */
  ghost function StoreAfter(st: Store, tries: seq<Try>, sha: Bytes -> string): Store
    decreases |tries|
  {
    if tries == [] then st else
      var before := StoreAfter(st, tries[..|tries| - 1], sha);
      var t := tries[|tries| - 1];
      PutDisk(before, t.name, RunOf(before, t, sha).disk)
  }

  predicate ValidTries(tries: seq<Try>) {
    forall i :: 0 <= i < |tries| ==> IsValidToolName(tries[i].name)
  }

  function TripleOf(t: Try): Option<string> {
    HostTriple(t.world.host)
  }

  ghost function HashOnRecord(st: Store, name: string, version: string, triple: string): Option<string> {
    Recorded(DiskOf(st, name).sidecar, version, triple)
  }

  lemma OneTry(st: Store, tries: seq<Try>, sha: Bytes -> string, i: nat, name: string)
    requires ValidTries(tries) && i < |tries| && IsValidToolName(name)
    ensures var before, t := StoreAfter(st, tries[..i], sha), tries[i];
            DiskOf(StoreAfter(st, tries[..i + 1], sha), name) ==
            if name == t.name then RunOf(before, t, sha).disk else DiskOf(before, name)
  {
    hide Attempt, DiskOf, PutDisk, IsValidToolName;
    var before, t := StoreAfter(st, tries[..i], sha), tries[i];
    assert tries[..i + 1][..i] == tries[..i];
    assert StoreAfter(st, tries[..i + 1], sha) == PutDisk(before, t.name, RunOf(before, t, sha).disk);
    PutIsLocal(before, t.name, RunOf(before, t, sha).disk, name);
  }

  /** What is on record after the first `k` attempts. */
  ghost function HashAfter(st: Store, tries: seq<Try>, sha: Bytes -> string, k: nat,
                           name: string, v: string, t: string): Option<string>
    requires k <= |tries|
  {
    HashOnRecord(StoreAfter(st, tries[..k], sha), name, v, t)
  }

  lemma OneTryKeepsHash(st: Store, tries: seq<Try>, sha: Bytes -> string, k: nat, name: string, v: string, t: string)
    requires ValidTries(tries) && k < |tries| && HexDigest(sha) && IsValidToolName(name) && PlainTriple(t)
    requires HashAfter(st, tries, sha, k, name, v, t).Some?
    ensures HashAfter(st, tries, sha, k + 1, name, v, t) == HashAfter(st, tries, sha, k, name, v, t)
  {
    hide StoreAfter, Attempt, Recorded, DiskOf, IsValidToolName, PlainTriple, HexDigest;
    OneTry(st, tries, sha, k, name);
    var before, last := StoreAfter(st, tries[..k], sha), tries[k];
    if name == last.name {
      AttemptKeepsHash(DiskOf(before, name), name, last.spec, last.world, sha, v, t);
    }
  }

  /** Over any history, a hash once on record is never changed and never removed. */
  lemma {:induction false} HashNeverChanges(st: Store, tries: seq<Try>, sha: Bytes -> string,
                                            i: nat, j: nat, name: string, v: string, t: string)
    requires ValidTries(tries) && i <= j <= |tries| && HexDigest(sha) && IsValidToolName(name) && PlainTriple(t)
    requires HashAfter(st, tries, sha, i, name, v, t).Some?
    ensures HashAfter(st, tries, sha, j, name, v, t) == HashAfter(st, tries, sha, i, name, v, t)
    decreases j - i
  {
    hide HashAfter, IsValidToolName, PlainTriple, HexDigest, ValidTries;
    if i < j {
      HashNeverChanges(st, tries, sha, i, j - 1, name, v, t);
      OneTryKeepsHash(st, tries, sha, j - 1, name, v, t);
    }
  }

  /** An attempt that installed something the manifest does not pin. */
  ghost predicate UnpinnedSuccess(st: Store, t: Try, sha: Bytes -> string) {
    && RunOf(st, t, sha).ending.Installed?
    && TripleOf(t).Some? && !HasPin(t.spec.install, TripleOf(t).value)
  }

  /**
   Trust on first use, over any history of attempts on any tools with any failures and crashes
   between them: every unpinned success for the same tool, version and platform installed a
   download with the same hash.
   */
  lemma UnpinnedSuccessesAgree(st: Store, tries: seq<Try>, sha: Bytes -> string, i: nat, j: nat)
    requires ValidTries(tries) && i < j < |tries| && HexDigest(sha)
    requires UnpinnedSuccess(StoreAfter(st, tries[..i], sha), tries[i], sha)
    requires UnpinnedSuccess(StoreAfter(st, tries[..j], sha), tries[j], sha)
    requires tries[i].name == tries[j].name && tries[i].spec.version == tries[j].spec.version
    requires TripleOf(tries[i]) == TripleOf(tries[j])
    ensures sha(tries[i].world.bytes) == sha(tries[j].world.bytes)
  {
    hide StoreAfter, Attempt, Recorded, DiskOf, IsValidToolName, PlainTriple, HexDigest;
    var a, b := tries[i], tries[j];
    var v, t := a.spec.version, TripleOf(a).value;
    var beforeA, beforeB := StoreAfter(st, tries[..i], sha), StoreAfter(st, tries[..j], sha);
    HostTriplesArePlain(a.world.host);
    UnpinnedSuccessIsRecorded(DiskOf(beforeA, a.name), a.name, a.spec, a.world, sha);
    OneTry(st, tries, sha, i, a.name);
    HashNeverChanges(st, tries, sha, i + 1, j, a.name, v, t);
    UnpinnedSuccessIsRecorded(DiskOf(beforeB, b.name), b.name, b.spec, b.world, sha);
    AttemptKeepsHash(DiskOf(beforeB, b.name), b.name, b.spec, b.world, sha, v, t);
  }
}

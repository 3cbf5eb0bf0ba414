/** One tool's files as the installer holds them under its lock, changed in place step by step. */
module ToolStore {
  import opened Wrappers
  import opened Manifest
  import opened InstallStatus
  import opened UrlPolicy
  import opened GithubInstall
  import opened ByteStrings
  import SidecarStore
  import FindBin

  class ToolStore {
    var sidecar: Option<string>
    var pkg: Slot
    var bak: Slot

    constructor ()
      ensures Disk() == EMPTY_DISK
    {
      sidecar, pkg, bak := None, Absent, Absent;
    }

    function Disk(): ToolDisk
      reads this
    {
      ToolDisk(sidecar, pkg, bak)
    }

    /** `resolve_expected_sha`; the answer is missing when the sidecar cannot be read. */
    method ResolveExpected(m: InstallMethod, version: string, triple: string, read: Outcome)
      returns (expected: Option<ExpectedSha>)
      requires m.Github?
      ensures expected == Resolve(Disk(), m, version, triple, read)
    {
      if triple in m.sha256 && m.sha256[triple] != "" {
        return Some(Pinned(m.sha256[triple]));
      }
      if read != Succeeds {
        return None;
      }
      var cached := None;
      if sidecar.Some? {
        var parsed := new SidecarStore.ChecksumSidecar();
        parsed.Load(sidecar.value);
        cached := parsed.Get(version, triple);
      }
      expected := Some(if cached.Some? then Cached(cached.value) else Tofu);
    }

    /** Step 6b: read the sidecar again, add the hash, replace the file. */
    method RecordHash(version: string, triple: string, hash: string, w: World) returns (o: Outcome)
      modifies `sidecar
      ensures var (d, o') := Record(old(Disk()), version, triple, hash, w); Disk() == d && o == o'
    {
      if w.rereadSidecar != Succeeds {
        return w.rereadSidecar;
      }
      var parsed := new SidecarStore.ChecksumSidecar();
      if sidecar.Some? {
        parsed.Load(sidecar.value);
      }
      parsed.Set(version, triple, hash);
      var text := parsed.ToToml();
      if w.writeSidecar != Succeeds {
        return w.writeSidecar;
      }
      sidecar := Some(text);
      o := Succeeds;
    }

    /** Step 8: set the old package aside, move the new tree in, roll back when that fails. */
    method SwapIn(w: World) returns (o: Outcome)
      modifies `pkg, `bak
      ensures var (d1, o1) := SetAside(old(Disk()), w);
              if o1 != Succeeds then Disk() == d1 && o == o1
              else var (d2, o2) := MoveIn(d1, w); Disk() == d2 && o == o2
    {
      if !pkg.Absent? {
        bak := Remove(bak, w.clearBak);
        if RemovalCrashed(w.clearBak) {
          return Crashes;
        }
        pkg, bak, o := MoveSlot(pkg, bak, w.setAside).0, MoveSlot(pkg, bak, w.setAside).1, MoveSlot(pkg, bak, w.setAside).2;
        if o != Succeeds {
          return;
        }
      }
      pkg, o := MoveSlot(Whole(w.tree), pkg, w.moveIn).1, MoveSlot(Whole(w.tree), pkg, w.moveIn).2;
      if o == Succeeds {
        bak := Remove(bak, w.dropBak);
        if RemovalCrashed(w.dropBak) {
          o := Crashes;
        }
      } else if o == Fails && !bak.Absent? {
        var back := MoveSlot(bak, pkg, w.rollback);
        bak, pkg := back.0, back.1;
        if back.2 == Crashes {
          o := Crashes;
        }
      }
    }

    /** `install_github_locked`: the whole attempt, with an early return at every failing step. */
    method InstallLocked(name: string, spec: ToolSpec, w: World, sha: Bytes -> string)
      returns (reported: seq<Status>, ending: Ending)
      modifies this
      ensures Run(Disk(), reported, ending) == Attempt(old(Disk()), name, spec, w, sha)
    {
      reported := [];
      if !spec.install.Github? {
        return reported, Failing(UnsupportedMethod);
      }
      var triple := HostTriple(w.host);
      if triple == None {
        return reported, Failing(UnsupportedTriple(w.host.os + "/" + w.host.arch));
      }
      var expected := ResolveExpected(spec.install, spec.version, triple.value, w.readSidecar);
      if expected == None {
        return reported, Stopped(w.readSidecar, Io);
      }
      var asset := ExpandAsset(spec.install.assetPattern, triple.value, spec.version);
      if !IsSafeRepo(spec.install.repo) {
        return reported, Failing(UnsafeUrlComponent(spec.install.repo));
      }
      if !IsSafeUrlComponent(spec.version) {
        return reported, Failing(UnsafeUrlComponent(spec.version));
      }
      if !IsSafeUrlComponent(asset) {
        return reported, Failing(UnsafeUrlComponent(asset));
      }
      reported, ending := FetchAndUnpack(name, spec, triple.value, expected.value, w, sha);
    }

    /** Steps 3 to 6b: nothing on disk changes before the archive has proved to be a package. */
    method FetchAndUnpack(name: string, spec: ToolSpec, triple: string, expected: ExpectedSha, w: World, sha: Bytes -> string)
      returns (reported: seq<Status>, ending: Ending)
      modifies this
      ensures Run(Disk(), reported, ending) == Fetch(old(Disk()), name, spec, triple, expected, w, sha)
    {
      hide FindBin.BinPath, Record, Publish;
      reported := [];
      if w.stage != Succeeds {
        return reported, Stopped(w.stage, Io);
      }
      reported := Downloads(w.chunks, w.total);
      if w.download != Succeeds {
        return reported, Stopped(w.download, Io);
      }
      reported := reported + [Verifying];
      if w.hashFile != Succeeds {
        return reported, Stopped(w.hashFile, Io);
      }
      var actual := sha(w.bytes);
      if !expected.Tofu? && actual != expected.hash {
        return reported, Failing(ChecksumMismatch(expected.hash, actual));
      }
      reported := reported + [Extracting];
      if w.unpack != Succeeds {
        return reported, Stopped(w.unpack, Io);
      }
      var rel := FindBin.FindBinary(w.tree, spec.bin);
      if rel == None {
        return reported, Failing(BinNotFound(spec.bin));
      }
      if expected.Tofu? {
        var o := RecordHash(spec.version, triple, actual, w);
        if o != Succeeds {
          return reported, Stopped(o, Io);
        }
        reported := reported + [TofuRecorded(triple, actual)];
      }
      reported, ending := PublishTree(name, w, rel.value, reported);
    }

    /** Steps 7 to 12. */
    method PublishTree(name: string, w: World, rel: FindBin.Path, said: seq<Status>)
      returns (reported: seq<Status>, ending: Ending)
      modifies this
      ensures Run(Disk(), reported, ending) == Publish(old(Disk()), name, w, rel, said)
    {
      hide SetAside, MoveIn;
      reported := said;
      if w.chmod != Succeeds {
        return reported, Stopped(w.chmod, Io);
      }
      reported := reported + [Installing];
      var o := SwapIn(w);
      if o != Succeeds {
        return reported, Stopped(o, Io);
      }
      if w.publish != Succeeds {
        return reported, Stopped(w.publish, Io);
      }
      if w.writeRev != Succeeds {
        return reported, Stopped(w.writeRev, Io);
      }
      var binPath := BinAbs(name, rel);
      reported := reported + [Done(binPath)];
      ending := Installed(binPath);
    }
  }
}

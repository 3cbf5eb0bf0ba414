/**
 Unpacking an archive under one byte budget: the path check, the capped copy and the loop over
 the entries. What the archive decoder and the disk answer is part of the input.
 */
module Extract {
  import opened Wrappers
  import opened ByteStrings
  import opened Numbers
  import opened Text

  const U64_MAX: nat := 0xFFFF_FFFF_FFFF_FFFF
  const MAX_EXTRACT_BYTES: nat := 2 * 1024 * 1024 * 1024

  // ── Paths ──────────────────────────────────────────────────────────────

  datatype Component = Normal(name: string) | CurDir | ParentDir | RootDir

  /** An absolute location on disk, as component names. */
  type Path = seq<string>

  /** One segment after the first: empty ones and `.` vanish. */
  function SegmentComponents(seg: string): seq<Component> {
    if seg == "" || seg == "." then [] else if seg == ".." then [ParentDir] else [Normal(seg)]
  }

  function LaterComponents(segs: seq<string>): seq<Component> {
    if segs == [] then [] else SegmentComponents(segs[0]) + LaterComponents(segs[1..])
  }

  /** `Path::components` on a Unix path. */
  function Components(s: string): seq<Component> {
    var segs := Segments(s);
    if s == [] then []
    else if s[0] == '/' then [RootDir] + LaterComponents(segs)
    else if segs[0] == "." then [CurDir] + LaterComponents(segs[1..])
    else LaterComponents(segs)
  }

  /** A name that stays inside its directory. */
  predicate NormalName(n: string) {
    n != "" && n != "." && n != ".." && '/' !in n
  }

  lemma {:induction false} LaterComponentsAreNormal(segs: seq<string>)
    requires forall i :: 0 <= i < |segs| ==> '/' !in segs[i]
    ensures forall c :: c in LaterComponents(segs) && c.Normal? ==> NormalName(c.name)
  {
    if segs != [] { LaterComponentsAreNormal(segs[1..]); }
  }

  lemma ComponentsAreNormal(s: string)
    ensures forall c :: c in Components(s) && c.Normal? ==> NormalName(c.name)
  {
    SegmentsHoldNoSlash(s);
    LaterComponentsAreNormal(Segments(s));
    LaterComponentsAreNormal(Segments(s)[1..]);
  }

  predicate Escapes(comps: seq<Component>) {
    exists c :: c in comps && (c.ParentDir? || c.RootDir?)
  }

  function Names(comps: seq<Component>): seq<string> {
    if comps == [] then []
    else Names(comps[..|comps| - 1]) + (if comps[|comps| - 1].Normal? then [comps[|comps| - 1].name] else [])
  }

  /** `safe_join`: push normal components one by one, refuse anything that could leave `root`. */
  method SafeJoin(root: Path, comps: seq<Component>) returns (out: Option<Path>)
    ensures out == if Escapes(comps) then None else Some(root + Names(comps))
  {
    var path := root;
    for i := 0 to |comps|
      invariant path == root + Names(comps[..i])
      invariant forall c :: c in comps[..i] ==> c.Normal? || c.CurDir?
    {
      assert comps[..i + 1][..i] == comps[..i];
      match comps[i]
      case Normal(name) => path := path + [name];
      case CurDir =>
      case _ =>
        assert comps[i] in comps;
        return None;
    }
    assert comps[..|comps|] == comps;
    out := Some(path);
  }

  // ── The disk ───────────────────────────────────────────────────────────

  /** Directories, file contents, and how many bytes have been written so far. */
  datatype Disk = Disk(dirs: set<Path>, files: map<Path, Bytes>, written: nat)

  function Prefixes(p: Path): set<Path> {
    set i | 0 <= i <= |p| :: p[..i]
  }

  function Parent(p: Path): Path {
    if p == [] then [] else p[..|p| - 1]
  }

  /** `create_dir_all`, which fails when a file is in the way or when the disk refuses. */
  function CreateDirAll(d: Disk, p: Path, ok: bool): Option<Disk> {
    if ok && Prefixes(p) !! d.files.Keys then Some(d.(dirs := d.dirs + Prefixes(p))) else None
  }

  /**
   `copy_capped` into a fresh file: at most one byte past the budget is written. `fault` is
   where the disk or the decoder gives up, if it does.
   */
  function CopyCapped(d: Disk, out: Path, data: Bytes, budget: nat, fault: Option<nat>): (Disk, Option<nat>) {
    var copied := Min(|data|, Min(budget + 1, U64_MAX));
    if fault.Some? && fault.value <= copied then
      (d.(files := d.files[out := data[..fault.value]], written := d.written + fault.value), None)
    else
      (d.(files := d.files[out := data[..copied]], written := d.written + copied),
       if copied > budget then None else Some(budget - copied))
  }

  // ── Entries ────────────────────────────────────────────────────────────

  datatype Kind = RegularFile | Directory | Special

  /** One archive entry as the decoder yields it, and how the disk will answer for it. */
  datatype Item =
    | Unreadable
    | Item(path: string, kind: Kind, data: Bytes, dirOk: bool, createOk: bool, fault: Option<nat>)

  /** The state after one entry; `None` is the error return. */
  function ExtractItem(d: Disk, root: Path, item: Item, budget: nat): (Disk, Option<nat>) {
    if item.Unreadable? || Escapes(Components(item.path)) then (d, None)
    else
      var out := root + Names(Components(item.path));
      match CreateDirAll(d, Parent(out), item.dirOk)
      case None => (d, None)
      case Some(d1) =>
        match item.kind
        case RegularFile =>
          if item.createOk && out !in d1.dirs then CopyCapped(d1, out, item.data, budget, item.fault) else (d1, None)
        case Directory =>
          (match CreateDirAll(d1, out, item.dirOk) case None => (d1, None) case Some(d2) => (d2, Some(budget)))
        case Special => (d1, Some(budget))
  }

  function ExtractAll(d: Disk, root: Path, items: seq<Item>, budget: nat): (Disk, Option<nat>)
    decreases |items|
  {
    if items == [] then (d, Some(budget)) else
      var (d1, left) := ExtractItem(d, root, items[0], budget);
      match left
      case None => (d1, None)
      case Some(rest) => ExtractAll(d1, root, items[1..], rest)
  }

  // ── Archives ───────────────────────────────────────────────────────────

  /** What was downloaded: many entries, one compressed file, or the binary itself. */
  datatype Archive =
    | Entries(items: seq<Item>)
    | Gzip(data: Bytes, createOk: bool, fault: Option<nat>)
    | Raw(data: Bytes, createOk: bool, fault: Option<nat>)

  /** Where `root.join(path)` leads: an absolute path replaces the root, a parent step goes up. */
  function PathIn(root: Path, comps: seq<Component>): Path {
    if comps == [] then root else
      var before := PathIn(root, comps[..|comps| - 1]);
      match comps[|comps| - 1]
      case Normal(name) => before + [name]
      case CurDir => before
      case ParentDir => if before == [] then [] else before[..|before| - 1]
      case RootDir => []
  }

  /** A file can be created where no directory is, in a directory that exists. */
  predicate CanCreate(d: Disk, out: Path) {
    out != [] && out !in d.dirs && Parent(out) in d.dirs
  }

  /** `fs::copy`: all of the data, or as much as there is before the disk gives up. */
  function CopyWhole(d: Disk, out: Path, data: Bytes, fault: Option<nat>): (Disk, bool) {
    if fault.Some? && fault.value <= |data| then
      (d.(files := d.files[out := data[..fault.value]], written := d.written + fault.value), false)
    else (d.(files := d.files[out := data], written := d.written + |data|), true)
  }

  /** The disk and the budget left after unpacking; `None` is the error return. */
  function Extracted(d: Disk, root: Path, bin: string, archive: Archive, budget: nat): (Disk, Option<nat>) {
    match archive
    case Entries(items) => ExtractAll(d, root, items, budget)
    case Gzip(data, createOk, fault) =>
      var out := PathIn(root, Components(bin));
      if createOk && CanCreate(d, out) then CopyCapped(d, out, data, budget, fault) else (d, None)
    case Raw(data, createOk, fault) =>
      var out := PathIn(root, Components(bin));
      if !createOk || !CanCreate(d, out) then (d, None)
      else
        var (d1, ok) := CopyWhole(d, out, data, fault);
        (d1, if ok then Some(budget) else None)
  }

  lemma StopsAt(d: Disk, root: Path, items: seq<Item>, budget: nat)
    requires items != [] && ExtractItem(d, root, items[0], budget).1 == None
    ensures ExtractAll(d, root, items, budget) == (ExtractItem(d, root, items[0], budget).0, None)
  {
    hide ExtractItem;
  }

  /** The disk while an archive is unpacked, and the budget its entries share. */
  class Extraction {
    var disk: Disk
    var budget: nat

    constructor (disk: Disk)
      ensures this.disk == disk && budget == 0x8000_0000
    {
      this.disk := disk;
      budget := MAX_EXTRACT_BYTES;
    }

    method CopyInto(out: Path, data: Bytes, fault: Option<nat>) returns (ok: bool)
      modifies this
      ensures var (d, left) := CopyCapped(old(disk), out, data, old(budget), fault);
              && disk == d && ok == left.Some?
              && budget == if ok then left.value else old(budget)
    {
      var copied := Min(|data|, Min(budget + 1, U64_MAX));
      if fault.Some? && fault.value <= copied {
        disk := disk.(files := disk.files[out := data[..fault.value]], written := disk.written + fault.value);
        return false;
      }
      disk := disk.(files := disk.files[out := data[..copied]], written := disk.written + copied);
      if copied > budget {
        return false;
      }
      budget := budget - copied;
      ok := true;
    }

    method MakeDirs(p: Path, answer: bool) returns (ok: bool)
      modifies `disk
      ensures ok == CreateDirAll(old(disk), p, answer).Some?
      ensures disk == if ok then CreateDirAll(old(disk), p, answer).value else old(disk)
    {
      ok := answer && Prefixes(p) !! disk.files.Keys;
      if ok {
        disk := disk.(dirs := disk.dirs + Prefixes(p));
      }
    }

    method Unpack(root: Path, item: Item) returns (ok: bool)
      modifies this
      ensures var (d, left) := ExtractItem(old(disk), root, item, old(budget));
              && disk == d && ok == left.Some?
              && budget == if ok then left.value else old(budget)
    {
      if item.Unreadable? {
        return false;
      }
      var joined := SafeJoin(root, Components(item.path));
      if joined == None {
        return false;
      }
      var out := joined.value;
      ok := MakeDirs(Parent(out), item.dirOk);
      if !ok {
        return;
      }
      match item.kind
      case RegularFile =>
        if !item.createOk || out in disk.dirs {
          return false;
        }
        ok := CopyInto(out, item.data, item.fault);
      case Directory =>
        ok := MakeDirs(out, item.dirOk);
      case Special =>
    }

    /** `extract_archive`. */
    method ExtractArchive(root: Path, bin: string, archive: Archive) returns (ok: bool)
      modifies this
      ensures var (d, left) := Extracted(old(disk), root, bin, archive, old(budget));
              disk == d && ok == left.Some? && (ok ==> left == Some(budget))
    {
      match archive
      case Entries(items) =>
        ok := ExtractEntries(root, items);
      case Gzip(data, createOk, fault) =>
        var out := PathIn(root, Components(bin));
        if !createOk || !CanCreate(disk, out) {
          return false;
        }
        ok := CopyInto(out, data, fault);
      case Raw(data, createOk, fault) =>
        var out := PathIn(root, Components(bin));
        if !createOk || !CanCreate(disk, out) {
          return false;
        }
        var (copy, whole) := CopyWhole(disk, out, data, fault);
        disk, ok := copy, whole;
    }

    /** The loop over the entries of a tar or zip archive. */
    method ExtractEntries(root: Path, items: seq<Item>) returns (ok: bool)
      modifies this
      ensures var (d, left) := ExtractAll(old(disk), root, items, old(budget));
              disk == d && ok == left.Some? && (ok ==> left == Some(budget))
    {
      hide ExtractItem;
      var i := 0;
      while i < |items|
        invariant 0 <= i <= |items|
        invariant ExtractAll(disk, root, items[i..], budget) == ExtractAll(old(disk), root, items, old(budget))
      {
        assert items[i..][0] == items[i] && items[i..][1..] == items[i + 1..];
        ghost var before, had := disk, budget;
        ok := Unpack(root, items[i]);
        if !ok {
          StopsAt(before, root, items[i..], had);
          return;
        }
        i := i + 1;
      }
      ok := true;
    }
  }

  // ── Confinement ────────────────────────────────────────────────────────

  /** `root` or a path below it through names that cannot leave their directory. */
  predicate Below(root: Path, p: Path) {
    root <= p && forall i :: |root| <= i < |p| ==> NormalName(p[i])
  }

  lemma {:induction false} NamesAreNormal(comps: seq<Component>)
    requires forall c :: c in comps && c.Normal? ==> NormalName(c.name)
    ensures forall i :: 0 <= i < |Names(comps)| ==> NormalName(Names(comps)[i])
  {
    if comps != [] {
      NamesAreNormal(comps[..|comps| - 1]);
    }
  }

  /** The root exists, and everything outside it is left exactly as it was. */
  ghost predicate Confined(d: Disk, d': Disk, root: Path) {
    && Prefixes(root) <= d.dirs
    && d.dirs <= d'.dirs && d.files.Keys <= d'.files.Keys
    && (forall p :: p in d'.dirs && p !in d.dirs ==> Below(root, p))
    && (forall p :: p in d'.files && !Below(root, p) ==> p in d.files && d'.files[p] == d.files[p])
  }

  lemma PrefixesBelow(d: Disk, root: Path, p: Path)
    requires Below(root, p) && Prefixes(root) <= d.dirs
    ensures forall q :: q in Prefixes(p) && q !in d.dirs ==> Below(root, q)
    ensures forall q :: q in Prefixes(Parent(p)) && q !in d.dirs ==> Below(root, q)
  {
    assert forall i :: 0 <= i <= |root| ==> p[..i] == root[..i] && root[..i] in Prefixes(root);
    assert forall i :: 0 <= i <= |p| && p[..i] !in d.dirs ==> Below(root, p[..i]);
    forall q | q in Prefixes(Parent(p)) ensures q in Prefixes(p) {
      var i :| 0 <= i <= |Parent(p)| && q == Parent(p)[..i];
      assert q == p[..i];
    }
  }

  lemma ItemIsConfined(d: Disk, root: Path, item: Item, budget: nat)
    requires Prefixes(root) <= d.dirs
    ensures Confined(d, ExtractItem(d, root, item, budget).0, root)
  {
    if !item.Unreadable? && !Escapes(Components(item.path)) {
      hide Components, Names, Escapes;
      ComponentsAreNormal(item.path);
      NamesAreNormal(Components(item.path));
      var out := root + Names(Components(item.path));
      assert Below(root, out);
      PrefixesBelow(d, root, out);
    }
  }

  /** Extraction creates and changes nothing outside the directory it was given. */
  lemma {:induction false} ExtractionIsConfined(d: Disk, root: Path, items: seq<Item>, budget: nat)
    requires Prefixes(root) <= d.dirs
    ensures Confined(d, ExtractAll(d, root, items, budget).0, root)
    decreases |items|
  {
    hide ExtractItem, Below;
    if items != [] {
      var (d1, left) := ExtractItem(d, root, items[0], budget);
      ItemIsConfined(d, root, items[0], budget);
      if left.Some? {
        ExtractionIsConfined(d1, root, items[1..], left.value);
      }
    }
  }

  // ── Which paths are refused, and where the others lead ─────────────────

  /** A path that is absolute or has a parent step in it. */
  predicate LeavesRoot(path: string) {
    (path != "" && path[0] == '/') || ".." in Segments(path)
  }

  /** The segments of a path that name something, in order. */
  function Kept(segs: seq<string>): seq<string> {
    if segs == [] then [] else (if segs[0] == "" || segs[0] == "." then [] else [segs[0]]) + Kept(segs[1..])
  }

  lemma {:induction false} LaterParents(segs: seq<string>)
    ensures (exists c :: c in LaterComponents(segs) && (c.ParentDir? || c.RootDir?)) <==> ".." in segs
  {
    if segs != [] {
      LaterParents(segs[1..]);
      assert segs == [segs[0]] + segs[1..];
      if segs[0] == ".." {
        assert ParentDir in LaterComponents(segs);
      }
    }
  }

  /** The check on components is the check on the path as it is written. */
  lemma EscapesExactlyWhen(path: string)
    ensures Escapes(Components(path)) <==> LeavesRoot(path)
  {
    hide Segments, LaterComponents;
    var segs, comps := Segments(path), Components(path);
    SegmentsNotEmpty(path);
    if path == "" {
      OneSegment("");
    } else if path[0] == '/' {
      assert RootDir in comps;
    } else {
      LaterParents(segs);
      LaterParents(segs[1..]);
      assert segs == [segs[0]] + segs[1..];
      if segs[0] == "." {
        assert forall c :: c in comps <==> c == CurDir || c in LaterComponents(segs[1..]);
      }
    }
  }

  lemma SegmentsNotEmpty(path: string)
    ensures Segments(path) != []
  {
  }

  lemma NamesCons(c: Component, comps: seq<Component>)
    ensures Names([c] + comps) == (if c.Normal? then [c.name] else []) + Names(comps)
    decreases |comps|
  {
    var all := [c] + comps;
    if comps == [] {
      assert all[..|all| - 1] == [] && all[|all| - 1] == c;
    } else {
      NamesCons(c, comps[..|comps| - 1]);
      assert all[..|all| - 1] == [c] + comps[..|comps| - 1] && all[|all| - 1] == comps[|comps| - 1];
    }
  }

  lemma {:induction false} LaterNames(segs: seq<string>)
    requires ".." !in segs
    ensures Names(LaterComponents(segs)) == Kept(segs)
  {
    if segs != [] {
      LaterNames(segs[1..]);
      var rest := LaterComponents(segs[1..]);
      if segs[0] == "" || segs[0] == "." {
        assert [] + rest == rest && [] + Kept(segs[1..]) == Kept(segs[1..]);
      } else {
        NamesCons(Normal(segs[0]), rest);
      }
    }
  }

  /** A path that is not refused leads through the segments it names. */
  lemma NamesAreKept(path: string)
    requires !LeavesRoot(path)
    ensures Names(Components(path)) == Kept(Segments(path))
  {
    hide Segments, LaterComponents, Names;
    var segs := Segments(path);
    SegmentsNotEmpty(path);
    if path == "" {
      OneSegment("");
      KeptHead([""]);
      NoNames();
    } else {
      LaterNames(segs);
      LaterNames(segs[1..]);
      KeptHead(segs);
      if segs[0] == "." {
        NamesCons(CurDir, LaterComponents(segs[1..]));
      }
    }
  }

  lemma KeptHead(segs: seq<string>)
    requires segs != []
    ensures Kept(segs) == (if segs[0] == "" || segs[0] == "." then [] else [segs[0]]) + Kept(segs[1..])
    ensures |segs| == 1 ==> Kept(segs[1..]) == []
  {
  }

  lemma NoNames()
    ensures Names([]) == []
  {
  }

  lemma {:induction false} ExtractInPieces(d: Disk, root: Path, a: seq<Item>, b: seq<Item>, budget: nat)
    ensures var (d1, left) := ExtractAll(d, root, a, budget);
      ExtractAll(d, root, a + b, budget) == if left == None then (d1, None) else ExtractAll(d1, root, b, left.value)
    decreases |a|
  {
    hide ExtractItem;
    if a == [] {
      assert a + b == b;
    } else {
      assert (a + b)[0] == a[0] && (a + b)[1..] == a[1..] + b;
      var (d1, left) := ExtractItem(d, root, a[0], budget);
      if left.Some? {
        ExtractInPieces(d1, root, a[1..], b, left.value);
      }
    }
  }

  /**
   An entry whose path starts with a slash or has `..` among its segments ends the extraction with
   an error, whatever it is and wherever in the archive it comes; nothing of it, and nothing of
   what follows it, reaches the disk.
   */
  lemma LeavingEntryIsRefused(d: Disk, root: Path, before: seq<Item>, item: Item, after: seq<Item>, budget: nat)
    requires item.Item? && LeavesRoot(item.path)
    ensures ExtractAll(d, root, before + [item] + after, budget) == (ExtractAll(d, root, before, budget).0, None)
  {
    hide Components, Names, Escapes, LeavesRoot;
    EscapesExactlyWhen(item.path);
    ExtractInPieces(d, root, before, [item] + after, budget);
    assert before + [item] + after == before + ([item] + after);
    assert ([item] + after)[0] == item;
  }

  /**
   Any other entry goes below the root by the segments of its path that name something: a file's
   data is put exactly there, a directory is made there, and any other kind only gets the
   directories on the way to it.
   */
  lemma EntryGoesWhereItSays(d: Disk, root: Path, item: Item, budget: nat)
    requires item.Item? && !LeavesRoot(item.path) && budget < U64_MAX
    ensures var (d', left) := ExtractItem(d, root, item, budget);
      var out := root + Kept(Segments(item.path));
      && (left.Some? ==>
            match item.kind
            case RegularFile => d'.files == d.files[out := item.data] && d'.dirs == d.dirs + Prefixes(Parent(out))
            case Directory => d'.files == d.files && d'.dirs == d.dirs + Prefixes(Parent(out)) + Prefixes(out)
            case Special => d'.files == d.files && d'.dirs == d.dirs + Prefixes(Parent(out)))
      && (left == None ==>
            && d'.dirs <= d.dirs + Prefixes(Parent(out)) + Prefixes(out)
            && forall p :: p != out ==> (p in d'.files <==> p in d.files) && (p in d.files ==> d'.files[p] == d.files[p]))
  {
    hide Components, Names, Escapes, LeavesRoot, Segments, Kept, Prefixes, Parent;
    EscapesExactlyWhen(item.path);
    NamesAreKept(item.path);
    assert item.data[..|item.data|] == item.data;
  }

  /** With a working disk and room in the budget such an entry is never refused. */
  lemma PlainEntryIsUnpacked(d: Disk, root: Path, item: Item, budget: nat)
    requires item.Item? && !LeavesRoot(item.path) && |item.data| <= budget < U64_MAX
    requires item.dirOk && item.createOk && item.fault == None
    requires var out := root + Kept(Segments(item.path));
      Prefixes(out) !! d.files.Keys && out !in d.dirs + Prefixes(Parent(out))
    ensures ExtractItem(d, root, item, budget).1.Some?
  {
    hide Components, Names, Escapes, LeavesRoot, Segments, Kept;
    EscapesExactlyWhen(item.path);
    NamesAreKept(item.path);
    var out := root + Kept(Segments(item.path));
    forall p | p in Prefixes(Parent(out)) ensures p in Prefixes(out) {
      var i :| 0 <= i <= |Parent(out)| && p == Parent(out)[..i];
      assert p == out[..i];
    }
  }

  // ── The budget ─────────────────────────────────────────────────────────

  function FileSize(item: Item): nat {
    if item.Item? && item.kind.RegularFile? then |item.data| else 0
  }

  function TotalSize(items: seq<Item>): nat {
    if items == [] then 0 else FileSize(items[0]) + TotalSize(items[1..])
  }

  lemma ItemBudget(d: Disk, root: Path, item: Item, budget: nat)
    requires budget < U64_MAX
    ensures var (d', left) := ExtractItem(d, root, item, budget);
            && (left.Some? ==> d'.written == d.written + FileSize(item) && left.value + FileSize(item) == budget)
            && (left.None? ==> d.written <= d'.written <= d.written + budget + 1)
  {
    hide Components, Names, Escapes;
  }

  /**
   Over all entries together: on success every file was written in full and the bytes written
   plus the budget left are the budget given; on failure at most one byte too many was written.
   */
  lemma {:induction false} BudgetIsConserved(d: Disk, root: Path, items: seq<Item>, budget: nat)
    requires budget < U64_MAX
    ensures var (d', left) := ExtractAll(d, root, items, budget);
            && (left.Some? ==> d'.written - d.written == TotalSize(items) && d'.written - d.written + left.value == budget)
            && (left.None? ==> 0 <= d'.written - d.written <= budget + 1)
    decreases |items|
  {
    hide ExtractItem;
    if items != [] {
      var (d1, left) := ExtractItem(d, root, items[0], budget);
      ItemBudget(d, root, items[0], budget);
      if left.Some? {
        BudgetIsConserved(d1, root, items[1..], left.value);
      }
    }
  }

  // ── The contents ───────────────────────────────────────────────────────

  /** The data of the last regular file among the entries that goes to `p`. */
  function LastData(root: Path, items: seq<Item>, p: Path): Option<Bytes> {
    if items == [] then None else
      var later := LastData(root, items[1..], p);
      if later.Some? then later
      else if items[0].Item? && items[0].kind.RegularFile? && root + Kept(Segments(items[0].path)) == p
      then Some(items[0].data)
      else None
  }

  lemma ItemContents(d: Disk, root: Path, item: Item, budget: nat)
    requires budget < U64_MAX && ExtractItem(d, root, item, budget).1.Some?
    ensures item.Item?
    ensures ExtractItem(d, root, item, budget).0.files ==
            if item.kind.RegularFile? then d.files[root + Kept(Segments(item.path)) := item.data] else d.files
    ensures ExtractItem(d, root, item, budget).1.value <= budget
  {
    hide Components, Names, Escapes, LeavesRoot, Segments, Kept;
    EscapesExactlyWhen(item.path);
    NamesAreKept(item.path);
    assert item.data[..|item.data|] == item.data;
  }

  /** After a successful extraction each path holds the last entry for it, all others what they had. */
  lemma {:induction false} ExtractedContents(d: Disk, root: Path, items: seq<Item>, budget: nat, p: Path)
    requires budget < U64_MAX && ExtractAll(d, root, items, budget).1.Some?
    ensures var files := ExtractAll(d, root, items, budget).0.files;
            var data := LastData(root, items, p);
            && (p in files <==> data.Some? || p in d.files)
            && (p in files ==> files[p] == if data.Some? then data.value else d.files[p])
    decreases |items|
  {
    hide ExtractItem, Segments, Kept;
    if items != [] {
      var (d1, left) := ExtractItem(d, root, items[0], budget);
      ItemContents(d, root, items[0], budget);
      ExtractedContents(d1, root, items[1..], left.value, p);
    }
  }

  // ── When the budget is what stops an extraction ────────────────────────

  lemma ItemIgnoresBudget(d: Disk, root: Path, item: Item, b: nat, c: nat)
    requires FileSize(item) <= b < U64_MAX && FileSize(item) <= c < U64_MAX
    ensures ExtractItem(d, root, item, b).0 == ExtractItem(d, root, item, c).0
    ensures ExtractItem(d, root, item, b).1.Some? <==> ExtractItem(d, root, item, c).1.Some?
  {
    hide Components, Names, Escapes;
  }

  /** Two budgets that both suffice make no difference to what happens. */
  lemma {:induction false} EnoughIsEnough(d: Disk, root: Path, items: seq<Item>, b: nat, c: nat)
    requires TotalSize(items) <= b < U64_MAX && TotalSize(items) <= c < U64_MAX
    ensures ExtractAll(d, root, items, b).0 == ExtractAll(d, root, items, c).0
    ensures ExtractAll(d, root, items, b).1.Some? <==> ExtractAll(d, root, items, c).1.Some?
    decreases |items|
  {
    hide ExtractItem;
    if items != [] {
      ItemIgnoresBudget(d, root, items[0], b, c);
      ItemBudget(d, root, items[0], b);
      ItemBudget(d, root, items[0], c);
      var (d1, left) := ExtractItem(d, root, items[0], b);
      if left.Some? {
        EnoughIsEnough(d1, root, items[1..], left.value, ExtractItem(d, root, items[0], c).1.value);
      }
    }
  }

  /**
   The budget matters through its size alone: whatever decoder, disk and paths do, an extraction
   succeeds exactly when the files fit in the budget together and it would succeed with a budget
   that just fits them.
   */
  lemma FitsExactly(d: Disk, root: Path, items: seq<Item>, budget: nat)
    requires budget < U64_MAX
    ensures ExtractAll(d, root, items, budget).1.Some? <==>
      TotalSize(items) <= budget && ExtractAll(d, root, items, TotalSize(items)).1.Some?
  {
    hide ExtractAll;
    BudgetIsConserved(d, root, items, budget);
    if TotalSize(items) <= budget {
      EnoughIsEnough(d, root, items, budget, TotalSize(items));
    }
  }

  // ── Archives of one file ───────────────────────────────────────────────

  /** After success the one file holds exactly the data and nothing else has changed. */
  lemma SingleFileContents(d: Disk, root: Path, bin: string, archive: Archive, budget: nat)
    requires !archive.Entries? && budget < U64_MAX && Extracted(d, root, bin, archive, budget).1.Some?
    ensures var (d', left) := Extracted(d, root, bin, archive, budget);
      && d'.files == d.files[PathIn(root, Components(bin)) := archive.data] && d'.dirs == d.dirs
      && d'.written == d.written + |archive.data|
      && left.value == (if archive.Gzip? then budget - |archive.data| else budget)
  {
    hide Components, PathIn;
    assert archive.data[..|archive.data|] == archive.data;
  }

  /** The budget bounds the gzip file; a raw download is copied whatever its size. */
  lemma SingleFileFits(d: Disk, root: Path, bin: string, archive: Archive, budget: nat)
    requires !archive.Entries? && budget < U64_MAX && archive.createOk && archive.fault == None
    requires CanCreate(d, PathIn(root, Components(bin)))
    ensures Extracted(d, root, bin, archive, budget).1.Some? <==> archive.Raw? || |archive.data| <= budget
    ensures archive.Gzip? ==> Extracted(d, root, bin, archive, budget).0.written <= d.written + budget + 1
  {
    hide Components, PathIn, CanCreate;
  }

  /** `is_safe_component`: the name is one component, and that one is normal. */
  predicate IsSafeComponent(name: string) {
    |Components(name)| == 1 && Components(name)[0].Normal?
  }

  /** An accepted binary name puts the file straight into the root. */
  lemma SafeComponentIsBelow(root: Path, bin: string)
    requires IsSafeComponent(bin)
    ensures var name := Components(bin)[0].name;
      NormalName(name) && PathIn(root, Components(bin)) == root + [name] && Below(root, root + [name])
  {
    hide Components;
    ComponentsAreNormal(bin);
    var c := Components(bin)[0];
    assert c in Components(bin);
    assert PathIn(root, Components(bin)[..0]) == root;
  }

  lemma {:induction false} NothingLater(segs: seq<string>)
    ensures LaterComponents(segs) == [] <==> forall i :: 0 <= i < |segs| ==> segs[i] == "" || segs[i] == "."
  {
    if segs != [] {
      NothingLater(segs[1..]);
      assert forall i | 1 <= i < |segs| :: segs[i] == segs[1..][i - 1];
      assert forall i | 0 <= i < |segs| - 1 :: segs[1..][i] == segs[i + 1];
    }
  }

  /**
   Accepted are the names whose first segment is a name and not a dot, with at most slashes and
   dots after it; and that first segment is what the file is called.
   */
  lemma SafeNameExactly(root: Path, bin: string)
    ensures IsSafeComponent(bin) <==>
      var segs := Segments(bin);
      && segs != [] && segs[0] !in ["", ".", ".."]
      && forall i :: 1 <= i < |segs| ==> segs[i] == "" || segs[i] == "."
    ensures IsSafeComponent(bin) ==> Segments(bin) != [] && PathIn(root, Components(bin)) == root + [Segments(bin)[0]]
  {
    hide Segments, LaterComponents, PathIn, NormalName;
    var segs := Segments(bin);
    FirstOfSegments(bin);
    NothingLater(segs[1..]);
    assert forall i | 1 <= i < |segs| :: segs[i] == segs[1..][i - 1];
    assert forall i | 0 <= i < |segs| - 1 :: segs[1..][i] == segs[i + 1];
    LaterHead(segs);
    if IsSafeComponent(bin) {
      SafeComponentIsBelow(root, bin);
    }
  }

  lemma FirstOfSegments(s: string)
    ensures Segments(s) != [] && (Segments(s)[0] == "" <==> s == "" || s[0] == '/')
  {
  }

  lemma LaterHead(segs: seq<string>)
    requires segs != []
    ensures LaterComponents(segs) == SegmentComponents(segs[0]) + LaterComponents(segs[1..])
  {
  }

  /**
   Unpacking an archive of any format, under a binary name the installer accepts, creates and
   changes nothing outside the directory it was given.
   */
  lemma UnpackingIsConfined(d: Disk, root: Path, bin: string, archive: Archive, budget: nat)
    requires Prefixes(root) <= d.dirs && IsSafeComponent(bin)
    ensures Confined(d, Extracted(d, root, bin, archive, budget).0, root)
  {
    hide Components, PathIn, IsSafeComponent;
    if archive.Entries? {
      ExtractionIsConfined(d, root, archive.items, budget);
    } else {
      SafeComponentIsBelow(root, bin);
    }
  }

  /**
   Of the binary names with at most one component, those that a single file can be created under
   at all are exactly accepted ones; so the installer's check turns away no such name for nothing.
   */
  lemma SingleFileIsConfinedExactly(d: Disk, root: Path, bin: string, archive: Archive, budget: nat)
    requires Prefixes(root) <= d.dirs && !archive.Entries?
    requires Extracted(d, root, bin, archive, budget).1.Some? && PathIn(root, Components(bin)) !in d.files
    ensures Confined(d, Extracted(d, root, bin, archive, budget).0, root) <==> Below(root, PathIn(root, Components(bin)))
    ensures |Components(bin)| <= 1 ==> IsSafeComponent(bin)
    ensures IsSafeComponent(bin) ==> Confined(d, Extracted(d, root, bin, archive, budget).0, root)
  {
    hide Components, Below, Confined, PathIn, IsSafeComponent;
    OnlyBelowIsConfined(d, root, bin, archive, budget);
    if |Components(bin)| <= 1 {
      CreatableComponentIsSafe(d, root, bin);
    }
    if IsSafeComponent(bin) {
      UnpackingIsConfined(d, root, bin, archive, budget);
    }
  }

  lemma OnlyBelowIsConfined(d: Disk, root: Path, bin: string, archive: Archive, budget: nat)
    requires Prefixes(root) <= d.dirs && !archive.Entries?
    requires Extracted(d, root, bin, archive, budget).1.Some? && PathIn(root, Components(bin)) !in d.files
    ensures Confined(d, Extracted(d, root, bin, archive, budget).0, root) <==> Below(root, PathIn(root, Components(bin)))
  {
    hide Components, PathIn, Below;
  }

  /** The root itself and the directories above it exist, so no file can be created there. */
  lemma CreatableComponentIsSafe(d: Disk, root: Path, bin: string)
    requires Prefixes(root) <= d.dirs && |Components(bin)| <= 1 && CanCreate(d, PathIn(root, Components(bin)))
    ensures IsSafeComponent(bin)
  {
    hide Components;
    var comps := Components(bin);
    assert root == root[..|root|] && root in Prefixes(root);
    if comps != [] {
      assert PathIn(root, comps[..0]) == root;
      assert root != [] ==> root[..|root| - 1] in Prefixes(root);
    }
  }
}

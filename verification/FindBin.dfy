/**
 Looking for the binary in an extracted tree: the stack-driven directory walk and the ordered
 probe built on it. A directory is the listing `read_dir` happens to return, in its own order.
 */
module FindBin {
  import opened Wrappers
  import opened Order

  /** A path relative to the root of the tree, as its components. */
  type Path = seq<string>

  /** A file, or a directory that may be unreadable, with its entries in listing order. */
  datatype Node = File | Dir(readable: bool, entries: seq<Entry>)

  datatype Entry = Entry(name: string, node: Node)

  // ── What the tree holds ────────────────────────────────────────────────

  function Child(entries: seq<Entry>, name: string): Option<Node> {
    if entries == [] then None
    else if entries[0].name == name then Some(entries[0].node)
    else Child(entries[1..], name)
  }

  /** `is_file` on a path: directories on the way need not be readable. */
  predicate FileAt(node: Node, p: Path)
    decreases p
  {
    if p == [] then node.File?
    else node.Dir? && var c := Child(node.entries, p[0]); c.Some? && FileAt(c.value, p[1..])
  }

  /** A file all of whose directories can be listed. */
  predicate VisibleAt(node: Node, p: Path)
    decreases p
  {
    if p == [] then node.File?
    else node.Dir? && node.readable && var c := Child(node.entries, p[0]); c.Some? && VisibleAt(c.value, p[1..])
  }

  /** Sibling names are distinct, as in any directory. */
  ghost predicate WellNamed(node: Node) {
    node.Dir? ==>
      && (forall i, j :: 0 <= i < j < |node.entries| ==> node.entries[i].name != node.entries[j].name)
      && (forall i :: 0 <= i < |node.entries| ==> WellNamed(node.entries[i].node))
  }

  // ── The walk ───────────────────────────────────────────────────────────

  /** The paths of the files below a node that the walk can see. */
  function Visible(node: Node, at: Path): multiset<Path>
    decreases node, 1
  {
    match node
    case File => multiset{at}
    case Dir(readable, entries) => if readable then VisibleIn(entries, at) else multiset{}
  }

  function VisibleIn(entries: seq<Entry>, at: Path): multiset<Path>
    decreases entries, 0
  {
    if entries == [] then multiset{}
    else Visible(entries[0].node, at + [entries[0].name]) + VisibleIn(entries[1..], at)
  }

  function Size(node: Node): (n: nat)
    ensures n > 0
    decreases node, 1
  {
    match node
    case File => 1
    case Dir(_, entries) => 1 + SizeIn(entries)
  }

  function SizeIn(entries: seq<Entry>): nat
    decreases entries, 0
  {
    if entries == [] then 0 else Size(entries[0].node) + SizeIn(entries[1..])
  }

  /** What the directories still on the stack will contribute. */
  function Outstanding(stack: seq<(Path, Node)>): multiset<Path> {
    if stack == [] then multiset{} else
      var (at, node) := stack[|stack| - 1];
      Visible(node, at) + Outstanding(stack[..|stack| - 1])
  }

  function StackSize(stack: seq<(Path, Node)>): nat {
    if stack == [] then 0 else Size(stack[|stack| - 1].1) + StackSize(stack[..|stack| - 1])
  }

  lemma PushOne(stack: seq<(Path, Node)>, at: Path, node: Node)
    ensures Outstanding(stack + [(at, node)]) == Visible(node, at) + Outstanding(stack)
    ensures StackSize(stack + [(at, node)]) == Size(node) + StackSize(stack)
  {
    assert (stack + [(at, node)])[..|stack|] == stack;
  }

  /** `walkdir`: pop a directory, push its subdirectories, report its files. */
  method WalkDir(root: Node) returns (result: seq<Path>)
    requires root.Dir?
    ensures multiset(result) == Visible(root, [])
  {
    result := [];
    var stack: seq<(Path, Node)> := [([], root)];
    PushOne([], [], root);
    assert [] + [([], root)] == stack;
    while stack != []
      invariant forall i :: 0 <= i < |stack| ==> stack[i].1.Dir?
      invariant multiset(result) + Outstanding(stack) == Visible(root, [])
      decreases StackSize(stack)
    {
      var (at, dir) := stack[|stack| - 1];
      stack := stack[..|stack| - 1];
      if dir.readable {
        result, stack := ListDir(at, dir.entries, result, stack);
      }
    }
  }

  /** One entry of a directory moves from what is still to be listed to the results or the stack. */
  lemma ListOne(at: Path, entries: seq<Entry>, result: seq<Path>, stack: seq<(Path, Node)>)
    requires entries != []
    ensures var Entry(name, node) := entries[0];
      var (result', stack') :=
        if node.Dir? then (result, stack + [(at + [name], node)]) else (result + [at + [name]], stack);
      && multiset(result') + Outstanding(stack') + VisibleIn(entries[1..], at)
           == multiset(result) + Outstanding(stack) + VisibleIn(entries, at)
      && StackSize(stack') + SizeIn(entries[1..]) <= StackSize(stack) + SizeIn(entries)
  {
    hide Outstanding, StackSize;
    var Entry(name, node) := entries[0];
    if node.Dir? {
      PushOne(stack, at + [name], node);
      MoveAcross(multiset(result), Outstanding(stack), Visible(node, at + [name]), VisibleIn(entries[1..], at));
    } else {
      assert multiset(result + [at + [name]]) == multiset(result) + multiset{at + [name]};
      MoveAcross(multiset(result), Outstanding(stack), multiset{at + [name]}, VisibleIn(entries[1..], at));
    }
  }

  lemma MoveAcross(a: multiset<Path>, b: multiset<Path>, x: multiset<Path>, c: multiset<Path>)
    ensures a + (x + b) + c == a + b + (x + c) && a + x + b + c == a + b + (x + c)
  {
  }

  /** The loop over one directory's entries. */
  method ListDir(at: Path, entries: seq<Entry>, result: seq<Path>, stack: seq<(Path, Node)>)
    returns (result': seq<Path>, stack': seq<(Path, Node)>)
    requires forall i :: 0 <= i < |stack| ==> stack[i].1.Dir?
    ensures forall i :: 0 <= i < |stack'| ==> stack'[i].1.Dir?
    ensures multiset(result') + Outstanding(stack') == multiset(result) + Outstanding(stack) + VisibleIn(entries, at)
    ensures StackSize(stack') <= StackSize(stack) + SizeIn(entries)
  {
    hide Outstanding, StackSize, VisibleIn, SizeIn;
    result', stack' := result, stack;
    var i := 0;
    while i < |entries|
      invariant 0 <= i <= |entries|
      invariant forall k :: 0 <= k < |stack'| ==> stack'[k].1.Dir?
      invariant multiset(result') + Outstanding(stack') + VisibleIn(entries[i..], at)
                == multiset(result) + Outstanding(stack) + VisibleIn(entries, at)
      invariant StackSize(stack') + SizeIn(entries[i..]) <= StackSize(stack) + SizeIn(entries)
    {
      var Entry(name, node) := entries[i];
      assert entries[i..][0] == entries[i] && entries[i..][1..] == entries[i + 1..];
      ListOne(at, entries[i..], result', stack');
      if node.Dir? {
        stack' := stack' + [(at + [name], node)];
      } else {
        result' := result' + [at + [name]];
      }
      i := i + 1;
    }
    NothingListed(at, entries[i..]);
  }

  lemma NothingListed(at: Path, entries: seq<Entry>)
    requires entries == []
    ensures VisibleIn(entries, at) == multiset{} && SizeIn(entries) == 0
  {
  }

  // ── Every visible file, exactly once ───────────────────────────────────

  /** The walk reports a path below `at` once when it is a visible file, and never otherwise. */
  lemma {:induction false} VisibleOnce(node: Node, at: Path, p: Path)
    requires WellNamed(node)
    ensures Visible(node, at)[p] == if at <= p && VisibleAt(node, p[|at|..]) then 1 else 0
    decreases node, 1
  {
    if node.Dir? {
      if node.readable {
        VisibleInOnce(node.entries, at, p);
        if at <= p && |p| > |at| {
          assert p[|at|..][0] == p[|at|] && p[|at|..][1..] == p[|at| + 1..];
        }
      }
    } else {
      assert at <= p && p[|at|..] == [] ==> p == at;
    }
  }

  ghost predicate WellNamedIn(entries: seq<Entry>) {
    && (forall i, j :: 0 <= i < j < |entries| ==> entries[i].name != entries[j].name)
    && (forall i :: 0 <= i < |entries| ==> WellNamed(entries[i].node))
  }

  lemma {:induction false} VisibleInOnce(entries: seq<Entry>, at: Path, p: Path)
    requires WellNamedIn(entries)
    ensures VisibleIn(entries, at)[p] ==
            if at < p && Child(entries, p[|at|]).Some? && VisibleAt(Child(entries, p[|at|]).value, p[|at| + 1..])
            then 1 else 0
    decreases entries, 0
  {
    if entries != [] {
      var Entry(name, node) := entries[0];
      VisibleOnce(node, at + [name], p);
      VisibleInOnce(entries[1..], at, p);
      if at < p && p[|at|] == name {
        assert at + [name] <= p;
        NotAChild(entries[1..], name);
      } else {
        assert !(at + [name] <= p);
      }
    }
  }

  lemma {:induction false} NotAChild(entries: seq<Entry>, name: string)
    requires forall i :: 0 <= i < |entries| ==> entries[i].name != name
    ensures Child(entries, name) == None
  {
    if entries != [] { NotAChild(entries[1..], name); }
  }

  /** `walkdir` lists each visible file of a directory exactly once and nothing else. */
  lemma WalkListsEachFileOnce(root: Node, result: seq<Path>, p: Path)
    requires WellNamed(root) && multiset(result) == Visible(root, [])
    ensures multiset(result)[p] == if VisibleAt(root, p) then 1 else 0
  {
    VisibleOnce(root, [], p);
    assert p[0..] == p;
  }

  // ── The ordered probe ──────────────────────────────────────────────────

  predicate PathLess(a: Path, b: Path) {
    LexLess(StringLess, a, b)
  }

  /** Shallower first, then in path order. */
  predicate Before(a: Path, b: Path) {
    |a| < |b| || (|a| == |b| && PathLess(a, b))
  }

  lemma BeforeIsOrder()
    ensures StrictTotal(Before)
  {
    StringOrder();
    LexStrictTotal(StringLess, PathLess);
    hide PathLess;
    assert forall a, b :: Before(a, b) || a == b || Before(b, a);
  }

  predicate Named(p: Path, bin: string) {
    p != [] && p[|p| - 1] == bin
  }

  ghost function Candidates(root: Node, bin: string): set<Path> {
    set p | p in Visible(root, []) && Named(p, bin)
  }

  /** `bin/<name>`, else `<name>`, else the first visible file of that name in `Before` order. */
  ghost function BinPath(root: Node, bin: string): Option<Path> {
    BeforeIsOrder();
    if FileAt(root, ["bin", bin]) then Some(["bin", bin])
    else if FileAt(root, [bin]) then Some([bin])
    else if Candidates(root, bin) == {} then None
    else Some(Least(Before, Candidates(root, bin)))
  }

  ghost predicate Sorted(ps: seq<Path>) {
    forall i, j :: 0 <= i < j < |ps| ==> !Before(ps[j], ps[i])
  }

  /** A stable sort of the candidates. */
  method SortPaths(ps: seq<Path>) returns (out: seq<Path>)
    ensures Sorted(out) && multiset(out) == multiset(ps)
  {
    out := [];
    for i := 0 to |ps|
      invariant Sorted(out) && multiset(out) == multiset(ps[..i])
    {
      out := InsertSorted(out, ps[i]);
      assert ps[..i + 1] == ps[..i] + [ps[i]];
    }
    assert ps[..|ps|] == ps;
  }

  method InsertSorted(ps: seq<Path>, p: Path) returns (out: seq<Path>)
    requires Sorted(ps)
    ensures Sorted(out) && multiset(out) == multiset(ps) + multiset{p}
  {
    hide Before;
    var k := |ps|;
    while k > 0 && Before(p, ps[k - 1])
      invariant 0 <= k <= |ps|
      invariant k < |ps| ==> Before(p, ps[k])
    {
      k := k - 1;
    }
    InsertedIsSorted(ps, p, k);
    out := ps[..k] + [p] + ps[k..];
    assert ps == ps[..k] + ps[k..];
  }

  /** Inserting right before the first of the tail that comes later keeps the order. */
  lemma InsertedIsSorted(ps: seq<Path>, p: Path, k: nat)
    requires Sorted(ps) && k <= |ps|
    requires (k < |ps| ==> Before(p, ps[k])) && (k > 0 ==> !Before(p, ps[k - 1]))
    ensures Sorted(ps[..k] + [p] + ps[k..])
  {
    BeforeIsOrder();
    hide Before;
    var out := ps[..k] + [p] + ps[k..];
    forall i, j | 0 <= i < j < |out| ensures !Before(out[j], out[i]) {
      if j == k && i < k - 1 {
        assert !Before(ps[k - 1], ps[i]);
      } else if i == k && j > k + 1 {
        assert !Before(ps[j - 1], ps[k]);
      }
    }
  }

  /** `find_bin`. */
  method FindBinary(root: Node, bin: string) returns (found: Option<Path>)
    requires root.Dir?
    ensures found == BinPath(root, bin)
  {
    BeforeIsOrder();
    if FileAt(root, ["bin", bin]) {
      return Some(["bin", bin]);
    }
    if FileAt(root, [bin]) {
      return Some([bin]);
    }
    var files := WalkDir(root);
    var candidates: seq<Path> := [];
    for i := 0 to |files|
      invariant forall p :: p in candidates <==> p in files[..i] && Named(p, bin)
    {
      if Named(files[i], bin) {
        candidates := candidates + [files[i]];
      }
    }
    assert files[..|files|] == files;
    assert forall p :: p in files <==> p in multiset(files);
    var sorted := SortPaths(candidates);
    assert forall p :: p in sorted <==> p in multiset(sorted);
    assert forall p :: p in candidates <==> p in multiset(candidates);
    assert forall p :: p in sorted <==> p in Candidates(root, bin);
    if sorted == [] {
      return None;
    }
    FirstIsLeast(sorted, Candidates(root, bin));
    found := Some(sorted[0]);
  }

  lemma FirstIsLeast(sorted: seq<Path>, s: set<Path>)
    requires StrictTotal(Before) && Sorted(sorted) && sorted != [] && forall p :: p in sorted <==> p in s
    ensures s != {} && sorted[0] == Least(Before, s)
  {
    assert sorted[0] in s;
    hide Before;
    forall p | p in s ensures p == sorted[0] || Before(sorted[0], p) {
      var i :| 0 <= i < |sorted| && sorted[i] == p;
    }
    LeastUnique(Before, sorted[0], Least(Before, s), s);
  }

  // ── Listing order does not matter ──────────────────────────────────────

  /** The same tree, every directory listed in any order. */
  ghost predicate Permuted(a: Node, b: Node)
    decreases a
  {
    match a
    case File => b.File?
    case Dir(readable, entries) =>
      && b.Dir? && b.readable == readable
      && (forall i :: 0 <= i < |entries| ==>
            exists j :: 0 <= j < |b.entries| && b.entries[j].name == entries[i].name && Permuted(entries[i].node, b.entries[j].node))
      && (forall j :: 0 <= j < |b.entries| ==>
            exists i :: 0 <= i < |entries| && b.entries[j].name == entries[i].name)
  }

  lemma {:induction false} ChildAt(entries: seq<Entry>, i: nat)
    requires i < |entries| && forall k, l :: 0 <= k < l < |entries| ==> entries[k].name != entries[l].name
    ensures Child(entries, entries[i].name) == Some(entries[i].node)
  {
    if i > 0 {
      ChildAt(entries[1..], i - 1);
    }
  }

  lemma {:induction false} ChildIndex(entries: seq<Entry>, name: string) returns (i: nat)
    requires Child(entries, name).Some?
    ensures i < |entries| && entries[i] == Entry(name, Child(entries, name).value)
  {
    if entries[0].name == name {
      i := 0;
    } else {
      i := ChildIndex(entries[1..], name);
      i := i + 1;
    }
  }

  lemma PermutedChild(a: Node, b: Node, name: string)
    requires a.Dir? && WellNamed(a) && WellNamed(b) && Permuted(a, b)
    ensures var c, d := Child(a.entries, name), Child(b.entries, name);
            && c.Some? == d.Some?
            && (c.Some? ==> Permuted(c.value, d.value) && WellNamed(c.value) && WellNamed(d.value))
  {
    hide Child;
    if Child(a.entries, name).Some? {
      var i := ChildIndex(a.entries, name);
      var j :| 0 <= j < |b.entries| && b.entries[j].name == a.entries[i].name && Permuted(a.entries[i].node, b.entries[j].node);
      ChildAt(b.entries, j);
    } else if Child(b.entries, name).Some? {
      var j := ChildIndex(b.entries, name);
      var i :| 0 <= i < |a.entries| && b.entries[j].name == a.entries[i].name;
      ChildAt(a.entries, i);
    }
  }

  lemma {:induction false} PermutedSameFiles(a: Node, b: Node, p: Path)
    requires WellNamed(a) && WellNamed(b) && Permuted(a, b)
    ensures FileAt(a, p) == FileAt(b, p) && VisibleAt(a, p) == VisibleAt(b, p)
    decreases p
  {
    if p != [] && a.Dir? {
      PermutedChild(a, b, p[0]);
      var c := Child(a.entries, p[0]);
      if c.Some? {
        PermutedSameFiles(c.value, Child(b.entries, p[0]).value, p[1..]);
      }
    }
  }

  /** Whatever order every directory is listed in, the same binary is chosen. */
  lemma ListingOrderDoesNotMatter(a: Node, b: Node, bin: string)
    requires WellNamed(a) && WellNamed(b) && Permuted(a, b)
    ensures BinPath(a, bin) == BinPath(b, bin)
  {
    hide WellNamed, Permuted, Visible, FileAt, VisibleAt, Named;
    forall p ensures FileAt(a, p) == FileAt(b, p) && Visible(a, [])[p] == Visible(b, [])[p] {
      PermutedSameFiles(a, b, p);
      VisibleOnce(a, [], p);
      VisibleOnce(b, [], p);
      assert p[0..] == p;
    }
    assert Candidates(a, bin) == Candidates(b, bin);
    BeforeIsOrder();
  }

  /**
   The answer names a file of the tree: the conventional one if there is one, else the one at the
   root, else one that comes before every other visible file of that name. Without an answer no
   visible file has the name.
   */
  lemma BinPathIsAFile(root: Node, bin: string)
    requires WellNamed(root)
    ensures BinPath(root, bin).Some? ==> FileAt(root, BinPath(root, bin).value) && Named(BinPath(root, bin).value, bin)
    ensures FileAt(root, ["bin", bin]) ==> BinPath(root, bin) == Some(["bin", bin])
    ensures !FileAt(root, ["bin", bin]) && FileAt(root, [bin]) ==> BinPath(root, bin) == Some([bin])
    ensures BinPath(root, bin).Some? && !FileAt(root, ["bin", bin]) && !FileAt(root, [bin]) ==>
      forall p :: Named(p, bin) && VisibleAt(root, p) && p != BinPath(root, bin).value ==>
        Before(BinPath(root, bin).value, p)
    ensures BinPath(root, bin) == None ==> forall p :: Named(p, bin) ==> !VisibleAt(root, p)
  {
    BeforeIsOrder();
    forall p ensures Visible(root, [])[p] == if VisibleAt(root, p) then 1 else 0 {
      VisibleOnce(root, [], p);
      assert p[0..] == p;
    }
    if BinPath(root, bin).Some? {
      var p := BinPath(root, bin).value;
      if p in Candidates(root, bin) {
        VisibleIsFile(root, p);
      }
    } else {
      forall p | Named(p, bin) ensures !VisibleAt(root, p) {
        assert p !in Candidates(root, bin);
      }
    }
  }

  lemma {:induction false} VisibleIsFile(node: Node, p: Path)
    requires VisibleAt(node, p)
    ensures FileAt(node, p)
    decreases p
  {
    if p != [] { VisibleIsFile(Child(node.entries, p[0]).value, p[1..]); }
  }

  // ── The order, spelled out ─────────────────────────────────────────────

  /** `a` has the smaller character where the two first differ, or ends there. */
  predicate SmallerString(a: string, b: string) {
    exists k :: 0 <= k < |b| && k <= |a| && a[..k] == b[..k] && (k == |a| || a[k] < b[k])
  }

  /** `a` has the smaller name where two paths of one length first differ. */
  predicate SmallerPath(a: Path, b: Path)
    requires |a| == |b|
  {
    exists k :: 0 <= k < |a| && a[..k] == b[..k] && SmallerString(a[k], b[k])
  }

  lemma {:induction false} LexFirstDifference<T(!new)>(less: (T, T) -> bool, a: seq<T>, b: seq<T>) returns (k: nat)
    requires LexLess(less, a, b)
    ensures k < |b| && k <= |a| && a[..k] == b[..k] && (k == |a| || less(a[k], b[k]))
  {
    if a == [] || less(a[0], b[0]) {
      k := 0;
    } else {
      k := LexFirstDifference(less, a[1..], b[1..]);
      assert a == [a[0]] + a[1..] && b == [b[0]] + b[1..];
      assert a[..k + 1] == [a[0]] + a[1..][..k] && b[..k + 1] == [b[0]] + b[1..][..k];
      k := k + 1;
    }
  }

  lemma BeforeSpelledOut(a: Path, b: Path)
    requires Before(a, b)
    ensures |a| <= |b| && (|a| == |b| ==> SmallerPath(a, b))
  {
    if |a| == |b| {
      var k := LexFirstDifference(StringLess, a, b);
      var j := LexFirstDifference(CharLess, a[k], b[k]);
      assert SmallerString(a[k], b[k]);
    }
  }

  /**
   Where neither conventional place holds the binary, no other visible file of its name is less
   deep, and of those as deep none has the smaller name where the paths first differ.
   */
  lemma FallbackIsShallowestFirst(root: Node, bin: string, p: Path)
    requires WellNamed(root) && BinPath(root, bin).Some? && !FileAt(root, ["bin", bin]) && !FileAt(root, [bin])
    requires VisibleAt(root, p) && Named(p, bin) && p != BinPath(root, bin).value
    ensures var found := BinPath(root, bin).value;
      |found| <= |p| && (|found| == |p| ==> SmallerPath(found, p))
  {
    hide Before, BinPath, SmallerPath;
    BinPathIsAFile(root, bin);
    BeforeSpelledOut(BinPath(root, bin).value, p);
  }
}

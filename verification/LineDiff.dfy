/** Side-by-side alignment of two texts from a line-level edit script. */
module LineDiff {
  import opened Numbers
  import opened Slices
  import opened Wrappers

  /** A step of an edit script; the script comes from a diffing library and tiles both inputs. */
  datatype DiffOp =
    | Equal(oldIndex: nat, newIndex: nat, len: nat)
    | Delete(oldIndex: nat, oldLen: nat, newIndex: nat)
    | Insert(oldIndex: nat, newIndex: nat, newLen: nat)
    | Replace(oldIndex: nat, oldLen: nat, newIndex: nat, newLen: nat)
  {
    function Old(): nat {
      match this
      case Equal(_, _, len) => len
      case Delete(_, oldLen, _) => oldLen
      case Insert(_, _, _) => 0
      case Replace(_, oldLen, _, _) => oldLen
    }

    function New(): nat {
      match this
      case Equal(_, _, len) => len
      case Delete(_, _, _) => 0
      case Insert(_, _, newLen) => newLen
      case Replace(_, _, _, newLen) => newLen
    }
  }

  /** From line `i` of `a` and line `j` of `b` on, the script covers everything once, in order, truthfully. */
  predicate Tiles<Line(==)>(ops: seq<DiffOp>, a: seq<Line>, b: seq<Line>, i: nat, j: nat) {
    if ops == [] then i == |a| && j == |b| else
      var op := ops[0];
      && op.oldIndex == i && op.newIndex == j
      && i + op.Old() <= |a| && j + op.New() <= |b|
      && (op.Equal? ==> a[i..i + op.len] == b[j..j + op.len])
      && Tiles(ops[1..], a, b, i + op.Old(), j + op.New())
  }

  datatype RowKind = RowEqual | RowChange | RowInsert | RowDelete

  /** One row of the grid; a missing side is drawn as filler. */
  datatype AlignedRow = AlignedRow(a: Option<nat>, b: Option<nat>, kind: RowKind)

  function Pairs(i: nat, j: nat, n: nat, kind: RowKind): seq<AlignedRow>
    decreases n
  {
    if n == 0 then [] else [AlignedRow(Some(i), Some(j), kind)] + Pairs(i + 1, j + 1, n - 1, kind)
  }

  function LeftOnly(i: nat, n: nat): seq<AlignedRow>
    decreases n
  {
    if n == 0 then [] else [AlignedRow(Some(i), None, RowDelete)] + LeftOnly(i + 1, n - 1)
  }

  function RightOnly(j: nat, n: nat): seq<AlignedRow>
    decreases n
  {
    if n == 0 then [] else [AlignedRow(None, Some(j), RowInsert)] + RightOnly(j + 1, n - 1)
  }

  /** The rows one step contributes. */
  function RowsOf(op: DiffOp): seq<AlignedRow> {
    match op
    case Equal(i, j, len) => Pairs(i, j, len, RowEqual)
    case Delete(i, oldLen, _) => LeftOnly(i, oldLen)
    case Insert(_, j, newLen) => RightOnly(j, newLen)
    case Replace(i, oldLen, j, newLen) =>
      var paired := Min(oldLen, newLen);
      Pairs(i, j, paired, RowChange) + LeftOnly(i + paired, oldLen - paired) + RightOnly(j + paired, newLen - paired)
  }

  function Aligned(ops: seq<DiffOp>): seq<AlignedRow> {
    if ops == [] then [] else RowsOf(ops[0]) + Aligned(ops[1..])
  }

  /** `is_empty_diff`. */
  predicate IsEmptyDiff(rows: seq<AlignedRow>) {
    forall k :: 0 <= k < |rows| ==> rows[k].kind == RowEqual
  }

  // ── What each side shows ───────────────────────────────────────────────

  function OptionSeq(o: Option<nat>): seq<nat> {
    match o case Some(v) => [v] case None => []
  }

  function Lefts(rows: seq<AlignedRow>): seq<nat> {
    if rows == [] then [] else OptionSeq(rows[0].a) + Lefts(rows[1..])
  }

  function Rights(rows: seq<AlignedRow>): seq<nat> {
    if rows == [] then [] else OptionSeq(rows[0].b) + Rights(rows[1..])
  }

  function CountKind(rows: seq<AlignedRow>, kind: RowKind): nat {
    if rows == [] then 0 else (if rows[0].kind == kind then 1 else 0) + CountKind(rows[1..], kind)
  }

  function Upto(i: nat, n: nat): seq<nat>
    decreases n
  {
    if n == 0 then [] else [i] + Upto(i + 1, n - 1)
  }

  /** A row is filler on at most one side, and its kind says on which. */
  predicate KindFits(row: AlignedRow) {
    && (row.kind == RowInsert <==> row.a == None)
    && (row.kind == RowDelete <==> row.b == None)
    && (row.a.Some? || row.b.Some?)
  }

  predicate AllFit(rows: seq<AlignedRow>) {
    forall k :: 0 <= k < |rows| ==> KindFits(rows[k])
  }

  lemma SidesConcat(x: seq<AlignedRow>, y: seq<AlignedRow>)
    ensures Lefts(x + y) == Lefts(x) + Lefts(y)
    ensures Rights(x + y) == Rights(x) + Rights(y)
    ensures CountKind(x + y, RowInsert) == CountKind(x, RowInsert) + CountKind(y, RowInsert)
    ensures CountKind(x + y, RowDelete) == CountKind(x, RowDelete) + CountKind(y, RowDelete)
  {
    LeftsConcat(x, y);
    RightsConcat(x, y);
    CountConcat(x, y, RowInsert);
    CountConcat(x, y, RowDelete);
  }

  lemma SidesCons(row: AlignedRow, rest: seq<AlignedRow>)
    ensures Lefts([row] + rest) == OptionSeq(row.a) + Lefts(rest)
    ensures Rights([row] + rest) == OptionSeq(row.b) + Rights(rest)
  {
    assert ([row] + rest)[1..] == rest;
  }

  lemma {:induction false} LeftsConcat(x: seq<AlignedRow>, y: seq<AlignedRow>)
    ensures Lefts(x + y) == Lefts(x) + Lefts(y)
  {
    if x == [] {
      assert x + y == y;
    } else {
      hide Lefts, Rights;
      Cons(x);
      Assoc([x[0]], x[1..], y, []);
      SidesCons(x[0], x[1..]);
      SidesCons(x[0], x[1..] + y);
      LeftsConcat(x[1..], y);
    }
  }

  lemma {:induction false} RightsConcat(x: seq<AlignedRow>, y: seq<AlignedRow>)
    ensures Rights(x + y) == Rights(x) + Rights(y)
  {
    if x == [] {
      assert x + y == y;
    } else {
      hide Lefts, Rights;
      Cons(x);
      Assoc([x[0]], x[1..], y, []);
      SidesCons(x[0], x[1..]);
      SidesCons(x[0], x[1..] + y);
      RightsConcat(x[1..], y);
    }
  }

  lemma {:induction false} CountConcat(x: seq<AlignedRow>, y: seq<AlignedRow>, kind: RowKind)
    ensures CountKind(x + y, kind) == CountKind(x, kind) + CountKind(y, kind)
  {
    if x == [] {
      assert x + y == y;
    } else {
      assert (x + y)[0] == x[0] && (x + y)[1..] == x[1..] + y;
      CountConcat(x[1..], y, kind);
    }
  }

  lemma {:induction false} UptoConcat(i: nat, n: nat, m: nat)
    ensures Upto(i, n + m) == Upto(i, n) + Upto(i + n, m)
    decreases n
  {
    if n > 0 {
      UptoConcat(i + 1, n - 1, m);
    }
  }

  /** One more row in front: what each side shows, the counts and the fit. */
  lemma OneMoreRow(row: AlignedRow, rest: seq<AlignedRow>)
    requires KindFits(row) && AllFit(rest)
    ensures Lefts([row] + rest) == OptionSeq(row.a) + Lefts(rest) && Rights([row] + rest) == OptionSeq(row.b) + Rights(rest)
    ensures CountKind([row] + rest, RowInsert) == (if row.kind == RowInsert then 1 else 0) + CountKind(rest, RowInsert)
    ensures CountKind([row] + rest, RowDelete) == (if row.kind == RowDelete then 1 else 0) + CountKind(rest, RowDelete)
    ensures AllFit([row] + rest)
  {
    SidesCons(row, rest);
    assert ([row] + rest)[1..] == rest;
  }

  lemma {:induction false} PairsSides(i: nat, j: nat, n: nat, kind: RowKind)
    requires kind == RowEqual || kind == RowChange
    ensures Lefts(Pairs(i, j, n, kind)) == Upto(i, n) && Rights(Pairs(i, j, n, kind)) == Upto(j, n)
    ensures |Pairs(i, j, n, kind)| == n && AllFit(Pairs(i, j, n, kind))
    ensures CountKind(Pairs(i, j, n, kind), RowInsert) == 0 && CountKind(Pairs(i, j, n, kind), RowDelete) == 0
    decreases n
  {
    hide Lefts, Rights, CountKind, AllFit;
    if n == 0 {
      NothingShown(i, j);
    } else {
      PairsSides(i + 1, j + 1, n - 1, kind);
      OneMoreRow(AlignedRow(Some(i), Some(j), kind), Pairs(i + 1, j + 1, n - 1, kind));
    }
  }

  lemma {:induction false} LeftOnlySides(i: nat, n: nat)
    ensures Lefts(LeftOnly(i, n)) == Upto(i, n) && Rights(LeftOnly(i, n)) == []
    ensures |LeftOnly(i, n)| == n && AllFit(LeftOnly(i, n))
    ensures CountKind(LeftOnly(i, n), RowInsert) == 0 && CountKind(LeftOnly(i, n), RowDelete) == n
    decreases n
  {
    hide Lefts, Rights, CountKind, AllFit;
    if n == 0 {
      NothingShown(i, i);
    } else {
      LeftOnlySides(i + 1, n - 1);
      OneMoreRow(AlignedRow(Some(i), None, RowDelete), LeftOnly(i + 1, n - 1));
    }
  }

  lemma {:induction false} RightOnlySides(j: nat, n: nat)
    ensures Lefts(RightOnly(j, n)) == [] && Rights(RightOnly(j, n)) == Upto(j, n)
    ensures |RightOnly(j, n)| == n && AllFit(RightOnly(j, n))
    ensures CountKind(RightOnly(j, n), RowInsert) == n && CountKind(RightOnly(j, n), RowDelete) == 0
    decreases n
  {
    hide Lefts, Rights, CountKind, AllFit;
    if n == 0 {
      NothingShown(j, j);
    } else {
      RightOnlySides(j + 1, n - 1);
      OneMoreRow(AlignedRow(None, Some(j), RowInsert), RightOnly(j + 1, n - 1));
    }
  }

  lemma OpSides(op: DiffOp)
    ensures Lefts(RowsOf(op)) == Upto(op.oldIndex, op.Old())
    ensures Rights(RowsOf(op)) == Upto(op.newIndex, op.New())
    ensures AllFit(RowsOf(op))
    ensures |RowsOf(op)| == op.Old() + CountKind(RowsOf(op), RowInsert)
    ensures |RowsOf(op)| == op.New() + CountKind(RowsOf(op), RowDelete)
  {
    hide Lefts, Rights, CountKind, Pairs, LeftOnly, RightOnly, Upto, AllFit;
    Nothing(op.oldIndex, op.newIndex);
    match op
    case Equal(i, j, len) => PairsSides(i, j, len, RowEqual);
    case Delete(i, oldLen, _) => LeftOnlySides(i, oldLen);
    case Insert(_, j, newLen) => RightOnlySides(j, newLen);
    case Replace(i, oldLen, j, newLen) => ReplaceSides(i, oldLen, j, newLen);
  }

  lemma ReplaceSides(i: nat, oldLen: nat, j: nat, newLen: nat)
    ensures var rows := RowsOf(Replace(i, oldLen, j, newLen));
      && Lefts(rows) == Upto(i, oldLen) && Rights(rows) == Upto(j, newLen) && AllFit(rows)
      && |rows| == oldLen + CountKind(rows, RowInsert) == newLen + CountKind(rows, RowDelete)
  {
    hide RowsOf, Lefts, Rights, CountKind, Pairs, LeftOnly, RightOnly, Upto, AllFit;
    var paired := Min(oldLen, newLen);
    RowsOfReplace(i, oldLen, j, newLen, paired);
    ThreeParts(i, j, paired, oldLen - paired, newLen - paired);
    UptoConcat(i, paired, oldLen - paired);
    UptoConcat(j, paired, newLen - paired);
  }

  lemma RowsOfReplace(i: nat, oldLen: nat, j: nat, newLen: nat, p: nat)
    requires p == Min(oldLen, newLen)
    ensures RowsOf(Replace(i, oldLen, j, newLen)) ==
      Pairs(i, j, p, RowChange) + LeftOnly(i + p, oldLen - p) + RightOnly(j + p, newLen - p)
  {
    hide Pairs, LeftOnly, RightOnly;
  }

  /** `p` pairs, then `d` left-only rows, then `n` right-only rows. */
  lemma ThreeParts(i: nat, j: nat, p: nat, d: nat, n: nat)
    ensures var rows := Pairs(i, j, p, RowChange) + LeftOnly(i + p, d) + RightOnly(j + p, n);
      && Lefts(rows) == Upto(i, p) + Upto(i + p, d) && Rights(rows) == Upto(j, p) + Upto(j + p, n) && AllFit(rows)
      && |rows| == p + d + n && CountKind(rows, RowInsert) == n && CountKind(rows, RowDelete) == d
  {
    hide Lefts, Rights, CountKind, Pairs, LeftOnly, RightOnly, Upto, AllFit;
    var x, y, z := Pairs(i, j, p, RowChange), LeftOnly(i + p, d), RightOnly(j + p, n);
    PairsSides(i, j, p, RowChange);
    LeftOnlySides(i + p, d);
    RightOnlySides(j + p, n);
    SidesConcat(x, y);
    SidesConcat(x + y, z);
    FitConcat(x, y);
    FitConcat(x + y, z);
    NoneIn(Upto(i, p) + Upto(i + p, d), Upto(j, p));
  }

  lemma NoneIn<T>(s: seq<T>, t: seq<T>)
    ensures s + [] == s && t + [] == t
  {
  }

  lemma NothingShown(i: nat, j: nat)
    ensures Lefts([]) == [] == Upto(i, 0) && Rights([]) == [] == Upto(j, 0) && AllFit([])
    ensures CountKind([], RowInsert) == 0 && CountKind([], RowDelete) == 0
  {
  }

  lemma FitConcat(x: seq<AlignedRow>, y: seq<AlignedRow>)
    requires AllFit(x) && AllFit(y)
    ensures AllFit(x + y)
  {
  }

  lemma Nothing(i: nat, j: nat)
    ensures Upto(i, 0) == [] && Upto(j, 0) == []
  {
  }

  /**
   * Every line of either text is shown exactly once and in order; no row is
   * filler on both sides; rows beyond one text's lines are the other's.
   */
  lemma {:induction false} EveryLineOnce<Line>(ops: seq<DiffOp>, a: seq<Line>, b: seq<Line>, i: nat, j: nat)
    requires i <= |a| && j <= |b| && Tiles(ops, a, b, i, j)
    ensures Lefts(Aligned(ops)) == Upto(i, |a| - i)
    ensures Rights(Aligned(ops)) == Upto(j, |b| - j)
    ensures AllFit(Aligned(ops))
    ensures |Aligned(ops)| == |a| - i + CountKind(Aligned(ops), RowInsert)
    ensures |Aligned(ops)| == |b| - j + CountKind(Aligned(ops), RowDelete)
    decreases |ops|
  {
    hide Lefts, Rights, CountKind, Upto, RowsOf, AllFit;
    if ops == [] {
      NothingShown(i, j);
    } else {
      var op := ops[0];
      EveryLineOnce(ops[1..], a, b, i + op.Old(), j + op.New());
      OpSides(op);
      SidesConcat(RowsOf(op), Aligned(ops[1..]));
      FitConcat(RowsOf(op), Aligned(ops[1..]));
      UptoConcat(i, op.Old(), |a| - i - op.Old());
      UptoConcat(j, op.New(), |b| - j - op.New());
    }
  }

  // ── What rows claim about lines ────────────────────────────────────────

  /** A row marked equal joins two equal lines. */
  predicate Truthful<Line(==)>(row: AlignedRow, a: seq<Line>, b: seq<Line>) {
    && (row.a.Some? ==> row.a.value < |a|)
    && (row.b.Some? ==> row.b.value < |b|)
    && (row.kind == RowEqual ==> row.a.Some? && row.b.Some? && a[row.a.value] == b[row.b.value])
  }

  predicate AllTruthful<Line(==)>(rows: seq<AlignedRow>, a: seq<Line>, b: seq<Line>) {
    forall k :: 0 <= k < |rows| ==> Truthful(rows[k], a, b)
  }

  lemma TruthfulConcat<Line>(x: seq<AlignedRow>, y: seq<AlignedRow>, a: seq<Line>, b: seq<Line>)
    requires AllTruthful(x, a, b) && AllTruthful(y, a, b)
    ensures AllTruthful(x + y, a, b)
  {
  }

  lemma {:induction false} PairsTruthful<Line>(i: nat, j: nat, n: nat, kind: RowKind, a: seq<Line>, b: seq<Line>)
    requires i + n <= |a| && j + n <= |b| && (kind == RowEqual ==> a[i..i + n] == b[j..j + n])
    ensures AllTruthful(Pairs(i, j, n, kind), a, b)
    decreases n
  {
    if n > 0 {
      assert kind == RowEqual ==> a[i] == a[i..i + n][0] == b[j..j + n][0] == b[j];
      assert kind == RowEqual ==> a[i + 1..i + n] == a[i..i + n][1..] && b[j + 1..j + n] == b[j..j + n][1..];
      PairsTruthful(i + 1, j + 1, n - 1, kind, a, b);
    }
  }

  lemma {:induction false} OneSidedTruthful<Line>(i: nat, n: nat, a: seq<Line>, b: seq<Line>)
    ensures i + n <= |a| ==> AllTruthful(LeftOnly(i, n), a, b)
    ensures i + n <= |b| ==> AllTruthful(RightOnly(i, n), a, b)
    decreases n
  {
    if n > 0 {
      OneSidedTruthful(i + 1, n - 1, a, b);
    }
  }

  lemma OpTruthful<Line>(op: DiffOp, a: seq<Line>, b: seq<Line>)
    requires op.oldIndex + op.Old() <= |a| && op.newIndex + op.New() <= |b|
    requires op.Equal? ==> a[op.oldIndex..op.oldIndex + op.len] == b[op.newIndex..op.newIndex + op.len]
    ensures AllTruthful(RowsOf(op), a, b)
  {
    hide AllTruthful, Pairs, LeftOnly, RightOnly;
    match op
    case Equal(i, j, len) => PairsTruthful(i, j, len, RowEqual, a, b);
    case Delete(i, oldLen, _) => OneSidedTruthful(i, oldLen, a, b);
    case Insert(_, j, newLen) => OneSidedTruthful(j, newLen, a, b);
    case Replace(i, oldLen, j, newLen) =>
      var paired := Min(oldLen, newLen);
      var x, y, z := Pairs(i, j, paired, RowChange), LeftOnly(i + paired, oldLen - paired), RightOnly(j + paired, newLen - paired);
      PairsTruthful(i, j, paired, RowChange, a, b);
      OneSidedTruthful(i + paired, oldLen - paired, a, b);
      OneSidedTruthful(j + paired, newLen - paired, a, b);
      TruthfulConcat(x, y, a, b);
      TruthfulConcat(x + y, z, a, b);
  }

  lemma {:induction false} RowsAreTruthful<Line>(ops: seq<DiffOp>, a: seq<Line>, b: seq<Line>, i: nat, j: nat)
    requires i <= |a| && j <= |b| && Tiles(ops, a, b, i, j)
    ensures AllTruthful(Aligned(ops), a, b)
    decreases |ops|
  {
    if ops != [] {
      var op := ops[0];
      RowsAreTruthful(ops[1..], a, b, i + op.Old(), j + op.New());
      OpTruthful(op, a, b);
      TruthfulConcat(RowsOf(op), Aligned(ops[1..]), a, b);
    }
  }

  /** A step that neither removes nor adds a line. */
  predicate Idle(op: DiffOp) {
    op.Equal? || (op.Old() == 0 && op.New() == 0)
  }

  lemma {:induction false} EmptyDiffMeansIdle(ops: seq<DiffOp>)
    ensures IsEmptyDiff(Aligned(ops)) <==> forall k :: 0 <= k < |ops| ==> Idle(ops[k])
  {
    if ops != [] {
      hide IsEmptyDiff, RowsOf, Idle;
      EmptyDiffMeansIdle(ops[1..]);
      OpEmptyDiff(ops[0]);
      EmptyDiffConcat(RowsOf(ops[0]), Aligned(ops[1..]));
      assert forall k | 1 <= k < |ops| :: ops[k] == ops[1..][k - 1];
      assert forall k | 0 <= k < |ops| - 1 :: ops[1..][k] == ops[k + 1];
    } else {
      assert Aligned([]) == [];
    }
  }

  lemma {:induction false} IdleMeansEqual<Line>(ops: seq<DiffOp>, a: seq<Line>, b: seq<Line>, i: nat, j: nat)
    requires i <= |a| && j <= |b| && Tiles(ops, a, b, i, j)
    requires forall k :: 0 <= k < |ops| ==> Idle(ops[k])
    ensures a[i..] == b[j..]
    decreases |ops|
  {
    if ops != [] {
      var op := ops[0];
      assert Idle(op);
      var n := op.Old();
      assert n == op.New() && a[i..i + n] == b[j..j + n];
      IdleMeansEqual(ops[1..], a, b, i + n, j + n);
      SliceAndRest(a, i, n);
      SliceAndRest(b, j, n);
    }
  }

  lemma SliceAndRest<T>(s: seq<T>, i: nat, n: nat)
    requires i + n <= |s|
    ensures s[i..] == s[i..i + n] + s[i + n..]
  {
  }

  /** The diff is empty exactly when no step of the script removes or adds a line; then the texts are the same. */
  lemma EmptyDiffMeansEqual<Line>(ops: seq<DiffOp>, a: seq<Line>, b: seq<Line>)
    requires Tiles(ops, a, b, 0, 0)
    ensures IsEmptyDiff(Aligned(ops)) <==> forall k :: 0 <= k < |ops| ==> Idle(ops[k])
    ensures IsEmptyDiff(Aligned(ops)) ==> a == b
  {
    EmptyDiffMeansIdle(ops);
    if IsEmptyDiff(Aligned(ops)) {
      IdleMeansEqual(ops, a, b, 0, 0);
      assert a[0..] == a && b[0..] == b;
    }
  }

  lemma EmptyDiffConcat(x: seq<AlignedRow>, y: seq<AlignedRow>)
    ensures IsEmptyDiff(x + y) <==> IsEmptyDiff(x) && IsEmptyDiff(y)
  {
    assert forall k | 0 <= k < |y| :: (x + y)[|x| + k] == y[k];
    assert forall k | 0 <= k < |x| :: (x + y)[k] == x[k];
  }

  lemma OpEmptyDiff(op: DiffOp)
    ensures IsEmptyDiff(RowsOf(op)) <==> Idle(op)
  {
    if op.Equal? {
      EqualPairs(op.oldIndex, op.newIndex, op.len);
    } else if op.Old() > 0 || op.New() > 0 {
      OpSides(op);
      assert RowsOf(op) != [];
      assert RowsOf(op)[0].kind != RowEqual;
    }
  }

  lemma {:induction false} EqualPairs(i: nat, j: nat, n: nat)
    ensures IsEmptyDiff(Pairs(i, j, n, RowEqual))
    decreases n
  {
    if n > 0 {
      EqualPairs(i + 1, j + 1, n - 1);
    }
  }

  // ── The loops ──────────────────────────────────────────────────────────

  lemma {:induction false} PairsSnoc(i: nat, j: nat, n: nat, kind: RowKind)
    ensures Pairs(i, j, n + 1, kind) == Pairs(i, j, n, kind) + [AlignedRow(Some(i + n), Some(j + n), kind)]
    decreases n
  {
    if n > 0 {
      PairsSnoc(i + 1, j + 1, n - 1, kind);
    }
  }

  lemma {:induction false} OneSidedSnoc(i: nat, n: nat)
    ensures LeftOnly(i, n + 1) == LeftOnly(i, n) + [AlignedRow(Some(i + n), None, RowDelete)]
    ensures RightOnly(i, n + 1) == RightOnly(i, n) + [AlignedRow(None, Some(i + n), RowInsert)]
    decreases n
  {
    if n > 0 {
      OneSidedSnoc(i + 1, n - 1);
    }
  }

  lemma {:induction false} AlignedSnoc(ops: seq<DiffOp>, op: DiffOp)
    ensures Aligned(ops + [op]) == Aligned(ops) + RowsOf(op)
  {
    if ops == [] {
      assert Aligned([op]) == RowsOf(op) + Aligned([op][1..]);
    } else {
      assert (ops + [op])[1..] == ops[1..] + [op];
      AlignedSnoc(ops[1..], op);
    }
  }

  /** `align_lines`, over the library's edit script. */
  method AlignLines(ops: seq<DiffOp>) returns (rows: seq<AlignedRow>)
    ensures rows == Aligned(ops)
  {
    rows := [];
    for k := 0 to |ops|
      invariant rows == Aligned(ops[..k])
    {
      var more := OpRows(ops[k]);
      AlignedSnoc(ops[..k], ops[k]);
      assert ops[..k + 1] == ops[..k] + [ops[k]];
      rows := rows + more;
    }
    assert ops[..|ops|] == ops;
  }

  method OpRows(op: DiffOp) returns (rows: seq<AlignedRow>)
    ensures rows == RowsOf(op)
  {
    rows := [];
    match op {
      case Equal(oldIndex, newIndex, len) =>
        for i := 0 to len
          invariant rows == Pairs(oldIndex, newIndex, i, RowEqual)
        {
          PairsSnoc(oldIndex, newIndex, i, RowEqual);
          rows := rows + [AlignedRow(Some(oldIndex + i), Some(newIndex + i), RowEqual)];
        }
      case Delete(oldIndex, oldLen, _) =>
        for i := 0 to oldLen
          invariant rows == LeftOnly(oldIndex, i)
        {
          OneSidedSnoc(oldIndex, i);
          rows := rows + [AlignedRow(Some(oldIndex + i), None, RowDelete)];
        }
      case Insert(_, newIndex, newLen) =>
        for i := 0 to newLen
          invariant rows == RightOnly(newIndex, i)
        {
          OneSidedSnoc(newIndex, i);
          rows := rows + [AlignedRow(None, Some(newIndex + i), RowInsert)];
        }
      case Replace(oldIndex, oldLen, newIndex, newLen) =>
        var paired := Min(oldLen, newLen);
        for i := 0 to paired
          invariant rows == Pairs(oldIndex, newIndex, i, RowChange)
        {
          PairsSnoc(oldIndex, newIndex, i, RowChange);
          rows := rows + [AlignedRow(Some(oldIndex + i), Some(newIndex + i), RowChange)];
        }
        for i := paired to oldLen
          invariant rows == Pairs(oldIndex, newIndex, paired, RowChange) + LeftOnly(oldIndex + paired, i - paired)
        {
          OneSidedSnoc(oldIndex + paired, i - paired);
          rows := rows + [AlignedRow(Some(oldIndex + i), None, RowDelete)];
        }
        for i := paired to newLen
          invariant rows == Pairs(oldIndex, newIndex, paired, RowChange)
            + LeftOnly(oldIndex + paired, oldLen - paired) + RightOnly(newIndex + paired, i - paired)
        {
          OneSidedSnoc(newIndex + paired, i - paired);
          rows := rows + [AlignedRow(None, Some(newIndex + i), RowInsert)];
        }
    }
  }

  // ── Which line stands beside which ─────────────────────────────────────

  /** Row `k` of a step: the step's line `k` of either text, as far as it has one. */
  predicate IsRowOf(op: DiffOp, k: nat, row: AlignedRow) {
    && row.a == (if k < op.Old() then Some(op.oldIndex + k) else None)
    && row.b == (if k < op.New() then Some(op.newIndex + k) else None)
    && (row.a.Some? && row.b.Some? ==> row.kind == if op.Equal? then RowEqual else RowChange)
  }

  lemma {:induction false} PairsAt(i: nat, j: nat, n: nat, kind: RowKind)
    ensures |Pairs(i, j, n, kind)| == n
    ensures forall k :: 0 <= k < n ==> Pairs(i, j, n, kind)[k] == AlignedRow(Some(i + k), Some(j + k), kind)
    decreases n
  {
    if n > 0 {
      PairsAt(i + 1, j + 1, n - 1, kind);
    }
  }

  lemma {:induction false} OneSidedAt(i: nat, n: nat)
    ensures |LeftOnly(i, n)| == n && |RightOnly(i, n)| == n
    ensures forall k :: 0 <= k < n ==> LeftOnly(i, n)[k] == AlignedRow(Some(i + k), None, RowDelete)
    ensures forall k :: 0 <= k < n ==> RightOnly(i, n)[k] == AlignedRow(None, Some(i + k), RowInsert)
    decreases n
  {
    if n > 0 {
      OneSidedAt(i + 1, n - 1);
    }
  }

  /**
   A step pairs its lines up from the top: its rows are as many as the longer side has lines, and
   line `k` of one side stands beside line `k` of the other, or beside filler.
   */
  lemma StepPairsUp(op: DiffOp, k: nat)
    ensures |RowsOf(op)| == if op.Old() <= op.New() then op.New() else op.Old()
    ensures k < |RowsOf(op)| ==> IsRowOf(op, k, RowsOf(op)[k])
  {
    hide Pairs, LeftOnly, RightOnly;
    match op
    case Equal(i, j, len) => PairsAt(i, j, len, RowEqual);
    case Delete(i, oldLen, _) => OneSidedAt(i, oldLen);
    case Insert(_, j, newLen) => OneSidedAt(j, newLen);
    case Replace(i, oldLen, j, newLen) =>
      var paired := Min(oldLen, newLen);
      PairsAt(i, j, paired, RowChange);
      OneSidedAt(i + paired, oldLen - paired);
      OneSidedAt(j + paired, newLen - paired);
  }

  /** The rows of the steps before a step, those of the step, and those of the steps after it. */
  lemma {:induction false} StepsInOrder(ops: seq<DiffOp>, n: nat)
    requires n < |ops|
    ensures Aligned(ops) == Aligned(ops[..n]) + RowsOf(ops[n]) + Aligned(ops[n + 1..])
  {
    hide RowsOf;
    if n > 0 {
      StepsInOrder(ops[1..], n - 1);
      assert ops[..n] == [ops[0]] + ops[1..][..n - 1];
      assert ops[1..][n..] == ops[n + 1..];
      Assoc(RowsOf(ops[0]), Aligned(ops[1..][..n - 1]), RowsOf(ops[n]), Aligned(ops[n + 1..]));
    } else {
      assert [] + RowsOf(ops[0]) == RowsOf(ops[0]);
    }
  }
}

/** Text ranges given by rows and byte columns, as `nvim_buf_get_text` and `nvim_buf_set_text` use them. */
module TextRange {
  import opened ByteStrings
  import opened Slices
  import opened Rows
  import opened Utf8
  import opened Splice

  // ── Snapping to characters ─────────────────────────────────────────────

  /** The last boundary at or below `i`. */
  function SnapDown(b: Bytes, i: nat): nat {
    if IsBoundary(b, i) then i else SnapDown(b, i - 1)
  }

  /** The first boundary at or above `i`. */
  function SnapUp(b: Bytes, i: nat): nat
    requires i <= |b|
    decreases |b| - i
  {
    if IsBoundary(b, i) then i else SnapUp(b, i + 1)
  }

  lemma {:induction false} SnapDownIsGreatest(b: Bytes, i: nat)
    ensures SnapDown(b, i) <= i && IsBoundary(b, SnapDown(b, i))
    ensures forall j :: SnapDown(b, i) < j <= i ==> !IsBoundary(b, j)
  {
    if !IsBoundary(b, i) {
      SnapDownIsGreatest(b, i - 1);
    }
  }

  lemma {:induction false} SnapUpIsLeast(b: Bytes, i: nat)
    requires i <= |b|
    ensures i <= SnapUp(b, i) <= |b| && IsBoundary(b, SnapUp(b, i))
    ensures forall j :: i <= j < SnapUp(b, i) ==> !IsBoundary(b, j)
    decreases |b| - i
  {
    if !IsBoundary(b, i) {
      SnapUpIsLeast(b, i + 1);
    }
  }

  /** `outer[at..at + |inner|]` is `inner`, and characters do not straddle its ends. */
  predicate Sits(outer: Bytes, at: nat, inner: Bytes) {
    && at + |inner| <= |outer| && outer[at..at + |inner|] == inner
    && IsBoundary(outer, at) && IsBoundary(outer, at + |inner|)
  }

  lemma BoundariesShift(outer: Bytes, at: nat, inner: Bytes, i: nat)
    requires Sits(outer, at, inner) && i <= |inner|
    ensures IsBoundary(inner, i) <==> IsBoundary(outer, at + i)
  {
    if 0 < i < |inner| {
      assert outer[at..at + |inner|][i] == outer[at + i];
    }
  }

  lemma {:induction false} SnapDownShifts(outer: Bytes, at: nat, inner: Bytes, i: nat)
    requires Sits(outer, at, inner) && i <= |inner|
    ensures SnapDown(outer, at + i) == at + SnapDown(inner, i)
  {
    BoundariesShift(outer, at, inner, i);
    if !IsBoundary(inner, i) {
      SnapDownShifts(outer, at, inner, i - 1);
    }
  }

  lemma {:induction false} SnapUpShifts(outer: Bytes, at: nat, inner: Bytes, i: nat)
    requires Sits(outer, at, inner) && i <= |inner|
    ensures SnapUp(outer, at + i) == at + SnapUp(inner, i)
    decreases |inner| - i
  {
    BoundariesShift(outer, at, inner, i);
    if !IsBoundary(inner, i) {
      SnapUpShifts(outer, at, inner, i + 1);
    }
  }

  /** A row sits in its text without cutting a character: snapping in the row is snapping in the text. */
  lemma RowSitsInText(t: Bytes, k: nat)
    requires ValidUtf8(t) && k < |Split(t)|
    ensures Sits(t, Start(t, k), Split(t)[k])
  {
    hide Split, Start, ValidUtf8;
    RowSits(t, k);
    StartIsBoundary(t, k);
    if k + 1 < |Split(t)| {
      AsciiIsBoundary(t, Start(t, k) + |Split(t)[k]|);
    }
  }

  /** Every row of a valid text is valid. */
  lemma RowsAreValid(t: Bytes)
    requires ValidUtf8(t)
    ensures forall k :: 0 <= k < |Split(t)| ==> ValidUtf8(Split(t)[k])
  {
    hide Split, ValidUtf8, Start, IsBoundary;
    forall k | 0 <= k < |Split(t)| ensures ValidUtf8(Split(t)[k]) {
      var s, row := Start(t, k), Split(t)[k];
      RowSitsInText(t, k);
      ValidCut(t, s + |row|);
      ValidPrefix(t, s, |row|);
      ValidCut(t[..s + |row|], s);
      assert t[..s + |row|][s..] == t[s..s + |row|];
    }
  }

  lemma ValidPrefix(t: Bytes, s: nat, n: nat)
    requires s + n <= |t| && IsBoundary(t, s)
    ensures IsBoundary(t[..s + n], s)
  {
  }

  // ── Ranges ─────────────────────────────────────────────────────────────

  /** A resolved range: rows in the text, columns in their rows, start not after end. */
  datatype Range = Range(startRow: nat, startCol: nat, endRow: nat, endCol: nat)

  predicate InText(t: Bytes, r: Range) {
    && r.startRow <= r.endRow < |Split(t)|
    && r.startCol <= |Split(t)[r.startRow]| && r.endCol <= |Split(t)[r.endRow]|
    && (r.startRow == r.endRow ==> r.startCol <= r.endCol)
  }

  function RawStart(t: Bytes, r: Range): nat {
    Start(t, r.startRow) + r.startCol
  }

  function RawEnd(t: Bytes, r: Range): nat {
    Start(t, r.endRow) + r.endCol
  }

  lemma RawInOrder(t: Bytes, r: Range)
    requires InText(t, r)
    ensures RawStart(t, r) <= RawEnd(t, r) <= |t|
  {
    hide Split, Start;
    RowSits(t, r.startRow);
    RowSits(t, r.endRow);
    if r.startRow < r.endRow {
      StartsInOrder(t, r.startRow, r.endRow);
    }
  }

  /** The byte span a range stands for: its start pulled down and its end pushed up to whole characters. */
  function SpanStart(t: Bytes, r: Range): nat {
    SnapDown(t, RawStart(t, r))
  }

  function SpanEnd(t: Bytes, r: Range): nat
    requires InText(t, r)
  {
    RawInOrder(t, r);
    SnapUp(t, RawEnd(t, r))
  }

  /** The span is never inverted, so the later check for that cannot fire. */
  lemma SpanIsNeverInverted(t: Bytes, r: Range)
    requires InText(t, r)
    ensures SpanStart(t, r) <= RawStart(t, r) <= RawEnd(t, r) <= SpanEnd(t, r) <= |t|
    ensures IsBoundary(t, SpanStart(t, r)) && IsBoundary(t, SpanEnd(t, r))
  {
    RawInOrder(t, r);
    SnapDownIsGreatest(t, RawStart(t, r));
    SnapUpIsLeast(t, RawEnd(t, r));
  }

  // ── Reading ────────────────────────────────────────────────────────────

  /** The part of row `k` inside the range, snapped within the row. */
  function RowPart(t: Bytes, r: Range, k: nat): Bytes
    requires InText(t, r) && r.startRow <= k <= r.endRow
  {
    var row := Split(t)[k];
    var lo := SnapDown(row, if k == r.startRow then r.startCol else 0);
    var hi := SnapUp(row, if k == r.endRow then r.endCol else |row|);
    SnapDownIsGreatest(row, if k == r.startRow then r.startCol else 0);
    SnapUpIsLeast(row, if k == r.endRow then r.endCol else |row|);
    row[lo..hi]
  }

  /** What `nvim_buf_get_text` answers for rows `k` onwards. */
  function PartsFrom(t: Bytes, r: Range, k: nat): seq<Bytes>
    requires InText(t, r) && r.startRow <= k <= r.endRow + 1
    decreases r.endRow + 1 - k
  {
    if k > r.endRow then [] else [RowPart(t, r, k)] + PartsFrom(t, r, k + 1)
  }

  function GetText(t: Bytes, r: Range): seq<Bytes>
    requires InText(t, r)
  {
    PartsFrom(t, r, r.startRow)
  }

  /** Where the part of row `k` begins in the text. */
  function PartStart(t: Bytes, r: Range, k: nat): nat
    requires InText(t, r)
  {
    if k == r.startRow then SpanStart(t, r) else Start(t, k)
  }

  lemma WholeRow(b: Bytes)
    ensures SnapDown(b, 0) == 0 && SnapUp(b, |b|) == |b|
  {
  }

  /** One part of the answer is the stretch of text from its start to the end of its row or of the span. */
  lemma RowPartIsStretch(t: Bytes, r: Range, k: nat)
    requires ValidUtf8(t) && InText(t, r) && r.startRow <= k <= r.endRow
    ensures var from := PartStart(t, r, k);
      var to := if k == r.endRow then SpanEnd(t, r) else Start(t, k) + |Split(t)[k]|;
      from <= to <= |t| && RowPart(t, r, k) == t[from..to]
  {
    hide Split, Start, ValidUtf8, Sits, IsBoundary, SnapDown, SnapUp, SpanStart, SpanEnd;
    var row, at := Split(t)[k], Start(t, k);
    var c := if k == r.startRow then r.startCol else 0;
    var d := if k == r.endRow then r.endCol else |row|;
    PartEnds(t, r, k);
    RowSits(t, k);
    SnapDownIsGreatest(row, c);
    SnapUpIsLeast(row, d);
    SliceOfSlice(t, at, at + |row|, SnapDown(row, c), SnapUp(row, d));
  }

  lemma PartEnds(t: Bytes, r: Range, k: nat)
    requires ValidUtf8(t) && InText(t, r) && r.startRow <= k <= r.endRow
    ensures PartStart(t, r, k) == Start(t, k) + SnapDown(Split(t)[k], if k == r.startRow then r.startCol else 0)
    ensures k == r.endRow ==> SpanEnd(t, r) == Start(t, k) + SnapUp(Split(t)[k], r.endCol)
    ensures k < r.endRow ==> SnapUp(Split(t)[k], |Split(t)[k]|) == |Split(t)[k]|
  {
    hide Split, Start, ValidUtf8, Sits, IsBoundary, SnapDown, SnapUp;
    var row, at := Split(t)[k], Start(t, k);
    RowSitsInText(t, k);
    WholeRow(row);
    if k == r.startRow {
      SnapDownShifts(t, at, row, r.startCol);
    }
    if k == r.endRow {
      SnapUpShifts(t, at, row, r.endCol);
    }
  }

  lemma {:induction false} JoinedParts(t: Bytes, r: Range, k: nat)
    requires ValidUtf8(t) && InText(t, r) && r.startRow <= k <= r.endRow
    ensures PartStart(t, r, k) <= SpanEnd(t, r) <= |t|
    ensures Join(PartsFrom(t, r, k)) == t[PartStart(t, r, k)..SpanEnd(t, r)]
    decreases r.endRow - k
  {
    hide Split, Start, Join, ValidUtf8, RowPart, SpanStart, SpanEnd;
    RowPartIsStretch(t, r, k);
    var from, end := PartStart(t, r, k), SpanEnd(t, r);
    JoinCons(RowPart(t, r, k), PartsFrom(t, r, k + 1));
    if k < r.endRow {
      JoinedParts(t, r, k + 1);
      RowSits(t, k);
      var stop := Start(t, k) + |Split(t)[k]|;
      Rejoin(t, from, stop, end);
    }
  }

  lemma Rejoin(t: Bytes, from: nat, stop: nat, end: nat)
    requires from <= stop < |t| && stop + 1 <= end <= |t| && t[stop] == NL
    ensures t[from..stop] + [NL] + t[stop + 1..end] == t[from..end]
  {
  }

  /** Joined, the answer is exactly the bytes of the span. */
  lemma GetTextIsTheSpan(t: Bytes, r: Range)
    requires ValidUtf8(t) && InText(t, r)
    ensures SpanStart(t, r) <= SpanEnd(t, r) <= |t|
    ensures Join(GetText(t, r)) == t[SpanStart(t, r)..SpanEnd(t, r)]
  {
    JoinedParts(t, r, r.startRow);
  }

  lemma RowPartOnOneLine(t: Bytes, r: Range, k: nat)
    requires InText(t, r) && r.startRow <= k <= r.endRow
    ensures NL !in RowPart(t, r, k)
  {
    hide Split, SnapDown, SnapUp;
    var row := Split(t)[k];
    SplitIsNewlineFree(t);
    SnapDownIsGreatest(row, if k == r.startRow then r.startCol else 0);
    SnapUpIsLeast(row, if k == r.endRow then r.endCol else |row|);
    assert NL !in row;
  }

  lemma {:induction false} PartsShape(t: Bytes, r: Range, k: nat)
    requires InText(t, r) && r.startRow <= k <= r.endRow + 1
    ensures |PartsFrom(t, r, k)| == r.endRow + 1 - k
    ensures NewlineFree(PartsFrom(t, r, k))
    decreases r.endRow + 1 - k
  {
    hide Split, RowPart;
    if k <= r.endRow {
      PartsShape(t, r, k + 1);
      RowPartOnOneLine(t, r, k);
    }
  }

  /** One newline-free string per spanned row: the answer is the span, split. */
  lemma GetTextSplitsTheSpan(t: Bytes, r: Range)
    requires ValidUtf8(t) && InText(t, r)
    ensures SpanStart(t, r) <= SpanEnd(t, r) <= |t|
    ensures GetText(t, r) == Split(t[SpanStart(t, r)..SpanEnd(t, r)])
    ensures |GetText(t, r)| == r.endRow - r.startRow + 1
  {
    hide Split, Join, PartsFrom, SpanStart, SpanEnd;
    GetTextIsTheSpan(t, r);
    PartsShape(t, r, r.startRow);
    SplitOfJoin(GetText(t, r));
  }

  // ── Writing ────────────────────────────────────────────────────────────

  function SetText(t: Bytes, r: Range, lines: seq<Bytes>): Bytes
    requires InText(t, r)
  {
    SpanIsNeverInverted(t, r);
    t[..SpanStart(t, r)] + Join(lines) + t[SpanEnd(t, r)..]
  }

  /** Writing back what was read is the identity, mid-character positions included. */
  lemma WriteBackText(t: Bytes, r: Range)
    requires ValidUtf8(t) && InText(t, r)
    ensures SetText(t, r, GetText(t, r)) == t
  {
    hide Split, Join, PartsFrom, SpanStart, SpanEnd, ValidUtf8;
    GetTextIsTheSpan(t, r);
    var a, b := SpanStart(t, r), SpanEnd(t, r);
    assert t == t[..a] + t[a..b] + t[b..];
  }

  /** Bytes outside the snapped range are untouched; the slices do not panic; the result is UTF-8. */
  lemma SetTextIsLocal(t: Bytes, r: Range, lines: seq<Bytes>)
    requires ValidUtf8(t) && InText(t, r)
    requires forall i :: 0 <= i < |lines| ==> ValidUtf8(lines[i])
    ensures var a, b, u := SpanStart(t, r), SpanEnd(t, r), SetText(t, r, lines);
      && IsBoundary(t, a) && IsBoundary(t, b) && a <= b <= |t|
      && |u| == |t| - (b - a) + |Join(lines)|
      && u[..a] == t[..a] && u[a..a + |Join(lines)|] == Join(lines) && u[a + |Join(lines)|..] == t[b..]
      && ValidUtf8(u) && IsBoundary(u, a) && IsBoundary(u, a + |Join(lines)|)
  {
    hide Split, Join, SpanStart, SpanEnd, ValidUtf8, IsBoundary, InText;
    SpanIsNeverInverted(t, r);
    var a, b, j := SpanStart(t, r), SpanEnd(t, r), Join(lines);
    JoinIsValid(lines);
    ValidCut(t, a);
    ValidCut(t, b);
    ValidConcat(j, t[b..]);
    ValidConcat(t[..a], j);
    ValidConcat(t[..a] + j, t[b..]);
    ValidPrefixBoundary(t[..a] + j, t[b..]);
    ValidPrefixBoundary(t[..a], j + t[b..]);
    assert t[..a] + j + t[b..] == t[..a] + (j + t[b..]);
  }

  /** The rows a text splits into when it is cut out of a bigger one. */
  lemma SplitOfConcat(a: Bytes, m: Bytes, b: Bytes)
    ensures Split(a) != [] && Split(b) != []
    ensures var x, y := Split(a), Split(b);
      Split(a + m + b) == x[..|x| - 1] + Split(x[|x| - 1] + m + y[0]) + y[1..]
  {
    hide Split, Join, Ended, NewlineFree;
    SplitSize(a);
    SplitSize(b);
    var x, y := Split(a), Split(b);
    var front, last, first, back := x[..|x| - 1], x[|x| - 1], y[0], y[1..];
    JoinOfSplit(a);
    JoinOfSplit(b);
    SplitIsNewlineFree(a);
    SplitIsNewlineFree(b);
    SubrowsNewlineFree(x, 0, |x| - 1);
    SubrowsNewlineFree(y, 1, |y|);
    assert front == x[0..|x| - 1] && back == y[1..|y|];
    assert x == front + [last] && y == [first] + back;
    JoinConcat(front, [last]);
    JoinCons(last, []);
    JoinCons(first, back);
    assert [last] + [] == [last];
    if back == [] {
      SplitAfterEnded(front, last + m + first);
      Regroup(Ended(front), last, m, first, []);
      assert first + [] == first && last + m + first + [] == last + m + first;
    } else {
      SplitSandwich(front, last + m + first, back);
      Regroup(Ended(front), last, m, first, [NL] + Join(back));
      Assoc(last + m + first, [NL], Join(back), []);
      Assoc(first, [NL], Join(back), []);
    }
  }

  /** The rows of a cut text: the rows before the cut, and the row it falls in, shortened. */
  lemma CutRows(t: Bytes, k: nat, c: nat)
    requires k < |Split(t)| && c <= |Split(t)[k]|
    ensures Start(t, k) + c <= |t|
    ensures Split(t[..Start(t, k) + c]) == Split(t)[..k] + [Split(t)[k][..c]]
    ensures Split(t[Start(t, k) + c..]) == [Split(t)[k][c..]] + Split(t)[k + 1..]
  {
    hide Split, Start, Join, Ended, NewlineFree;
    var rows, s := Split(t), Start(t, k);
    RowSits(t, k);
    PiecesOfRow(t, rows, k, c);
    HeadOfCut(t, k, c);
    SplitAfterEnded(rows[..k], rows[k][..c]);
    SplitLine(rows[k][..c]);
    SplitLine(rows[k][c..]);
    TailOfCut(t, k, c);
    if k + 1 < |rows| {
      SplitAtNewline(rows[k][c..], Join(rows[k + 1..]));
      SplitOfJoin(rows[k + 1..]);
    } else {
      assert [rows[k][c..]] + rows[k + 1..] == [rows[k][c..]];
    }
  }

  lemma HeadOfCut(t: Bytes, k: nat, c: nat)
    requires k < |Split(t)| && c <= |Split(t)[k]|
    ensures Start(t, k) + c <= |t|
    ensures t[..Start(t, k) + c] == Ended(Split(t)[..k]) + Split(t)[k][..c]
    ensures NewlineFree(Split(t)[..k])
  {
    hide Split, Start, Join, Ended, NewlineFree;
    var s, row := Start(t, k), Split(t)[k];
    RowSits(t, k);
    OuterParts(t, k, k);
    SliceOfSlice(t, s, s + |row|, 0, c);
    assert row[0..c] == row[..c];
    assert t[..s + c] == t[..s] + t[s..s + c];
  }

  lemma TailOfCut(t: Bytes, k: nat, c: nat)
    requires k < |Split(t)| && c <= |Split(t)[k]|
    ensures Start(t, k) + c <= |t|
    ensures t[Start(t, k) + c..] ==
      if k + 1 < |Split(t)| then Split(t)[k][c..] + [NL] + Join(Split(t)[k + 1..]) else Split(t)[k][c..]
  {
    hide Split, Start, Join, Ended, NewlineFree;
    var s, rows := Start(t, k), Split(t);
    var row := rows[k];
    RowSits(t, k);
    StartCutsRows(t, k);
    JoinCons(row, rows[k + 1..]);
    Cons(rows[k..]);
    assert rows[k..][0] == row && rows[k..][1..] == rows[k + 1..];
    DropOfDrop(t, s, c);
    if k + 1 < |rows| {
      DropOfConcat(row, [NL], Join(rows[k + 1..]), c);
    }
  }

  lemma DropOfConcat<T>(a: seq<T>, b: seq<T>, d: seq<T>, c: nat)
    requires c <= |a|
    ensures (a + b + d)[c..] == a[c..] + b + d
  {
  }

  lemma PiecesOfRow(t: Bytes, rows: seq<Bytes>, k: nat, c: nat)
    requires rows == Split(t) && k < |rows| && c <= |rows[k]|
    ensures NL !in rows[k][..c] && NL !in rows[k][c..]
    ensures NewlineFree(rows[k + 1..])
  {
    hide Split;
    SplitIsNewlineFree(t);
    assert NL !in rows[k];
    SubrowsNewlineFree(rows, k + 1, |rows|);
  }

  /** The range pulled to whole characters, row by row. */
  function Snapped(t: Bytes, r: Range): Range
    requires InText(t, r)
  {
    Range(r.startRow, SnapDown(Split(t)[r.startRow], r.startCol), r.endRow, SnapUp(Split(t)[r.endRow], r.endCol))
  }

  lemma SnappedIsInText(t: Bytes, r: Range)
    requires ValidUtf8(t) && InText(t, r)
    ensures InText(t, Snapped(t, r))
    ensures RawStart(t, Snapped(t, r)) == SpanStart(t, r) && RawEnd(t, Snapped(t, r)) == SpanEnd(t, r)
  {
    hide Split, Start, ValidUtf8, Sits, IsBoundary;
    RowSitsInText(t, r.startRow);
    RowSitsInText(t, r.endRow);
    SnapDownShifts(t, Start(t, r.startRow), Split(t)[r.startRow], r.startCol);
    SnapUpShifts(t, Start(t, r.endRow), Split(t)[r.endRow], r.endCol);
    SnapDownIsGreatest(Split(t)[r.startRow], r.startCol);
    SnapUpIsLeast(Split(t)[r.endRow], r.endCol);
  }

  /** As a list edit: what is left of the first and last row closes around the new text. */
  lemma SetTextRows(t: Bytes, r: Range, lines: seq<Bytes>)
    requires ValidUtf8(t) && InText(t, r)
    ensures var rows, p := Split(t), Snapped(t, r);
      && p.startCol <= |rows[p.startRow]| && p.endCol <= |rows[p.endRow]|
      && Split(SetText(t, r, lines)) ==
           rows[..r.startRow]
           + Split(rows[r.startRow][..p.startCol] + Join(lines) + rows[r.endRow][p.endCol..])
           + rows[r.endRow + 1..]
  {
    hide Split, Start, Join, ValidUtf8, SnapDown, SnapUp;
    var rows, p := Split(t), Snapped(t, r);
    SnappedIsInText(t, r);
    SpanIsNeverInverted(t, r);
    CutRows(t, p.startRow, p.startCol);
    CutRows(t, p.endRow, p.endCol);
    SplitOfConcat(t[..SpanStart(t, r)], Join(lines), t[SpanEnd(t, r)..]);
  }

  // ── Reading back what was written ──────────────────────────────────────

  /** The range from offset `p` to offset `q`. */
  function RangeOf(t: Bytes, p: nat, q: nat): Range
    requires p <= q <= |t|
  {
    Range(RowAt(t, p), ColAt(t, p), RowAt(t, q), ColAt(t, q))
  }

  lemma RangeOfIsInText(t: Bytes, p: nat, q: nat)
    requires p <= q <= |t|
    ensures InText(t, RangeOf(t, p, q))
    ensures RawStart(t, RangeOf(t, p, q)) == p && RawEnd(t, RangeOf(t, p, q)) == q
  {
    hide Split, Start, RowAt, ColAt;
    OffsetOfPosition(t, p);
    OffsetOfPosition(t, q);
    if RowAt(t, q) < RowAt(t, p) {
      StartsInOrder(t, RowAt(t, q), RowAt(t, p));
    }
  }

  /** Reading the place that was just written gives back the rows of what was written. */
  lemma ReadAfterWrite(t: Bytes, r: Range, lines: seq<Bytes>)
    requires ValidUtf8(t) && InText(t, r)
    requires lines != [] && NewlineFree(lines) && forall i :: 0 <= i < |lines| ==> ValidUtf8(lines[i])
    ensures var u, a := SetText(t, r, lines), SpanStart(t, r);
      && a + |Join(lines)| <= |u|
      && InText(u, RangeOf(u, a, a + |Join(lines)|))
      && GetText(u, RangeOf(u, a, a + |Join(lines)|)) == lines
  {
    hide Split, Join, SetText, GetText, SpanStart, SpanEnd, ValidUtf8, RangeOf, InText, NewlineFree, IsBoundary;
    SetTextIsLocal(t, r, lines);
    var u, a := SetText(t, r, lines), SpanStart(t, r);
    var b := a + |Join(lines)|;
    RangeOfIsInText(u, a, b);
    var q := RangeOf(u, a, b);
    GetTextSplitsTheSpan(u, q);
    ExactSpan(u, q);
    SplitOfJoin(lines);
  }

  lemma ExactSpan(t: Bytes, r: Range)
    requires InText(t, r) && IsBoundary(t, RawStart(t, r)) && IsBoundary(t, RawEnd(t, r))
    ensures SpanStart(t, r) == RawStart(t, r) && SpanEnd(t, r) == RawEnd(t, r)
  {
  }

  /** Everything up to the end of what was written. */
  lemma WrittenRows(t: Bytes, r: Range, lines: seq<Bytes>)
    requires ValidUtf8(t) && InText(t, r) && lines != [] && NewlineFree(lines)
    ensures var u, b := SetText(t, r, lines), SpanStart(t, r) + |Join(lines)|;
      && b <= |u|
      && var c := Snapped(t, r).startCol;
         && c <= |Split(t)[r.startRow]|
         && Split(u[..b]) == Split(t)[..r.startRow] + [Split(t)[r.startRow][..c] + lines[0]] + lines[1..]
  {
    hide Split, Join, Start, ValidUtf8, SnapDown, SnapUp, NewlineFree;
    var u, a, j := SetText(t, r, lines), SpanStart(t, r), Join(lines);
    SpanIsNeverInverted(t, r);
    SnappedIsInText(t, r);
    var c := Snapped(t, r).startCol;
    CutRows(t, r.startRow, c);
    CutConcat(t[..a] + j, t[SpanEnd(t, r)..]);
    SplitOfConcat(t[..a], [], j);
    assert t[..a] + [] + j == t[..a] + j;
    SplitOfJoin(lines);
    var front, head := Split(t)[..r.startRow], Split(t)[r.startRow][..c];
    HeadLine(t, r.startRow, c, lines);
    CutConcat(front, [head]);
  }

  lemma HeadLine(t: Bytes, k: nat, c: nat, lines: seq<Bytes>)
    requires k < |Split(t)| && c <= |Split(t)[k]|
    requires lines != [] && NewlineFree(lines)
    ensures Split(Split(t)[k][..c] + [] + lines[0]) == [Split(t)[k][..c] + lines[0]]
  {
    hide Split;
    PiecesOfRow(t, Split(t), k, c);
    assert NL !in lines[0];
    var head := Split(t)[k][..c];
    assert head + [] + lines[0] == head + lines[0];
    SplitLine(head + lines[0]);
  }

  /** The written place starts where the old range started and ends at the end of the last new line. */
  lemma WrittenPlace(t: Bytes, r: Range, lines: seq<Bytes>)
    requires ValidUtf8(t) && InText(t, r) && lines != [] && NewlineFree(lines)
    ensures var u, a := SetText(t, r, lines), SpanStart(t, r);
      && a + |Join(lines)| <= |u|
      && var last := lines[|lines| - 1];
         var startCol := Snapped(t, r).startCol;
         RangeOf(u, a, a + |Join(lines)|) ==
           Range(r.startRow, startCol, r.startRow + |lines| - 1, if |lines| == 1 then startCol + |last| else |last|)
  {
    hide Split, Join, Start, ValidUtf8, SnapDown, SnapUp, NewlineFree, SetText;
    var u, a, j := SetText(t, r, lines), SpanStart(t, r), Join(lines);
    WrittenRows(t, r, lines);
    StartOfWritten(t, r, lines);
    SnappedIsInText(t, r);
    CutRows(t, r.startRow, Snapped(t, r).startCol);
  }

  lemma StartOfWritten(t: Bytes, r: Range, lines: seq<Bytes>)
    requires InText(t, r)
    ensures var u, a := SetText(t, r, lines), SpanStart(t, r); a <= |t| && a <= |u| && u[..a] == t[..a]
  {
    hide Split, Join, Start, SnapDown, SnapUp;
    SpanIsNeverInverted(t, r);
    var a := SpanStart(t, r);
    Assoc(t[..a], Join(lines), t[SpanEnd(t, r)..], []);
    CutConcat(t[..a], Join(lines) + t[SpanEnd(t, r)..]);
  }
}

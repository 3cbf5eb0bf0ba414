/** Line and text indices as clients of the nvim API write them. */
module Indices {
  import opened Numbers
  import opened Wrappers

  const I64_MAX: int := 0x7FFF_FFFF_FFFF_FFFF
  const I64_MIN: int := -0x8000_0000_0000_0000

  type I64 = n: int | I64_MIN <= n <= I64_MAX

  function SaturatingAdd(a: I64, b: I64): I64 {
    if a + b > I64_MAX then I64_MAX else if a + b < I64_MIN then I64_MIN else (a + b)
  }

  /** `i64::try_from(len).unwrap_or(i64::MAX)`. */
  function ToI64(len: nat): I64 {
    if len <= I64_MAX then len else I64_MAX
  }

  datatype IndexError = OutOfBounds | OutOfOrder

  /** Where a line index or a text column points: negative ones count back from one past the end. */
  function FromEnd(len: nat, index: I64): int {
    if index < 0 then SaturatingAdd(SaturatingAdd(ToI64(len), index), 1) else index
  }

  function LineRange(lineCount: nat, start: I64, end: I64, strict: bool): Result<(nat, nat), IndexError> {
    var n: int := ToI64(lineCount);
    var s, e := FromEnd(lineCount, start), FromEnd(lineCount, end);
    if strict && (s < 0 || s > n || e < 0 || e > n) then Err(OutOfBounds)
    else if Clamp(s, 0, n) > Clamp(e, 0, n) then Err(OutOfOrder)
    else Ok((Clamp(s, 0, n), Clamp(e, 0, n)))
  }

  function TextRow(lineCount: nat, row: I64): Option<nat> {
    var r: int := if row < 0 then SaturatingAdd(ToI64(lineCount), row) else row;
    if 0 <= r < ToI64(lineCount) then Some(r) else None
  }

  function TextCol(len: nat, col: I64, clamp: bool): Option<nat> {
    var c := FromEnd(len, col);
    if clamp then Some(Clamp(c, 0, ToI64(len)))
    else if 0 <= c <= ToI64(len) then Some(c) else None
  }

  /** The place an index names when it names one: `0..=len` from the start, `-1..=-(len + 1)` from the end. */
  predicate Names(len: nat, index: int, place: int) {
    0 <= place <= len && (index == place || index == place - len - 1)
  }

  /** Saturation never distorts an index: a place is found exactly when the index names one. */
  lemma FromEndNames(len: nat, index: I64, place: nat)
    requires len <= I64_MAX
    ensures Names(len, index, place) <==> FromEnd(len, index) == place <= len
  {
  }

  /**
   * A range is accepted exactly when its ends, pulled into the buffer unless
   * the call is strict, come in order; an accepted range lies in the buffer.
   */
  lemma LineRangeMeaning(lineCount: nat, start: I64, end: I64, strict: bool)
    requires lineCount <= I64_MAX
    ensures var r := LineRange(lineCount, start, end, strict);
      && (r.Ok? ==> r.value.0 <= r.value.1 <= lineCount)
      && (r == Err(OutOfBounds) <==> strict && !(exists s, e :: Names(lineCount, start, s) && Names(lineCount, end, e)))
      && (forall s, e :: Names(lineCount, start, s) && Names(lineCount, end, e) ==>
            r == if s <= e then Ok((s, e)) else Err(OutOfOrder))
      && (!strict && start > lineCount ==> r == LineRange(lineCount, lineCount, end, false))
      && (!strict && start + lineCount + 1 < 0 ==> r == LineRange(lineCount, 0, end, false))
      && (!strict && end > lineCount ==> r == LineRange(lineCount, start, lineCount, false))
      && (!strict && end + lineCount + 1 < 0 ==> r == LineRange(lineCount, start, 0, false))
  {
    var s, e := FromEnd(lineCount, start), FromEnd(lineCount, end);
    if 0 <= s <= lineCount && 0 <= e <= lineCount {
      assert Names(lineCount, start, s) && Names(lineCount, end, e);
    }
  }

  lemma TextRowMeaning(lineCount: nat, row: I64, r: nat)
    requires lineCount <= I64_MAX
    ensures TextRow(lineCount, row) == Some(r) <==> r < lineCount && (row == r || row == r - lineCount)
  {
  }

  /** Setters accept exactly the columns that name a place; getters move the others to the nearer end. */
  lemma TextColMeaning(len: nat, col: I64, c: nat)
    requires len <= I64_MAX
    ensures TextCol(len, col, false) == Some(c) <==> Names(len, col, c)
    ensures TextCol(len, col, true) == Some(c) <==>
      Names(len, col, c) || (col > len && c == len) || (col + len + 1 < 0 && c == 0)
  {
  }

  /** Resolved indices never leave the buffer, whatever its size. */
  lemma ResolvedIsInside(len: nat, start: I64, end: I64, strict: bool)
    ensures var r := LineRange(len, start, end, strict); r.Ok? ==> r.value.0 <= r.value.1 <= len
    ensures var r := TextRow(len, start); r.Some? ==> r.value < len
    ensures var r := TextCol(len, start, strict); r.Some? ==> r.value <= len
    ensures TextCol(len, start, true).Some?
  {
  }
}

/** The buffer calls of the nvim API, run against a buffer whose content they replace. */
module NvimBuffer {
  import opened Wrappers
  import opened ByteStrings
  import opened Slices
  import opened Rows
  import opened Utf8
  import opened Indices
  import opened Splice
  import opened TextRange

  datatype TextError =
    | BadStartRow | BadEndRow | BadStartCol | BadEndCol
    | RowsInverted | ColsInverted | RangeInverted | SpanInverted

  /** `rope_line_str`: from the row's start to just before the next row's newline. */
  function RopeLineStr(t: Bytes, row: nat): (line: Bytes)
    requires row < |Split(t)|
    ensures line == Split(t)[row]
  {
    RowSits(t, row);
    if row + 1 >= |Split(t)| then t[Start(t, row)..] else t[Start(t, row)..Start(t, row + 1) - 1]
  }

  /** How `nvim_buf_get_text` reads its positions: columns past an end move to it. */
  function ResolveToRead(t: Bytes, startRow: I64, startCol: I64, endRow: I64, endCol: I64): Result<Range, TextError> {
    var rows := Split(t);
    match TextRow(|rows|, startRow)
    case None => Err(BadStartRow)
    case Some(r0) =>
      match TextRow(|rows|, endRow)
      case None => Err(BadEndRow)
      case Some(r1) =>
        ResolvedIsInside(|rows|, startRow, 0, false);
        ResolvedIsInside(|rows|, endRow, 0, false);
        if r0 > r1 then Err(RowsInverted) else
          ResolvedIsInside(|rows[r0]|, startCol, 0, true);
          ResolvedIsInside(|rows[r1]|, endCol, 0, true);
          var c0, c1 := TextCol(|rows[r0]|, startCol, true).value, TextCol(|rows[r1]|, endCol, true).value;
          if r0 == r1 && c0 > c1 then Err(ColsInverted) else Ok(Range(r0, c0, r1, c1))
  }

  /** How `nvim_buf_set_text` reads its positions: columns past an end are refused. */
  function ResolveToWrite(t: Bytes, startRow: I64, startCol: I64, endRow: I64, endCol: I64): Result<Range, TextError> {
    var rows := Split(t);
    match TextRow(|rows|, startRow)
    case None => Err(BadStartRow)
    case Some(r0) =>
      match TextRow(|rows|, endRow)
      case None => Err(BadEndRow)
      case Some(r1) =>
        ResolvedIsInside(|rows|, startRow, 0, false);
        ResolvedIsInside(|rows|, endRow, 0, false);
        match TextCol(|rows[r0]|, startCol, false)
        case None => Err(BadStartCol)
        case Some(c0) =>
          match TextCol(|rows[r1]|, endCol, false)
          case None => Err(BadEndCol)
          case Some(c1) =>
            if r0 > r1 || (r0 == r1 && c0 > c1) then Err(RangeInverted) else Ok(Range(r0, c0, r1, c1))
  }

  /** Whatever numbers a client sends, an accepted range lies in the text with its ends in order. */
  lemma ResolvedRangeIsInText(t: Bytes, startRow: I64, startCol: I64, endRow: I64, endCol: I64)
    ensures var r := ResolveToRead(t, startRow, startCol, endRow, endCol); r.Ok? ==> InText(t, r.value)
    ensures var r := ResolveToWrite(t, startRow, startCol, endRow, endCol); r.Ok? ==> InText(t, r.value)
  {
    hide Split, TextRow, TextCol;
    var n := |Split(t)|;
    ResolvedIsInside(n, startRow, 0, false);
    ResolvedIsInside(n, endRow, 0, false);
    if TextRow(n, startRow).Some? && TextRow(n, endRow).Some? {
      var a, b := |Split(t)[TextRow(n, startRow).value]|, |Split(t)[TextRow(n, endRow).value]|;
      ResolvedIsInside(a, startCol, 0, true);
      ResolvedIsInside(a, startCol, 0, false);
      ResolvedIsInside(b, endCol, 0, true);
      ResolvedIsInside(b, endCol, 0, false);
    }
  }

  /** A write is accepted exactly for the ranges its four numbers name. */
  lemma WriteRangeMeaning(t: Bytes, startRow: I64, startCol: I64, endRow: I64, endCol: I64, r: Range)
    requires |Split(t)| <= I64_MAX && forall i :: 0 <= i < |Split(t)| ==> |Split(t)[i]| <= I64_MAX
    ensures ResolveToWrite(t, startRow, startCol, endRow, endCol) == Ok(r) <==>
      && InText(t, r)
      && (startRow == r.startRow || startRow == r.startRow - |Split(t)|)
      && (endRow == r.endRow || endRow == r.endRow - |Split(t)|)
      && Names(|Split(t)[r.startRow]|, startCol, r.startCol)
      && Names(|Split(t)[r.endRow]|, endCol, r.endCol)
  {
    hide Split;
    var n := |Split(t)|;
    TextRowMeaning(n, startRow, r.startRow);
    TextRowMeaning(n, endRow, r.endRow);
    ResolvedRangeIsInText(t, startRow, startCol, endRow, endCol);
    if r.startRow < n && r.endRow < n {
      TextColMeaning(|Split(t)[r.startRow]|, startCol, r.startCol);
      TextColMeaning(|Split(t)[r.endRow]|, endCol, r.endCol);
    }
  }

  lemma RowsInOrder(t: Bytes, r: Range)
    requires InText(t, r)
    ensures r.startRow <= r.endRow
  {
  }

  /** The last boundary at or below `i`: `(0..=i).rev().find(is_char_boundary)`. */
  method FindBoundaryDown(b: Bytes, i: nat) returns (j: nat)
    ensures j == SnapDown(b, i) <= i
  {
    j := i;
    while !IsBoundary(b, j)
      invariant 0 <= j <= i && SnapDown(b, j) == SnapDown(b, i)
      decreases j
    {
      j := j - 1;
    }
  }

  /** The first boundary at or above `i`: `(i..=len).find(is_char_boundary)`. */
  method FindBoundaryUp(b: Bytes, i: nat) returns (j: nat)
    requires i <= |b|
    ensures i <= j == SnapUp(b, i) <= |b|
  {
    j := i;
    while !IsBoundary(b, j)
      invariant i <= j <= |b| && SnapUp(b, j) == SnapUp(b, i)
      decreases |b| - j
    {
      j := j + 1;
    }
  }

  class Buffer {
    var text: Bytes

    /** The content is a Rust string. */
    ghost predicate Valid()
      reads this
    {
      ValidUtf8(text)
    }

    constructor (content: Bytes)
      requires ValidUtf8(content)
      ensures Valid() && text == content
    {
      text := content;
    }

    /** `nvim_buf_get_lines`: the rows of the resolved range. */
    method GetLines(start: I64, end: I64, strict: bool) returns (r: Result<seq<Bytes>, IndexError>)
      ensures match LineRange(|Split(text)|, start, end, strict)
        case Err(e) => r == Err(e)
        case Ok((s, e)) => s <= e <= |Split(text)| && r == Ok(Split(text)[s..e])
    {
      var lineCount := |Split(text)|;
      ResolvedIsInside(lineCount, start, end, strict);
      match LineRange(lineCount, start, end, strict) {
        case Err(e) => r := Err(e);
        case Ok((s, e)) =>
          var lines: seq<Bytes> := [];
          for i := s to e
            invariant lines == Split(text)[s..i]
          {
            lines := lines + [RopeLineStr(text, i)];
          }
          r := Ok(lines);
      }
    }

    /** `nvim_buf_set_lines`: refused calls leave the text alone, accepted ones splice it. */
    method SetLines(start: I64, end: I64, strict: bool, lines: seq<Bytes>) returns (r: Result<(), IndexError>)
      requires Valid() && forall i :: 0 <= i < |lines| ==> ValidUtf8(lines[i])
      modifies this
      ensures Valid()
      ensures match LineRange(old(|Split(text)|), start, end, strict)
        case Err(e) => r == Err(e) && text == old(text)
        case Ok((s, e)) =>
          && s <= e <= old(|Split(text)|)
          && r == Ok(())
          && text == SpliceRows(old(text), s, e, lines)
    {
      var lineCount := |Split(text)|;
      ResolvedIsInside(lineCount, start, end, strict);
      match LineRange(lineCount, start, end, strict) {
        case Err(e) => r := Err(e);
        case Ok((s, e)) =>
          SpliceKeepsUtf8(text, s, e, lines);
          text := SpliceRows(text, s, e, lines);
          r := Ok(());
      }
    }

    /** `nvim_set_current_line`: the whole content rebuilt with one row replaced. */
    method SetCurrentLine(row: nat, line: Bytes)
      requires Valid() && ValidUtf8(line)
      modifies this
      ensures Valid()
      ensures text == SetRow(old(text), row, line)
    {
      var lineCount := |Split(text)|;
      var result: seq<Bytes> := [];
      for i := 0 to lineCount
        invariant |result| == i
        invariant forall k :: 0 <= k < i ==> result[k] == if k == row then line else Split(text)[k]
      {
        result := result + [if i == row then line else RopeLineStr(text, i)];
      }
      assert result == if row < lineCount then Split(text)[row := line] else Split(text);
      RowsAreValid(text);
      JoinIsValid(result);
      text := Join(result);
    }

    /** `nvim_buf_get_text`. */
    method GetText(startRow: I64, startCol: I64, endRow: I64, endCol: I64)
      returns (r: Result<seq<Bytes>, TextError>)
      ensures match ResolveToRead(text, startRow, startCol, endRow, endCol)
        case Err(e) => r == Err(e)
        case Ok(range) => InText(text, range) && r == Ok(TextRange.GetText(text, range))
    {
      hide Split, RowPart, ResolveToRead, InText;
      ResolvedRangeIsInText(text, startRow, startCol, endRow, endCol);
      match ResolveToRead(text, startRow, startCol, endRow, endCol) {
        case Err(e) => r := Err(e);
        case Ok(range) =>
          var parts: seq<Bytes> := [];
          var row := range.startRow;
          RowsInOrder(text, range);
          while row <= range.endRow
            invariant range.startRow <= row <= range.endRow + 1
            invariant parts + PartsFrom(text, range, row) == TextRange.GetText(text, range)
          {
            var part := ClipRow(range, row);
            Assoc(parts, [part], PartsFrom(text, range, row + 1), []);
            parts := parts + [part];
            row := row + 1;
          }
          assert parts + [] == parts;
          r := Ok(parts);
      }
    }

    /** One row of `nvim_buf_get_text`: clipped to the range, then out to whole characters. */
    method ClipRow(range: Range, row: nat) returns (part: Bytes)
      requires InText(text, range) && range.startRow <= row <= range.endRow
      ensures part == RowPart(text, range, row)
    {
      var line := RopeLineStr(text, row);
      var lo, hi := 0, |line|;
      if range.startRow == range.endRow {
        lo, hi := range.startCol, range.endCol;
      } else if row == range.startRow {
        lo := range.startCol;
      } else if row == range.endRow {
        hi := range.endCol;
      }
      lo := FindBoundaryDown(line, lo);
      hi := FindBoundaryUp(line, hi);
      part := line[lo..hi];
    }

    /** `nvim_buf_set_text`: one splice of the whole text; its last guard is never needed. */
    method SetText(startRow: I64, startCol: I64, endRow: I64, endCol: I64, lines: seq<Bytes>)
      returns (r: Result<(), TextError>)
      requires Valid() && forall i :: 0 <= i < |lines| ==> ValidUtf8(lines[i])
      modifies this
      ensures Valid()
      ensures match ResolveToWrite(old(text), startRow, startCol, endRow, endCol)
        case Err(e) => r == Err(e) && text == old(text)
        case Ok(range) =>
          && InText(old(text), range)
          && r == Ok(())
          && text == TextRange.SetText(old(text), range, lines)
    {
      ResolvedRangeIsInText(text, startRow, startCol, endRow, endCol);
      match ResolveToWrite(text, startRow, startCol, endRow, endCol) {
        case Err(e) => r := Err(e);
        case Ok(range) =>
          RawInOrder(text, range);
          SpanIsNeverInverted(text, range);
          SetTextIsLocal(text, range, lines);
          var absStart := FindBoundaryDown(text, RawStart(text, range));
          var absEnd := FindBoundaryUp(text, RawEnd(text, range));
          if absStart > absEnd {
            assert false;
          } else {
            text := text[..absStart] + Join(lines) + text[absEnd..];
            r := Ok(());
          }
      }
    }
  }

  /** Where a column that is pulled into its row ends up. */
  predicate PulledTo(len: nat, col: int, c: nat) {
    Names(len, col, c) || (col > len && c == len) || (col + len + 1 < 0 && c == 0)
  }

  /** A read is accepted exactly for the ranges its rows name and its columns are pulled to. */
  lemma ReadRangeMeaning(t: Bytes, startRow: I64, startCol: I64, endRow: I64, endCol: I64, r: Range)
    requires |Split(t)| <= I64_MAX && forall i :: 0 <= i < |Split(t)| ==> |Split(t)[i]| <= I64_MAX
    ensures ResolveToRead(t, startRow, startCol, endRow, endCol) == Ok(r) <==>
      && InText(t, r)
      && (startRow == r.startRow || startRow == r.startRow - |Split(t)|)
      && (endRow == r.endRow || endRow == r.endRow - |Split(t)|)
      && PulledTo(|Split(t)[r.startRow]|, startCol, r.startCol)
      && PulledTo(|Split(t)[r.endRow]|, endCol, r.endCol)
  {
    hide Split;
    var n := |Split(t)|;
    TextRowMeaning(n, startRow, r.startRow);
    TextRowMeaning(n, endRow, r.endRow);
    ResolvedRangeIsInText(t, startRow, startCol, endRow, endCol);
    if r.startRow < n && r.endRow < n {
      TextColMeaning(|Split(t)[r.startRow]|, startCol, r.startCol);
      TextColMeaning(|Split(t)[r.endRow]|, endCol, r.endCol);
    }
  }

  /** Whether a number names a row, from either end. */
  predicate NamesRow(n: nat, row: int) {
    0 <= row + n && row < n
  }

  predicate NamesCol(len: nat, col: int) {
    0 <= col + len + 1 && col <= len
  }

  /** The row a number names. */
  function NamedRow(n: nat, row: int): nat
    requires NamesRow(n, row)
  {
    if row < 0 then n + row else row
  }

  /**
   Which mistake a refused read or write is blamed on: a start row that is none, else an end row;
   for a write then a start column outside its row, else an end column; and at last the order.
   */
  lemma RefusalsNameTheirCause(t: Bytes, startRow: I64, startCol: I64, endRow: I64, endCol: I64)
    requires |Split(t)| <= I64_MAX && forall i :: 0 <= i < |Split(t)| ==> |Split(t)[i]| <= I64_MAX
    ensures var n := |Split(t)|;
      var read, write :=
        ResolveToRead(t, startRow, startCol, endRow, endCol), ResolveToWrite(t, startRow, startCol, endRow, endCol);
      if !NamesRow(n, startRow) then read == Err(BadStartRow) && write == Err(BadStartRow)
      else if !NamesRow(n, endRow) then read == Err(BadEndRow) && write == Err(BadEndRow)
      else
        var r0, r1 := NamedRow(n, startRow), NamedRow(n, endRow);
        var a, b := |Split(t)[r0]|, |Split(t)[r1]|;
        && (read == Err(RowsInverted) <==> r0 > r1)
        && (read.Err? && r0 <= r1 ==> read == Err(ColsInverted) && r0 == r1)
        && (write == Err(BadStartCol) <==> !NamesCol(a, startCol))
        && (write == Err(BadEndCol) <==> NamesCol(a, startCol) && !NamesCol(b, endCol))
        && (write.Err? && NamesCol(a, startCol) && NamesCol(b, endCol) ==> write == Err(RangeInverted) && r0 >= r1)
  {
    hide Split;
  }
}

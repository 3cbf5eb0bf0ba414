/** The cursor calls of the nvim API: byte columns in and out, character columns in the editor. */
module WindowCursor {
  import opened ByteStrings
  import opened Numbers
  import opened Indices
  import opened Rows
  import opened Utf8
  import opened TextRange
  import opened Columns

  /** Positions pass through 32-bit fields on their way into the buffer. */
  const POSITIONS: nat := 0x1_0000_0000

  /** The characters of a row. */
  function RowChars(text: Bytes, row: nat): string
    requires ValidUtf8(text) && row < |Split(text)|
  {
    RowsAreValid(text);
    Decode(Split(text)[row]).value
  }

  /** The row a client means: counted from one, and never before the first. */
  function ClientRow(row: I64): nat {
    var r: int := SaturatingAdd(row, -1);
    if r < 0 then 0 else r
  }

  /** Where the buffer puts a cursor: truncated to 32 bits, then pulled into the text. */
  function Placed(text: Bytes, row: nat, col: nat): (p: (nat, nat))
    requires ValidUtf8(text)
    ensures p.0 < |Split(text)| && p.1 <= |RowChars(text, p.0)|
  {
    SplitSize(text);
    var r := Min(row % POSITIONS, |Split(text)| - 1);
    (r, Min(col % POSITIONS, |RowChars(text, r)|))
  }

  /** Where `nvim_win_set_cursor` puts the cursor. */
  function SetTo(text: Bytes, row: I64, col: I64): (nat, nat)
    requires ValidUtf8(text)
  {
    var r := ClientRow(row);
    var k :=
      if r < |Split(text)| then CharsUpTo(RowChars(text, r), Min(AsUsize(col), |Split(text)[r]|)) else 0;
    Placed(text, r, k)
  }

  class Window {
    const text: Bytes
    var row: nat
    var col: nat

    constructor (text: Bytes)
      ensures this.text == text && row == 0 && col == 0
    {
      this.text := text;
      row, col := 0, 0;
    }

    /** `nvim_win_set_cursor`. */
    method SetCursor(row1: I64, byteCol: I64)
      requires ValidUtf8(text)
      modifies this
      ensures (row, col) == SetTo(text, row1, byteCol)
    {
      var r := ClientRow(row1);
      var k := 0;
      if r < |Split(text)| {
        RowsAreValid(text);
        k := ByteColToCharCol(Split(text)[r], byteCol);
      }
      var (r', k') := Placed(text, r, k);
      row, col := r', k';
    }

    /** `nvim_win_get_cursor`: the row counted from one, and the byte the character starts at. */
    method GetCursor() returns (row1: nat, byteCol: nat)
      requires ValidUtf8(text)
      ensures row1 == row + 1
      ensures byteCol == if row < |Split(text)| then Offset(RowChars(text, row), Min(col, |RowChars(text, row)|)) else col
    {
      row1, byteCol := row + 1, col;
      if row < |Split(text)| {
        byteCol := CharColToByteCol(RowChars(text, row), col);
      }
    }
  }

  /** The character column a byte column means on a row. */
  function ClientCol(text: Bytes, row: nat, byteCol: I64): nat
    requires ValidUtf8(text) && row < |Split(text)|
  {
    CharsUpTo(RowChars(text, row), Min(AsUsize(byteCol), |Split(text)[row]|))
  }

  /** Rows are counted from one, and everything below one is the first row. */
  lemma ClientRowsCountFromOne(row1: I64)
    ensures row1 >= 1 ==> ClientRow(row1) == row1 - 1
    ensures row1 <= 1 ==> ClientRow(row1) == 0
  {
  }

  /**
   On a row of the buffer, counted from one and with everything below one meaning the first, the
   cursor comes back on the same row, at the last character boundary at or below the byte asked
   for, however wild the column: exactly when row and character column pass the 32-bit fields
   unharmed.
   */
  lemma SetOnRow(text: Bytes, row1: I64, byteCol: I64)
    requires ValidUtf8(text) && row1 <= |Split(text)|
    ensures var (r, k) := SetTo(text, row1, byteCol);
      var row: nat := if row1 <= 1 then 0 else row1 - 1;
      && row < |Split(text)|
      && var line := Split(text)[row];
      && r < |Split(text)| && k <= |RowChars(text, r)|
      && ((r == row && Offset(RowChars(text, r), k) == SnapDown(line, Min(AsUsize(byteCol), |line|)))
          <==> (row < 0x1_0000_0000 && ClientCol(text, row, byteCol) < 0x1_0000_0000))
  {
    hide Split, Decode, CharsUpTo, SnapDown, Offset;
    SplitSize(text);
    ClientRowsCountFromOne(row1);
    RowsAreValid(text);
    var row: nat := if row1 <= 1 then 0 else row1 - 1;
    var k := ClientCol(text, row, byteCol);
    CursorRoundTrip(Split(text)[row], byteCol);
    TruncatesNothing(row, POSITIONS);
    TruncatesNothing(k, POSITIONS);
    if row < POSITIONS && k >= POSITIONS {
      OffsetsIncrease(RowChars(text, row), k % POSITIONS, k);
    }
  }

  lemma TruncatesNothing(n: nat, m: nat)
    requires m > 0
    ensures n % m == n <==> n < m
    ensures n % m <= n
  {
    assert n == n / m * m + n % m;
  }

  /** The row alone, whatever becomes of the column. */
  lemma SetRow(text: Bytes, row1: I64, byteCol: I64)
    requires ValidUtf8(text) && row1 <= |Split(text)| && row1 <= 0x1_0000_0000
    ensures row1 >= 1 ==> SetTo(text, row1, byteCol).0 == row1 - 1
    ensures row1 <= 0 ==> SetTo(text, row1, byteCol) == SetTo(text, 1, byteCol) && SetTo(text, row1, byteCol).0 == 0
  {
    hide Split, Decode, CharsUpTo;
    SplitSize(text);
    ClientRowsCountFromOne(row1);
    ClientRowsCountFromOne(1);
    if row1 >= 1 {
      TruncatesNothing(row1 - 1, POSITIONS);
    }
  }

  /** Setting the cursor on a row of the buffer and asking for it back: the same row, the snapped column. */
  method SetThenGet(win: Window, row1: I64, byteCol: I64) returns (row: nat, col: nat)
    requires ValidUtf8(win.text) && 1 <= row1 <= |Split(win.text)| && row1 <= 0x1_0000_0000
    modifies win
    ensures row == row1
    ensures var line := Split(win.text)[row1 - 1];
      ClientCol(win.text, row1 - 1, byteCol) < 0x1_0000_0000 ==> col == SnapDown(line, Min(AsUsize(byteCol), |line|))
  {
    hide Split, Decode, CharsUpTo, SnapDown, Offset;
    SetOnRow(win.text, row1, byteCol);
    SetRow(win.text, row1, byteCol);
    win.SetCursor(row1, byteCol);
    row, col := win.GetCursor();
  }

  /**
   A row past the end puts the cursor at the start of a row: the last one, as long as the 32 bits
   of the row that are kept still lie past the end.
   */
  lemma SetPastTheEnd(text: Bytes, row1: I64, byteCol: I64)
    requires ValidUtf8(text) && row1 > |Split(text)|
    ensures SetTo(text, row1, byteCol).1 == 0
    ensures SetTo(text, row1, byteCol).0 == |Split(text)| - 1 <==> (row1 - 1) % 0x1_0000_0000 >= |Split(text)| - 1
  {
    hide Split, Decode;
    SplitSize(text);
    ClientRowsCountFromOne(row1);
  }
}

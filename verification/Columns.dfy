/** Byte columns of the nvim API and character columns of the editor. */
module Columns {
  import opened ByteStrings
  import opened Indices
  import opened Numbers
  import opened Utf8
  import opened TextRange

  const ISIZE_MAX: int := 0x7FFF_FFFF_FFFF_FFFF

  /** `col as usize`: a negative column becomes a huge one. */
  function AsUsize(col: I64): nat {
    if col < 0 then col + 0x1_0000_0000_0000_0000 else col
  }

  /** How many characters of `cs` end at or before byte `c`. */
  function CharsUpTo(cs: string, c: nat): (k: nat)
    ensures k <= |cs|
  {
    if cs == [] || |EncodeChar(cs[0])| > c then 0 else 1 + CharsUpTo(cs[1..], c - |EncodeChar(cs[0])|)
  }

  /** The two conversions form an adjoint pair. */
  lemma {:induction false} Adjoint(cs: string, k: nat, c: nat)
    requires k <= |cs|
    ensures Offset(cs, k) <= c <==> k <= CharsUpTo(cs, c)
  {
    if k > 0 {
      OffsetStep(cs, k);
      var n := |EncodeChar(cs[0])|;
      if n <= c {
        Adjoint(cs[1..], k - 1, c - n);
      }
    }
  }

  /** Byte column to character column to byte column: the last boundary at or below it. */
  lemma ByteCharByte(cs: string, c: nat)
    requires c <= |Encode(cs)|
    ensures Offset(cs, CharsUpTo(cs, c)) == SnapDown(Encode(cs), c)
  {
    hide Encode, IsBoundary, Offset;
    var k, b := CharsUpTo(cs, c), Encode(cs);
    Adjoint(cs, k, c);
    OffsetIsBoundary(cs, k);
    SnapDownIsGreatest(b, c);
    var d := SnapDown(b, c);
    var l := BoundaryIsOffset(cs, d);
    Adjoint(cs, l, c);
    if l < k {
      OffsetsIncrease(cs, l, k);
    }
  }

  /** Character column to byte column to character column: unchanged up to the character count. */
  lemma CharByteChar(cs: string, k: nat)
    requires k <= |cs|
    ensures CharsUpTo(cs, Offset(cs, k)) == k
  {
    var l := CharsUpTo(cs, Offset(cs, k));
    Adjoint(cs, k, Offset(cs, k));
    Adjoint(cs, l, Offset(cs, k));
    if k < l {
      OffsetsIncrease(cs, k, l);
    }
  }

  lemma ConversionsAreMonotone(cs: string, c: nat, d: nat, k: nat, l: nat)
    requires c <= d && k <= l <= |cs|
    ensures CharsUpTo(cs, c) <= CharsUpTo(cs, d)
    ensures Offset(cs, k) <= Offset(cs, l)
  {
    Adjoint(cs, CharsUpTo(cs, c), c);
    Adjoint(cs, CharsUpTo(cs, c), d);
    if k < l {
      OffsetsIncrease(cs, k, l);
    }
  }

  /** `byte_col_to_char_col`: clamp, step down to a boundary, count the characters before it. */
  method ByteColToCharCol(line: Bytes, col: I64) returns (k: nat)
    requires ValidUtf8(line)
    ensures k == CharsUpTo(Decode(line).value, Min(AsUsize(col), |line|))
  {
    var byteOffset := Min(AsUsize(col), |line|);
    ghost var cs := ValidMeansEncoded(line);
    ghost var clamped := byteOffset;
    while byteOffset > 0 && !IsBoundary(line, byteOffset)
      invariant 0 <= byteOffset <= |line|
      invariant SnapDown(line, byteOffset) == SnapDown(line, clamped)
    {
      byteOffset := byteOffset - 1;
    }
    ByteCharByte(cs, clamped);
    OffsetIsBoundary(cs, CharsUpTo(cs, clamped));
    EncodedDecodes(cs);
    EncodedDecodes(cs[..CharsUpTo(cs, clamped)]);
    k := |Decode(line[..byteOffset]).value|;
  }

  /** For a column at or after zero, and for the columns below zero, which reach the end of any real line. */
  lemma ByteColumnReach(line: Bytes, col: I64)
    requires |line| <= ISIZE_MAX
    ensures Min(AsUsize(col), |line|) == if col < 0 then |line| else Min(col, |line|)
  {
  }

  /** `nvim_win_get_cursor`'s column: the lengths of the first `charCol` characters, added up. */
  method CharColToByteCol(cs: string, charCol: nat) returns (c: nat)
    ensures c == Offset(cs, Min(charCol, |cs|))
  {
    c := 0;
    var i := 0;
    while i < |cs| && i < charCol
      invariant i <= |cs| && i <= charCol
      invariant c == Offset(cs, i)
    {
      OffsetNext(cs, i);
      c := c + |EncodeChar(cs[i])|;
      i := i + 1;
    }
  }

  lemma OffsetNext(cs: string, i: nat)
    requires i < |cs|
    ensures Offset(cs, i + 1) == Offset(cs, i) + |EncodeChar(cs[i])|
  {
    assert cs[..i + 1] == cs[..i] + [cs[i]];
    EncodeConcat(cs[..i], [cs[i]]);
    assert Encode([cs[i]]) == EncodeChar(cs[i]) + [];
  }

  /** Setting the cursor and asking for it back: the character that holds the byte, however wild the column. */
  lemma CursorRoundTrip(line: Bytes, col: I64)
    requires ValidUtf8(line)
    ensures var cs, c := Decode(line).value, Min(AsUsize(col), |line|);
      Offset(cs, CharsUpTo(cs, c)) == SnapDown(line, c)
  {
    var cs := ValidMeansEncoded(line);
    EncodedDecodes(cs);
    ByteCharByte(cs, Min(AsUsize(col), |line|));
  }
}

/** UTF-8 (section 3 of RFC 3629): encoding, decoding, and where characters begin. */
module Utf8 {
  import opened Wrappers
  import opened ByteStrings
  import opened Slices

  // ── Encoding ───────────────────────────────────────────────────────────

  function EncodeChar(c: char): (b: Bytes)
    ensures 1 <= |b| <= 4
  {
    var n := c as int;
    if n < 0x80 then [n]
    else if n < 0x800 then [0xC0 + n / 64, 0x80 + n % 64]
    else if n < 0x10000 then [0xE0 + n / 4096, 0x80 + n / 64 % 64, 0x80 + n % 64]
    else [0xF0 + n / 262144, 0x80 + n / 4096 % 64, 0x80 + n / 64 % 64, 0x80 + n % 64]
  }

  function Encode(cs: string): Bytes {
    if cs == [] then [] else EncodeChar(cs[0]) + Encode(cs[1..])
  }

  /** A byte that never begins a character. */
  predicate IsContinuation(b: Byte) {
    0x80 <= b < 0xC0
  }

  /** The six bits a continuation byte carries. */
  function Payload(b: Byte): int {
    b as int - 0x80
  }

  // ── Decoding ───────────────────────────────────────────────────────────

  function CharOf(n: int): Option<char> {
    if 0 <= n < 0xD800 || 0xE000 <= n < 0x11_0000 then Some(n as char) else None
  }

  /** The first character and its length; overlong forms and surrogates are rejected. */
  function DecodeChar(b: Bytes): Option<(char, nat)>
    requires b != []
  {
    var b0: int := b[0];
    if b0 < 0x80 then Some((b0 as char, 1))
    else if 0xC0 <= b0 < 0xE0 && |b| >= 2 && IsContinuation(b[1]) then
      Sized((b0 - 0xC0) * 64 + Payload(b[1]), 0x80, 2)
    else if 0xE0 <= b0 < 0xF0 && |b| >= 3 && IsContinuation(b[1]) && IsContinuation(b[2]) then
      Sized(((b0 - 0xE0) * 64 + Payload(b[1])) * 64 + Payload(b[2]), 0x800, 3)
    else if 0xF0 <= b0 < 0xF8 && |b| >= 4 && IsContinuation(b[1]) && IsContinuation(b[2]) && IsContinuation(b[3]) then
      Sized((((b0 - 0xF0) * 64 + Payload(b[1])) * 64 + Payload(b[2])) * 64 + Payload(b[3]), 0x10000, 4)
    else None
  }

  function Sized(n: int, least: int, length: nat): Option<(char, nat)> {
    match CharOf(n)
    case Some(c) => if n >= least then Some((c, length)) else None
    case None => None
  }

  lemma DecodeCharLength(b: Bytes)
    requires b != [] && DecodeChar(b).Some?
    ensures 1 <= DecodeChar(b).value.1 <= |b|
  {
  }

  function Decode(b: Bytes): Option<string>
    decreases |b|
  {
    if b == [] then Some("") else
      match DecodeChar(b)
      case None => None
      case Some((c, n)) =>
        DecodeCharLength(b);
        match Decode(b[n..])
        case Some(cs) => Some([c] + cs)
        case None => None
  }

  predicate ValidUtf8(b: Bytes) {
    Decode(b).Some?
  }

  lemma Step64(n: int)
    ensures n == n / 64 * 64 + n % 64 && n / 64 / 64 == n / 4096 && n / 4096 / 64 == n / 262144
  {
  }

  lemma SizedChar(c: char, least: int, length: nat)
    requires c as int >= least
    ensures Sized(c as int, least, length) == Some((c, length))
  {
  }

  lemma DecodeEncodedChar(c: char, rest: Bytes)
    ensures DecodeChar(EncodeChar(c) + rest) == Some((c, |EncodeChar(c)|))
  {
    var n := c as int;
    if n < 0x80 {
    } else if n < 0x800 {
      TwoByteChar(c, rest);
    } else if n < 0x10000 {
      ThreeByteChar(c, rest);
    } else {
      FourByteChar(c, rest);
    }
  }

  lemma TwoByteChar(c: char, rest: Bytes)
    requires 0x80 <= c as int < 0x800
    ensures DecodeChar(EncodeChar(c) + rest) == Some((c, 2))
  {
    hide Sized;
    SizedChar(c, 0x80, 2);
    Step64(c as int);
    var b := EncodeChar(c) + rest;
    assert (b[0] as int - 0xC0) * 64 + Payload(b[1]) == c as int;
  }

  lemma ThreeByteChar(c: char, rest: Bytes)
    requires 0x800 <= c as int < 0x10000
    ensures DecodeChar(EncodeChar(c) + rest) == Some((c, 3))
  {
    hide Sized;
    SizedChar(c, 0x800, 3);
    Step64(c as int);
    Step64(c as int / 64);
    var b := EncodeChar(c) + rest;
    assert (b[0] as int - 0xE0) * 64 + Payload(b[1]) == c as int / 64;
  }

  lemma FourByteChar(c: char, rest: Bytes)
    requires 0x10000 <= c as int
    ensures DecodeChar(EncodeChar(c) + rest) == Some((c, 4))
  {
    hide Sized;
    SizedChar(c, 0x10000, 4);
    Step64(c as int);
    Step64(c as int / 64);
    Step64(c as int / 4096);
    var b := EncodeChar(c) + rest;
    assert (b[0] as int - 0xF0) * 64 + Payload(b[1]) == c as int / 4096;
    assert ((b[0] as int - 0xF0) * 64 + Payload(b[1])) * 64 + Payload(b[2]) == c as int / 64;
  }

  lemma SizedMeans(n: int, least: int, length: nat)
    requires Sized(n, least, length).Some?
    ensures least <= n < 0x11_0000 && Sized(n, least, length).value.0 as int == n && Sized(n, least, length).value.1 == length
  {
  }

  lemma Digits(x: int, p: int)
    requires 0 <= p < 64
    ensures (x * 64 + p) / 64 == x && (x * 64 + p) % 64 == p
  {
  }

  lemma EncodeDecodedChar(b: Bytes)
    requires b != [] && DecodeChar(b).Some?
    ensures var (c, n) := DecodeChar(b).value; n <= |b| && b[..n] == EncodeChar(c)
  {
    hide Sized;
    var b0: int := b[0];
    if b0 < 0x80 {
    } else if b0 < 0xE0 {
      SizedMeans((b0 - 0xC0) * 64 + Payload(b[1]), 0x80, 2);
      Digits(b0 - 0xC0, Payload(b[1]));
    } else if b0 < 0xF0 {
      var x := (b0 - 0xE0) * 64 + Payload(b[1]);
      SizedMeans(x * 64 + Payload(b[2]), 0x800, 3);
      ThreeBytes(b0 - 0xE0, Payload(b[1]), Payload(b[2]));
    } else {
      var y := ((b0 - 0xF0) * 64 + Payload(b[1])) * 64 + Payload(b[2]);
      SizedMeans(y * 64 + Payload(b[3]), 0x10000, 4);
      ThreeBytes(b0 - 0xF0, Payload(b[1]), Payload(b[2]));
      FourBytes(y, Payload(b[3]));
    }
  }

  lemma ThreeBytes(x: int, p: int, q: int)
    requires 0 <= p < 64 && 0 <= q < 64
    ensures var n := (x * 64 + p) * 64 + q; n / 64 == x * 64 + p && n / 64 % 64 == p && n % 64 == q && n / 4096 == x
  {
    Digits(x, p);
    Digits(x * 64 + p, q);
  }

  lemma FourBytes(y: int, r: int)
    requires 0 <= r < 64
    ensures var n := y * 64 + r; n / 64 == y && n % 64 == r && n / 4096 == y / 64 && n / 262144 == y / 4096
  {
    Digits(y, r);
  }

  lemma {:induction false} EncodedDecodes(cs: string)
    ensures Decode(Encode(cs)) == Some(cs)
  {
    if cs != [] {
      var b := Encode(cs);
      DecodeEncodedChar(cs[0], Encode(cs[1..]));
      assert b == EncodeChar(cs[0]) + Encode(cs[1..]);
      assert b[|EncodeChar(cs[0])|..] == Encode(cs[1..]);
      EncodedDecodes(cs[1..]);
      assert [cs[0]] + cs[1..] == cs;
    }
  }

  lemma EncodeCons(c: char, cs: string)
    ensures Encode([c] + cs) == EncodeChar(c) + Encode(cs)
  {
    assert ([c] + cs)[1..] == cs;
  }

  lemma {:induction false} DecodedEncodes(b: Bytes)
    requires Decode(b).Some?
    ensures Encode(Decode(b).value) == b
    decreases |b|
  {
    hide Encode, EncodeChar, DecodeChar;
    if b == [] {
      EncodedDecodes("");
      EncodeNothing();
    } else {
      EncodeDecodedChar(b);
      DecodeCharLength(b);
      var (c, n) := DecodeChar(b).value;
      DecodedEncodes(b[n..]);
      EncodeCons(c, Decode(b[n..]).value);
      TakeDrop(b, n);
    }
  }

  lemma EncodeNothing()
    ensures Encode("") == []
  {
  }

  /** The examples of section 7 of RFC 3629 and one character of each length. */
  lemma KnownEncodings()
    ensures EncodeChar('A') == [0x41]
    ensures EncodeChar('\U{00E9}') == [0xC3, 0xA9]
    ensures EncodeChar('\U{2262}') == [0xE2, 0x89, 0xA2] && EncodeChar('\U{0391}') == [0xCE, 0x91]
    ensures EncodeChar('\U{D55C}') == [0xED, 0x95, 0x9C] && EncodeChar('\U{65E5}') == [0xE6, 0x97, 0xA5]
    ensures EncodeChar('\U{233B4}') == [0xF0, 0xA3, 0x8E, 0xB4]
  {
  }

  /** Decoding and encoding are inverse to each other; nothing else decodes. */
  lemma DecodeInvertsEncode(b: Bytes, cs: string)
    ensures Decode(b) == Some(cs) <==> b == Encode(cs)
  {
    EncodedDecodes(cs);
    if Decode(b).Some? {
      DecodedEncodes(b);
    }
  }

  lemma ValidMeansEncoded(b: Bytes) returns (cs: string)
    requires ValidUtf8(b)
    ensures b == Encode(cs)
  {
    cs := Decode(b).value;
    DecodeInvertsEncode(b, cs);
  }

  lemma EncodedIsValid(cs: string)
    ensures ValidUtf8(Encode(cs))
  {
    DecodeInvertsEncode(Encode(cs), cs);
  }

  lemma {:induction false} EncodeConcat(a: string, b: string)
    ensures Encode(a + b) == Encode(a) + Encode(b)
  {
    if a == [] {
      assert a + b == b;
    } else {
      assert (a + b)[1..] == a[1..] + b;
      EncodeConcat(a[1..], b);
    }
  }

  // ── Boundaries ─────────────────────────────────────────────────────────

  /** `is_char_boundary`. */
  predicate IsBoundary(b: Bytes, i: nat) {
    i == 0 || i == |b| || (i < |b| && !IsContinuation(b[i]))
  }

  /** Where character `k` begins. */
  function Offset(cs: string, k: nat): nat
    requires k <= |cs|
  {
    |Encode(cs[..k])|
  }

  lemma EncodedCharShape(c: char)
    ensures !IsContinuation(EncodeChar(c)[0])
    ensures forall i :: 0 < i < |EncodeChar(c)| ==> IsContinuation(EncodeChar(c)[i])
  {
  }

  lemma FirstCharBytes(cs: string)
    requires cs != []
    ensures |EncodeChar(cs[0])| <= |Encode(cs)|
    ensures forall i :: 0 < i < |EncodeChar(cs[0])| ==> IsContinuation(Encode(cs)[i])
  {
    EncodedCharShape(cs[0]);
    assert forall i :: 0 < i < |EncodeChar(cs[0])| ==> Encode(cs)[i] == EncodeChar(cs[0])[i];
  }

  lemma OffsetStep(cs: string, k: nat)
    requires 0 < k <= |cs|
    ensures Offset(cs, k) == |EncodeChar(cs[0])| + Offset(cs[1..], k - 1)
  {
    assert cs[..k][1..] == cs[1..][..k - 1];
  }

  /** Every offset is a boundary, and the text splits there. */
  lemma OffsetIsBoundary(cs: string, k: nat)
    requires k <= |cs|
    ensures Offset(cs, k) <= |Encode(cs)|
    ensures IsBoundary(Encode(cs), Offset(cs, k))
    ensures Encode(cs)[..Offset(cs, k)] == Encode(cs[..k]) && Encode(cs)[Offset(cs, k)..] == Encode(cs[k..])
  {
    EncodeConcat(cs[..k], cs[k..]);
    assert cs == cs[..k] + cs[k..];
    if k < |cs| {
      EncodedCharShape(cs[k]);
      assert Encode(cs)[Offset(cs, k)] == Encode(cs[k..])[0];
    }
  }

  /** The boundaries of an encoded text are exactly the offsets of its characters. */
  lemma {:induction false} BoundaryIsOffset(cs: string, i: nat) returns (k: nat)
    requires i <= |Encode(cs)| && IsBoundary(Encode(cs), i)
    ensures k <= |cs| && Offset(cs, k) == i
  {
    if i == 0 {
      k := 0;
    } else {
      var n := |EncodeChar(cs[0])|;
      EncodedCharShape(cs[0]);
      FirstCharBytes(cs);
      assert n <= i < |Encode(cs)| ==> Encode(cs)[i] == Encode(cs[1..])[i - n];
      k := BoundaryIsOffset(cs[1..], i - n);
      OffsetStep(cs, k + 1);
      k := k + 1;
    }
  }

  lemma {:induction false} OffsetsIncrease(cs: string, k: nat, l: nat)
    requires k < l <= |cs|
    ensures Offset(cs, k) < Offset(cs, l)
    decreases k
  {
    OffsetStep(cs, l);
    if k > 0 {
      OffsetStep(cs, k);
      OffsetsIncrease(cs[1..], k - 1, l - 1);
    }
  }

  /** A single-byte character is itself wherever it appears, and a new character follows it. */
  lemma {:induction false} AsciiStandsAlone(cs: string, i: nat)
    requires i < |Encode(cs)| && Encode(cs)[i] < 0x80
    ensures IsBoundary(Encode(cs), i) && IsBoundary(Encode(cs), i + 1)
  {
    var n := |EncodeChar(cs[0])|;
    EncodedCharShape(cs[0]);
    if i < n {
      assert Encode(cs)[i] == EncodeChar(cs[0])[i];
      assert i == 0 && n == 1;
      if cs[1..] != [] {
        EncodedCharShape(cs[1]);
        assert Encode(cs)[1] == Encode(cs[1..])[0];
      }
    } else {
      assert Encode(cs)[i] == Encode(cs[1..])[i - n];
      AsciiStandsAlone(cs[1..], i - n);
      if i + 1 < |Encode(cs)| {
        assert Encode(cs)[i + 1] == Encode(cs[1..])[i + 1 - n];
      }
    }
  }

  // ── Cutting and joining valid text ─────────────────────────────────────

  lemma ValidConcat(a: Bytes, b: Bytes)
    requires ValidUtf8(a) && ValidUtf8(b)
    ensures ValidUtf8(a + b)
  {
    var x := ValidMeansEncoded(a);
    var y := ValidMeansEncoded(b);
    EncodeConcat(x, y);
    EncodedIsValid(x + y);
  }

  /** Slicing a `str` at boundaries does not panic and leaves two `str`s. */
  lemma ValidCut(b: Bytes, i: nat)
    requires ValidUtf8(b) && i <= |b| && IsBoundary(b, i)
    ensures ValidUtf8(b[..i]) && ValidUtf8(b[i..])
  {
    var cs := ValidMeansEncoded(b);
    var k := BoundaryIsOffset(cs, i);
    OffsetIsBoundary(cs, k);
    EncodedIsValid(cs[..k]);
    EncodedIsValid(cs[k..]);
  }

  /** A text that starts a valid text inside a valid text ends at a boundary. */
  lemma ValidPrefixBoundary(a: Bytes, b: Bytes)
    requires ValidUtf8(a) && ValidUtf8(b)
    ensures IsBoundary(a + b, |a|)
  {
    var x := ValidMeansEncoded(a);
    var y := ValidMeansEncoded(b);
    if y != [] {
      EncodedCharShape(y[0]);
      assert (a + b)[|a|] == EncodeChar(y[0])[0];
    }
  }

  lemma {:induction false} RestIsValid(cs: string, b: Bytes)
    requires ValidUtf8(Encode(cs) + b)
    ensures ValidUtf8(b)
  {
    hide EncodeChar, DecodeChar;
    if cs == [] {
      assert Encode(cs) + b == b;
    } else {
      var c, rest := EncodeChar(cs[0]), Encode(cs[1..]) + b;
      Assoc(c, Encode(cs[1..]), b, []);
      DecodeEncodedChar(cs[0], rest);
      CutConcat(c, rest);
      RestIsValid(cs[1..], b);
    }
  }

  /** A cut through a valid text leaves valid text in front exactly when it falls between characters. */
  lemma ValidPrefixExactlyAtBoundary(b: Bytes, i: nat)
    requires ValidUtf8(b) && i <= |b|
    ensures ValidUtf8(b[..i]) <==> IsBoundary(b, i)
  {
    hide Decode, IsBoundary;
    TakeDrop(b, i);
    if ValidUtf8(b[..i]) {
      var cs := ValidMeansEncoded(b[..i]);
      RestIsValid(cs, b[i..]);
      ValidPrefixBoundary(b[..i], b[i..]);
    }
    if IsBoundary(b, i) {
      ValidCut(b, i);
    }
  }

  lemma AsciiIsBoundary(b: Bytes, i: nat)
    requires ValidUtf8(b) && i < |b| && b[i] < 0x80
    ensures IsBoundary(b, i) && IsBoundary(b, i + 1)
  {
    var cs := ValidMeansEncoded(b);
    AsciiStandsAlone(cs, i);
  }

  lemma AsciiIsValid(c: Byte)
    requires c < 0x80
    ensures ValidUtf8([c])
  {
    assert Decode([c][1..]) == Some("");
  }
}

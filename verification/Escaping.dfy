/** The TOML string escaping of the checksum sidecar, and its inverse. */
module Escaping {
  import opened Slices
  import opened Wrappers

  // ── Escaping ───────────────────────────────────────────────────────────

  function UpperHexDigit(n: nat): char
    requires n < 16
  {
    if n < 10 then '0' + n as char else 'A' + (n - 10) as char
  }

  /** What one character becomes. Control characters use the four-digit form. */
  function EscapeChar(c: char): string {
    match c
    case '\\' => "\\\\"
    case '"' => "\\\""
    case '\n' => "\\n"
    case '\r' => "\\r"
    case '\t' => "\\t"
    case _ =>
      var n := c as int;
      if n < 0x20 then "\\u00" + [UpperHexDigit(n / 16), UpperHexDigit(n % 16)] else [c]
  }

  function Escape(s: string): string {
    if s == [] then "" else EscapeChar(s[0]) + Escape(s[1..])
  }

  lemma {:induction false} EscapeConcat(a: string, b: string)
    ensures Escape(a + b) == Escape(a) + Escape(b)
  {
    if a == [] {
      assert a + b == b;
    } else {
      assert (a + b)[1..] == a[1..] + b;
      EscapeConcat(a[1..], b);
    }
  }

  /** `toml_escape`: append the escape of each character in turn. */
  method TomlEscape(s: string) returns (out: string)
    ensures out == Escape(s)
  {
    out := "";
    for i := 0 to |s|
      invariant out == Escape(s[..i])
    {
      out := out + EscapeChar(s[i]);
      assert s[..i + 1] == s[..i] + [s[i]];
      EscapeConcat(s[..i], [s[i]]);
      assert Escape([s[i]]) == EscapeChar(s[i]) + Escape([]);
    }
    assert s[..|s|] == s;
  }

  // ── Unescaping ─────────────────────────────────────────────────────────

  function HexDigitValue(c: char): Option<nat> {
    if '0' <= c <= '9' then Some((c - '0') as nat)
    else if 'a' <= c <= 'f' then Some((c - 'a') as nat + 10)
    else if 'A' <= c <= 'F' then Some((c - 'A') as nat + 10)
    else None
  }

  /** The value of a string of hexadecimal digits of either case. */
  function DigitsValue(s: string): Option<nat> {
    if s == [] then Some(0) else
      match (DigitsValue(s[..|s| - 1]), HexDigitValue(s[|s| - 1]))
      case (Some(high), Some(low)) => Some(16 * high + low)
      case _ => None
  }

  /** `u32::from_str_radix(s, 16)` on at most four characters: a leading '+' is accepted. */
  function ParseHex(s: string): Option<nat> {
    var digits := if s != [] && s[0] == '+' then s[1..] else s;
    if digits == [] then None else DigitsValue(digits)
  }

  /** `char::from_u32`: surrogates and values beyond U+10FFFF are no characters. */
  function CharFrom(n: nat): Option<char> {
    if n < 0xD800 || 0xE000 <= n < 0x11_0000 then Some(n as char) else None
  }

  /** The text a `\u` escape stands for; one that names no character stays as written. */
  function UnescapeHex(hex: string): string {
    match ParseHex(hex)
    case Some(n) => (match CharFrom(n) case Some(c) => [c] case None => "\\u" + hex)
    case None => "\\u" + hex
  }

  /** The text a backslash and the character after it stand for; unknown escapes stay as written. */
  function UnescapePair(c: char): string {
    match c
    case '\\' => "\\"
    case '"' => "\""
    case 'n' => "\n"
    case 'r' => "\r"
    case 't' => "\t"
    case _ => ['\\', c]
  }

  function HexEnd(s: string): nat {
    if |s| < 6 then |s| else 6
  }

  function Unescape(s: string): string
    decreases |s|
  {
    if s == [] then ""
    else if s[0] != '\\' then [s[0]] + Unescape(s[1..])
    else if |s| == 1 then "\\"
    else if s[1] == 'u' then UnescapeHex(s[2..HexEnd(s)]) + Unescape(s[HexEnd(s)..])
    else UnescapePair(s[1]) + Unescape(s[2..])
  }

  /** `toml_unescape`: consume one escape or one plain character at a time. */
  method TomlUnescape(s: string) returns (out: string)
    ensures out == Unescape(s)
  {
    out := "";
    var chars := s;
    while chars != []
      invariant out + Unescape(chars) == Unescape(s)
      decreases |chars|
    {
      hide UnescapeHex, UnescapePair;
      var c := chars[0];
      var piece, rest;
      if c != '\\' {
        piece, rest := [c], chars[1..];
      } else if |chars| == 1 {
        piece, rest := "\\", [];
        assert piece + "" == piece;
      } else if chars[1] == 'u' {
        var end := HexEnd(chars);
        piece, rest := UnescapeHex(chars[2..end]), chars[end..];
      } else {
        piece, rest := UnescapePair(chars[1]), chars[2..];
      }
      assert Unescape(chars) == piece + Unescape(rest);
      Assoc(out, piece, Unescape(rest), []);
      out, chars := out + piece, rest;
    }
  }

  // ── They undo each other ───────────────────────────────────────────────

  lemma ControlEscapeParses(n: nat)
    requires n < 0x20
    ensures ParseHex("00" + [UpperHexDigit(n / 16), UpperHexDigit(n % 16)]) == Some(n)
  {
    var high, low := UpperHexDigit(n / 16), UpperHexDigit(n % 16);
    var s := "00" + [high, low];
    assert HexDigitValue(high) == Some(n / 16) && HexDigitValue(low) == Some(n % 16);
    assert s[..3] == "00" + [high] && s[..3][..2] == "00" && "00"[..1] == "0" && "0"[..0] == "";
    assert DigitsValue("") == Some(0);
    assert DigitsValue("0") == Some(0);
    assert DigitsValue("00") == Some(0);
    assert DigitsValue(s[..3]) == Some(n / 16);
  }

  /** Unescaping takes back exactly one escaped character and goes on with what follows. */
  lemma UnescapeOne(c: char, rest: string)
    ensures Unescape(EscapeChar(c) + rest) == [c] + Unescape(rest)
  {
    var s := EscapeChar(c) + rest;
    if c in "\\\"\n\r\t" {
      assert |EscapeChar(c)| == 2 && s[2..] == rest;
      assert UnescapePair(s[1]) == [c];
    } else if c as int < 0x20 {
      var n := c as int;
      var hex := "00" + [UpperHexDigit(n / 16), UpperHexDigit(n % 16)];
      assert s == "\\u" + hex + rest;
      assert s[2..HexEnd(s)] == hex && s[HexEnd(s)..] == rest;
      ControlEscapeParses(n);
    } else {
      assert s[1..] == rest;
    }
  }

  lemma {:induction false} UnescapeAfterEscape(s: string, rest: string)
    ensures Unescape(Escape(s) + rest) == s + Unescape(rest)
  {
    hide Unescape, EscapeChar;
    if s == [] {
      assert Escape(s) + rest == rest;
    } else {
      assert Escape(s) + rest == EscapeChar(s[0]) + (Escape(s[1..]) + rest);
      UnescapeOne(s[0], Escape(s[1..]) + rest);
      UnescapeAfterEscape(s[1..], rest);
    }
  }

  /** Unescaping undoes escaping, for every string. */
  lemma UnescapeUndoesEscape(s: string)
    ensures Unescape(Escape(s)) == s
  {
    UnescapeAfterEscape(s, "");
    assert Escape(s) + "" == Escape(s);
  }

  lemma EscapeCharShape(c: char)
    ensures EscapeChar(c) != "" && '\n' !in EscapeChar(c) && '\r' !in EscapeChar(c)
    ensures '=' in EscapeChar(c) <==> c == '='
    ensures '"' in EscapeChar(c) ==> c == '"'
    ensures EscapeChar(c)[|EscapeChar(c)| - 1] == '"' ==> c == '"'
  {
  }

  /** Escaped text holds no line break, and an equals sign or a quote only where the text did. */
  lemma {:induction false} EscapedCharacters(s: string)
    ensures '\n' !in Escape(s) && '\r' !in Escape(s)
    ensures '=' in Escape(s) <==> '=' in s
    ensures '"' !in s ==> '"' !in Escape(s)
  {
    hide EscapeChar;
    if s != [] {
      EscapeCharShape(s[0]);
      EscapedCharacters(s[1..]);
      Cons(s);
    }
  }

  /** No two strings share an escaped form. */
  lemma EscapeInjective(a: string, b: string)
    requires Escape(a) == Escape(b)
    ensures a == b
  {
    UnescapeUndoesEscape(a);
    UnescapeUndoesEscape(b);
  }
}

/**
 The sidecar's text as a reader of the file sees it: what the writer puts there, and what the
 parser makes of lines it did not write itself.
 */
module SidecarSyntax {
  import opened Slices
  import opened Wrappers
  import opened Text
  import opened Escaping
  import opened Order
  import opened Sidecar

  // ── Escapes ────────────────────────────────────────────────────────────

  /** Characters that are written as they are. */
  predicate WrittenAsIs(s: string) {
    forall c :: c in s ==> c != '"' && c != '\\' && c as int >= 0x20
  }

  lemma {:induction false} EscapeAsIs(s: string)
    requires WrittenAsIs(s)
    ensures Escape(s) == s
  {
    hide EscapeChar;
    if s != "" {
      assert forall c :: c in s[1..] ==> c in s;
      EscapeAsIs(s[1..]);
      assert s[0] in s;
      CharAsIs(s[0]);
      Cons(s);
    }
  }

  lemma CharAsIs(c: char)
    requires c != '"' && c != '\\' && c as int >= 0x20
    ensures EscapeChar(c) == [c]
  {
  }

  /** Other control characters are written as `\u00` and their number in two upper-case digits. */
  lemma ControlEscape(c: char)
    requires c as int < 0x20 && c !in "\n\r\t"
    ensures var e := EscapeChar(c);
      && |e| == 6 && e[..4] == "\\u00" && DigitsValue(e[2..]) == Some(c as int)
      && forall k :: 4 <= k < 6 ==> e[k] in "0123456789ABCDEF"
  {
    ControlEscapeParses(c as int);
    var n := c as int;
    assert EscapeChar(c)[2..] == "00" + [UpperHexDigit(n / 16), UpperHexDigit(n % 16)];
  }

  lemma {:induction false} UnescapeAsIs(s: string, rest: string)
    requires '\\' !in s
    ensures Unescape(s + rest) == s + Unescape(rest)
  {
    if s == "" {
      assert s + rest == rest;
    } else {
      assert (s + rest)[0] == s[0] && (s + rest)[1..] == s[1..] + rest;
      UnescapeAsIs(s[1..], rest);
    }
  }

  /** What is no escape stays as it is written, and so does a backslash with nothing after it. */
  lemma UnknownEscapeStays(c: char, rest: string)
    requires c !in "\\\"nrtu"
    ensures Unescape("\\" + [c] + rest) == "\\" + [c] + Unescape(rest)
    ensures Unescape("\\") == "\\"
  {
    var s := "\\" + [c] + rest;
    assert s[2..] == rest && s[1] == c;
    assert c != 'u' && UnescapePair(c) == ['\\', c] by {
      assert "\\\"nrtu"[0] == '\\' && "\\\"nrtu"[1] == '"' && "\\\"nrtu"[2] == 'n' && "\\\"nrtu"[3] == 'r';
      assert "\\\"nrtu"[4] == 't' && "\\\"nrtu"[5] == 'u';
    }
  }

  /** Four hexadecimal digits of either case stand for the character of that number, where there is one. */
  lemma HexEscape(hex: string, rest: string)
    requires |hex| == 4 && DigitsValue(hex).Some?
    ensures var n := DigitsValue(hex).value;
      Unescape("\\u" + hex + rest) ==
        (if n < 0xD800 || 0xE000 <= n < 0x11_0000 then [n as char] else "\\u" + hex) + Unescape(rest)
  {
    var s := "\\u" + hex + rest;
    assert s[1] == 'u' && HexEnd(s) == 6 && s[2..6] == hex && s[6..] == rest;
    NoSign(hex);
  }

  /** A sign in front of the digits is let pass, as the number parser does. */
  lemma SignedHexEscape(hex: string, rest: string)
    requires |hex| == 3 && DigitsValue(hex).Some? && DigitsValue(hex).value < 0xD800
    ensures Unescape("\\u+" + hex + rest) == [DigitsValue(hex).value as char] + Unescape(rest)
  {
    var s := "\\u+" + hex + rest;
    assert s[1] == 'u' && HexEnd(s) == 6 && s[2..6] == "+" + hex && s[6..] == rest;
    assert ("+" + hex)[1..] == hex;
  }

  lemma {:induction false} NoSign(hex: string)
    requires hex != "" && DigitsValue(hex).Some?
    ensures hex[0] != '+'
  {
    if |hex| > 1 {
      NoSign(hex[..|hex| - 1]);
    }
  }

  // ── What is written ────────────────────────────────────────────────────

  /** Keys are written in ascending order, each once. */
  lemma KeysAscend<V>(m: map<string, V>)
    ensures forall i, j :: 0 <= i < j < |Keys(m)| ==> StringLess(Keys(m)[i], Keys(m)[j])
  {
    StringOrder();
  }

  lemma OneKey<V>(k: string, v: V)
    ensures Keys(map[k := v]) == [k]
  {
    var m := map[k := v];
    StringOrder();
    assert m.Keys == {k} && {k} - {k} == {};
    assert Least(StringLess, {k}) == k;
    var none: set<string> := {};
    assert Ascending(StringLess, none) == [];
    assert Ascending(StringLess, {k}) == [k] + Ascending(StringLess, none);
  }

  /** The file for one hash: a section line, a line for the triple, an empty line. */
  lemma FileOfOneHash(version: string, triple: string, hash: string)
    requires WrittenAsIs(version) && WrittenAsIs(triple) && WrittenAsIs(hash)
    ensures ToToml(map[version := map[triple := hash]]) ==
      "[versions.\"" + version + "\".sha256]" + "\n" + "\"" + triple + "\"" + " = " + "\"" + hash + "\"" + "\n" + "\n"
  {
    hide Escape, Keys;
    var triples := map[triple := hash];
    var m := map[version := triples];
    OneKey(version, triples);
    OneKey(triple, hash);
    EscapeAsIs(version);
    EscapeAsIs(triple);
    EscapeAsIs(hash);
    var header, line := "[versions.\"" + version + "\".sha256]", "\"" + triple + "\"" + " = " + "\"" + hash + "\"";
    assert Header(version) == header && KeyLine(triple, hash) == line;
    assert TripleLines([triple], triples) == [line] by { assert [triple][1..] == []; }
    assert FileLines([version], m) == [header, line, ""] by { assert [version][1..] == []; }
    ThreeLines(header, line, "");
  }

  lemma ThreeLines(a: string, b: string, c: string)
    ensures Unlines([a, b, c]) == a + "\n" + b + "\n" + c + "\n"
  {
    assert [a, b, c][1..] == [b, c] && [b, c][1..] == [c] && [c][1..] == [];
    assert Unlines([c]) == c + "\n" + "";
  }

  // ── What is read ───────────────────────────────────────────────────────

  predicate Blank(s: string) {
    forall c :: c in s ==> IsWhitespace(c)
  }

  lemma {:induction false} TrimStartBlank(p: string, s: string)
    requires Blank(p)
    ensures TrimStart(p + s) == TrimStart(s)
  {
    hide IsWhitespace;
    if p == "" {
      assert p + s == s;
    } else {
      assert (p + s)[0] == p[0] && p[0] in p && (p + s)[1..] == p[1..] + s;
      TrimStartBlank(p[1..], s);
    }
  }

  lemma {:induction false} TrimEndBlank(s: string, q: string)
    requires Blank(q)
    ensures TrimEnd(s + q) == TrimEnd(s)
  {
    hide IsWhitespace;
    if q == "" {
      assert s + q == s;
    } else {
      var n := |q| - 1;
      assert (s + q)[|s + q| - 1] == q[n] && q[n] in q && (s + q)[..|s + q| - 1] == s + q[..n];
      TrimEndBlank(s, q[..n]);
    }
  }

  lemma TrimPadded(p: string, s: string, q: string)
    requires Blank(p) && Blank(q) && s != "" && !IsWhitespace(s[0]) && !IsWhitespace(s[|s| - 1])
    ensures Trim(p + s + q) == s
  {
    hide IsWhitespace, Blank;
    assert p + s + q == p + (s + q);
    TrimStartBlank(p, s + q);
    assert TrimStart(s + q) == s + q by { assert (s + q)[0] == s[0]; }
    TrimEndBlank(s, q);
  }

  /** A word that needs no quotes. */
  predicate BareWord(w: string) {
    w != "" && forall c :: c in w ==> !IsWhitespace(c) && c !in "=\"\\#["
  }

  lemma BareWordFacts(w: string)
    requires BareWord(w)
    ensures w != "" && !IsWhitespace(w[0]) && !IsWhitespace(w[|w| - 1])
    ensures '=' !in w && '\\' !in w && w[0] != '"' && w[0] != '#' && w[0] != '['
  {
    hide IsWhitespace;
    assert w[0] in w && w[|w| - 1] in w;
    var odd := "=\"\\#[";
    assert odd[0] == '=' && odd[1] == '"' && odd[2] == '\\' && odd[3] == '#' && odd[4] == '[';
  }

  lemma BareValue(p: string, w: string, q: string)
    requires Blank(p) && Blank(q) && BareWord(w)
    ensures Value(p + w + q) == w
  {
    hide Trim, Unescape, IsWhitespace, Blank, BareWord;
    BareWordFacts(w);
    TrimPadded(p, w, q);
    assert StripOneQuote(w) == w;
    UnescapeAsIs(w, "");
    assert w + "" == w && Unescape("") == "" by { UnescapeEmpty(); }
  }

  lemma UnescapeEmpty()
    ensures Unescape("") == ""
  {
  }

  lemma BlankHoldsNoEquals(p: string)
    requires Blank(p)
    ensures '=' !in p
  {
  }

  /** Quotes are optional around plain words, and so is whitespace anywhere around them. */
  lemma ReadBareLine(st: ParseState, version: string, triple: string, hash: string,
                     p1: string, p2: string, p3: string, p4: string)
    requires st.current == Some(version) && BareWord(triple) && BareWord(hash)
    requires Blank(p1) && Blank(p2) && Blank(p3) && Blank(p4)
    ensures ParseLine(st, p1 + (triple + p2 + "=" + (p3 + hash)) + p4) ==
      st.(versions := Insert(st.versions, version, triple, hash))
  {
    hide Trim, Value, IsWhitespace, Blank, BareWord, SplitOnce;
    BareWordFacts(triple);
    BareWordFacts(hash);
    BlankHoldsNoEquals(p2);
    var line := triple + p2 + "=" + (p3 + hash);
    assert line[0] == triple[0] && line[|line| - 1] == hash[|hash| - 1];
    TrimPadded(p1, line, p4);
    assert SectionName(line) == None;
    SplitOnceAt(triple + p2, '=', p3 + hash);
    assert Blank("") by { NothingIsBlank(); }
    BareValue("", triple, p2);
    BareValue(p3, hash, "");
    assert "" + triple + p2 == triple + p2 && p3 + hash + "" == p3 + hash;
  }

  lemma NothingIsBlank()
    ensures Blank("")
  {
  }

  /** Empty lines, comments, keys before any section and lines that are neither key nor section say nothing. */
  lemma IgnoredLines(st: ParseState, raw: string)
    requires var line := Trim(raw);
      line == "" || line[0] == '#' || (line[0] != '[' && (st.current == None || '=' !in line))
    ensures ParseLine(st, raw) == st
  {
    hide Trim, Value;
    var line := Trim(raw);
    if line != "" && line[0] != '#' {
      assert SectionName(line) == None;
    }
  }
}

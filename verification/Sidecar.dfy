/**
 The checksum sidecar: recorded hashes by version and triple, the text they are stored as, and
 the line parser that reads the text back.
 */
module Sidecar {
  import opened Slices
  import opened Wrappers
  import opened Text
  import opened Escaping
  import opened Order

  type Triples = map<string, string>
  type Checksums = map<string, Triples>

  function Lookup(m: Checksums, version: string, triple: string): Option<string> {
    if version in m && triple in m[version] then Some(m[version][triple]) else None
  }

  function Insert(m: Checksums, version: string, triple: string, hash: string): Checksums {
    m[version := (if version in m then m[version] else map[])[triple := hash]]
  }

  // ── Writing ────────────────────────────────────────────────────────────

  /** The keys of a map in the order a `BTreeMap` visits them. */
  ghost function Keys<V>(m: map<string, V>): (ks: seq<string>)
    ensures forall k :: k in ks <==> k in m
  {
    StringOrder();
    Ascending(StringLess, m.Keys)
  }

  function Quoted(s: string): string {
    "\"" + Escape(s) + "\""
  }

  function Header(version: string): string {
    "[versions." + Quoted(version) + ".sha256]"
  }

  function KeyLine(triple: string, hash: string): string {
    Quoted(triple) + " = " + Quoted(hash)
  }

  function TripleLines(ts: seq<string>, triples: Triples): seq<string>
    requires forall t :: t in ts ==> t in triples
  {
    if ts == [] then [] else [KeyLine(ts[0], triples[ts[0]])] + TripleLines(ts[1..], triples)
  }

  ghost function FileLines(vs: seq<string>, m: Checksums): seq<string>
    requires forall v :: v in vs ==> v in m
  {
    if vs == [] then [] else
      [Header(vs[0])] + TripleLines(Keys(m[vs[0]]), m[vs[0]]) + [""] + FileLines(vs[1..], m)
  }

  /** The text of the sidecar file. */
  ghost function ToToml(m: Checksums): string {
    Unlines(FileLines(Keys(m), m))
  }

  // ── Reading ────────────────────────────────────────────────────────────

  /** `strip_one_quote`: one wrapping quote from each end when both are there. */
  function StripOneQuote(s: string): string {
    match StripPrefix(s, "\"")
    case Some(inner) => (match StripSuffix(inner, "\"") case Some(x) => x case None => s)
    case None => s
  }

  function SectionName(line: string): Option<string> {
    match StripPrefix(line, "[versions.")
    case Some(rest) => StripSuffix(rest, ".sha256]")
    case None => None
  }

  /** What has been parsed, and the section the next key belongs to. */
  datatype ParseState = ParseState(versions: Checksums, current: Option<string>)

  function Value(raw: string): string {
    Unescape(StripOneQuote(Trim(raw)))
  }

  function ParseLine(st: ParseState, raw: string): ParseState {
    var line := Trim(raw);
    if line == [] || line[0] == '#' then st
    else
      match SectionName(line)
      case Some(inner) => st.(current := Some(Unescape(StripOneQuote(inner))))
      case None =>
        match (st.current, SplitOnce(line, '='))
        case (Some(version), Some((key, val))) =>
          if Value(key) != "" && Value(val) != "" then
            st.(versions := Insert(st.versions, version, Value(key), Value(val)))
          else st
        case _ => st
  }

  function ParseLines(st: ParseState, lines: seq<string>): ParseState
    decreases |lines|
  {
    if lines == [] then st else ParseLines(ParseLine(st, lines[0]), lines[1..])
  }

  function FromToml(s: string): Checksums {
    ParseLines(ParseState(map[], None), Lines(s)).versions
  }

  lemma {:induction false} ParseConcat(st: ParseState, a: seq<string>, b: seq<string>)
    ensures ParseLines(st, a + b) == ParseLines(ParseLines(st, a), b)
    decreases |a|
  {
    hide ParseLine;
    if a == [] {
      assert a + b == b;
    } else {
      assert (a + b)[1..] == a[1..] + b;
      ParseConcat(ParseLine(st, a[0]), a[1..], b);
    }
  }

  // ── One written line, read back ────────────────────────────────────────

  lemma StripQuotes(e: string)
    ensures StripOneQuote("\"" + e + "\"") == e
  {
    var q := "\"" + e + "\"";
    assert q[1..] == e + "\"";
  }

  lemma ValueOfQuoted(s: string)
    ensures Value(Quoted(s) + " ") == s && Value(" " + Quoted(s)) == s
  {
    hide Escape, Unescape, Trim, StripOneQuote;
    TrimOneBlank(Quoted(s));
    StripQuotes(Escape(s));
    UnescapeUndoesEscape(s);
  }

  lemma SectionOfHeader(q: string)
    ensures SectionName("[versions." + q + ".sha256]") == Some(q)
  {
    var line := "[versions." + q + ".sha256]";
    assert line[|"[versions."|..] == q + ".sha256]";
  }

  lemma ReadHeader(st: ParseState, version: string)
    ensures ParseLine(st, Header(version)) == st.(current := Some(version))
  {
    hide Escape, Unescape, Trim, SectionName, StripOneQuote;
    TrimNothing(Header(version));
    SectionOfHeader(Quoted(version));
    StripQuotes(Escape(version));
    UnescapeUndoesEscape(version);
  }

  /** A key line is neither blank, nor a comment, nor a section header. */
  lemma KeyLineIsNoHeader(triple: string, hash: string)
    ensures var line := KeyLine(triple, hash);
            Trim(line) == line && line != [] && line[0] == '"' && SectionName(line) == None
  {
    hide Escape, Trim;
    TrimNothing(KeyLine(triple, hash));
  }

  /** A triple without an equals sign is read back with its hash, unless one of them is empty. */
  lemma ReadKeyLine(st: ParseState, version: string, triple: string, hash: string)
    requires st.current == Some(version) && '=' !in triple
    ensures ParseLine(st, KeyLine(triple, hash)) ==
            if triple != "" && hash != "" then st.(versions := Insert(st.versions, version, triple, hash)) else st
  {
    hide Escape, Trim, SectionName, Value, SplitOnce;
    KeyLineIsNoHeader(triple, hash);
    EscapedCharacters(triple);
    var key, val := Quoted(triple) + " ", " " + Quoted(hash);
    assert KeyLine(triple, hash) == key + "=" + val;
    SplitOnceAt(key, '=', val);
    ValueOfQuoted(triple);
    ValueOfQuoted(hash);
  }

  /** What a key that was cut at an equals sign can look like. */
  predicate Mangled(key: string) {
    key != "" && '=' !in key && (key[0] == '"' || key[|key| - 1] == '\\')
  }

  lemma EscapeOne(c: char)
    ensures Escape([c]) == EscapeChar(c)
  {
    assert Escape([c]) == EscapeChar(c) + Escape([c][1..]);
  }

  lemma EscapeLast(s: string)
    requires s != []
    ensures Escape(s) == Escape(s[..|s| - 1]) + EscapeChar(s[|s| - 1])
  {
    hide Escape, EscapeChar;
    var front, c := s[..|s| - 1], s[|s| - 1];
    assert s == front + [c];
    EscapeConcat(front, [c]);
    EscapeOne(c);
  }

  /** A character whose escape ends in whitespace is that whitespace. */
  lemma WhitespaceEscape(c: char)
    requires IsWhitespace(EscapeChar(c)[|EscapeChar(c)| - 1])
    ensures EscapeChar(c) == [c]
  {
  }

  lemma TrimEndSnoc(s: string, c: char)
    ensures TrimEnd(s + [c]) == if IsWhitespace(c) then TrimEnd(s) else s + [c]
  {
    assert (s + [c])[..|s + [c]| - 1] == s;
  }

  /** Trimming the opening quote and some escaped text leaves the quote and a shorter text. */
  lemma {:induction false} TrimEscapedEnd(t: string) returns (u: string)
    ensures TrimEnd("\"" + Escape(t)) == "\"" + Escape(u) && u <= t
  {
    hide Escape, EscapeChar, TrimEnd, IsWhitespace;
    u := t;
    if t == [] {
      EscapeNothing();
      QuoteStays();
    } else {
      var front, c := t[..|t| - 1], t[|t| - 1];
      EscapeLast(t);
      EscapeCharShape(c);
      var e := EscapeChar(c);
      var head, x := "\"" + Escape(front) + e[..|e| - 1], e[|e| - 1];
      assert "\"" + Escape(t) == head + [x];
      TrimEndSnoc(head, x);
      if IsWhitespace(x) {
        WhitespaceEscape(c);
        assert head == "\"" + Escape(front);
        u := TrimEscapedEnd(front);
      }
    }
  }

  lemma EscapeNothing()
    ensures Escape("") == ""
  {
  }

  lemma QuoteStays()
    ensures TrimEnd("\"" + "") == "\"" + ""
  {
  }

  lemma TrimOpenQuote(e: string)
    ensures Trim("\"" + e) == TrimEnd("\"" + e)
  {
  }

  /** The raw key before an equals sign inside a triple is never read as that triple. */
  lemma CutKeyIsMangled(front: string)
    requires '=' !in front
    ensures Mangled(Value("\"" + Escape(front)))
  {
    hide Trim, Escape, EscapeChar, Unescape, TrimEnd;
    TrimOpenQuote(Escape(front));
    var u := TrimEscapedEnd(front);
    OpenQuoteIsMangled(u);
  }

  lemma OpenQuoteIsMangled(u: string)
    requires '=' !in u
    ensures Mangled(Unescape(StripOneQuote("\"" + Escape(u))))
  {
    hide Escape, EscapeChar, Unescape;
    if u != [] && u[|u| - 1] == '"' {
      var v := u[..|u| - 1];
      EscapeLast(u);
      QuoteEscape();
      Assoc("\"", Escape(v), "\\", "\"");
      assert "\"" + Escape(u) == "\"" + (Escape(v) + "\\") + "\"";
      StripQuotes(Escape(v) + "\\");
      UnescapeAfterEscape(v, "\\");
      LoneBackslash();
    } else {
      NoClosingQuote(u);
      StripsNothing(Escape(u));
      UnescapeUndoesEscape(u);
      PlainFirst('"', Escape(u));
    }
  }

  lemma QuoteEscape()
    ensures EscapeChar('"') == "\\" + "\""
  {
  }

  lemma StripsNothing(e: string)
    requires !EndsWith(e, "\"")
    ensures StripOneQuote("\"" + e) == ['"'] + e
  {
    assert ("\"" + e)[1..] == e;
  }

  lemma LoneBackslash()
    ensures Unescape("\\") == "\\"
  {
  }

  lemma PlainFirst(c: char, rest: string)
    requires c != '\\'
    ensures Unescape([c] + rest) == [c] + Unescape(rest)
  {
    assert ([c] + rest)[1..] == rest;
  }

  lemma NoClosingQuote(u: string)
    requires u != [] ==> u[|u| - 1] != '"'
    ensures !EndsWith(Escape(u), "\"")
  {
    hide Escape, EscapeChar;
    if u == [] {
      EscapeNothing();
    } else {
      var c := u[|u| - 1];
      EscapeLast(u);
      EscapeCharShape(c);
      assert Escape(u)[|Escape(u)| - 1] == EscapeChar(c)[|EscapeChar(c)| - 1];
    }
  }

  lemma ReadCutLine(st: ParseState, version: string, triple: string, hash: string) returns (key: string, val: string)
    requires st.current == Some(version) && '=' in triple
    ensures Mangled(key)
    ensures var st' := ParseLine(st, KeyLine(triple, hash));
            st' == st || (val != "" && st' == st.(versions := Insert(st.versions, version, key, val)))
  {
    hide Escape, Trim, SectionName, Value, SplitOnce, Mangled;
    KeyLineIsNoHeader(triple, hash);
    var i := IndexOf(triple, '=');
    var front, back := triple[..i], triple[i + 1..];
    assert triple == front + "=" + back;
    EscapeAroundEquals(front, back);
    EscapedCharacters(front);
    var rawKey, rawVal := "\"" + Escape(front), Escape(back) + "\" = " + Quoted(hash);
    assert KeyLine(triple, hash) == rawKey + "=" + rawVal;
    SplitOnceAt(rawKey, '=', rawVal);
    CutKeyIsMangled(front);
    key, val := Value(rawKey), Value(rawVal);
  }

  lemma EscapeAroundEquals(a: string, b: string)
    ensures Escape(a + "=" + b) == Escape(a) + "=" + Escape(b)
  {
    hide Escape, EscapeChar;
    EscapeConcat(a + "=", b);
    EscapeConcat(a, "=");
    EscapeOne('=');
    EqualsEscape();
  }

  lemma EqualsEscape()
    ensures EscapeChar('=') == "="
  {
  }
}

/** What survives writing the checksum sidecar and reading it back: exactly what, and always what. */
module SidecarFile {
  import opened Slices
  import opened Wrappers
  import opened Text
  import opened Escaping
  import opened Order
  import opened Sidecar

  /** Every version has a triple, and no triple or hash is empty. */
  ghost predicate Tidy(m: Checksums) {
    forall v :: v in m ==> m[v] != map[] && forall t :: t in m[v] ==> t != "" && m[v][t] != ""
  }

  ghost predicate NoEquals(m: Checksums) {
    forall v :: v in m ==> forall t :: t in m[v] ==> '=' !in t
  }

  /** The sidecars that the text format can represent. */
  ghost predicate WellFormed(m: Checksums) {
    Tidy(m) && NoEquals(m)
  }

  // ── The text splits back into the lines it was written as ──────────────

  lemma HeaderIsPlain(v: string)
    ensures PlainLine(Header(v))
  {
    EscapedCharacters(v);
    hide Escape;
  }

  lemma KeyLineIsPlain(t: string, h: string)
    ensures PlainLine(KeyLine(t, h))
  {
    EscapedCharacters(t);
    EscapedCharacters(h);
    hide Escape;
  }

  lemma {:induction false} TripleLinesArePlain(ts: seq<string>, triples: Triples)
    requires forall t :: t in ts ==> t in triples
    ensures forall line :: line in TripleLines(ts, triples) ==> PlainLine(line)
  {
    if ts != [] {
      KeyLineIsPlain(ts[0], triples[ts[0]]);
      TripleLinesArePlain(ts[1..], triples);
    }
  }

  lemma {:induction false} FileLinesArePlain(vs: seq<string>, m: Checksums)
    requires forall v :: v in vs ==> v in m
    ensures forall line :: line in FileLines(vs, m) ==> PlainLine(line)
  {
    hide PlainLine;
    if vs != [] {
      HeaderIsPlain(vs[0]);
      TripleLinesArePlain(Keys(m[vs[0]]), m[vs[0]]);
      assert PlainLine("") by { EmptyIsPlain(); }
      FileLinesArePlain(vs[1..], m);
    }
  }

  lemma EmptyIsPlain()
    ensures PlainLine("")
  {
  }

  lemma ReadsItsLines(m: Checksums)
    ensures FromToml(ToToml(m)) == ParseLines(ParseState(map[], None), FileLines(Keys(m), m)).versions
  {
    hide ParseLines, Lines, FileLines, PlainLine;
    FileLinesArePlain(Keys(m), m);
    LinesOfUnlines(FileLines(Keys(m), m));
  }

  // ── What one section contributes ───────────────────────────────────────

  lemma ReadNothing(st: ParseState)
    ensures ParseLines(st, []) == st
  {
  }

  lemma BlankLine(st: ParseState)
    ensures ParseLine(st, "") == st
  {
  }

  lemma ParseCons(st: ParseState, line: string, rest: seq<string>)
    ensures ParseLines(st, [line] + rest) == ParseLines(ParseLine(st, line), rest)
  {
    assert ([line] + rest)[1..] == rest;
  }

  /** A section is its header, its keys and a blank line. */
  lemma ReadSection(st: ParseState, v: string, triples: Triples, rest: seq<string>)
    ensures var lines := [Header(v)] + TripleLines(Keys(triples), triples) + [""] + rest;
            ParseLines(st, lines) ==
            ParseLines(ParseLines(st.(current := Some(v)), TripleLines(Keys(triples), triples)), rest)
  {
    hide ParseLine, ParseLines, Header, TripleLines;
    var keys := TripleLines(Keys(triples), triples);
    Assoc([Header(v)], keys, [""], rest);
    Assoc([Header(v)], keys, [""] + rest, []);
    ReadHeader(st, v);
    ParseCons(st, Header(v), keys + ([""] + rest));
    ParseConcat(st.(current := Some(v)), keys, [""] + rest);
    BlankLine(ParseLines(st.(current := Some(v)), keys));
    ParseCons(ParseLines(st.(current := Some(v)), keys), "", rest);
  }

  /** Reading keys stays in the section and touches no other version. */
  ghost predicate Confined(st: ParseState, r: ParseState, v: string) {
    && r.current == st.current
    && forall w :: w != v ==> (w in r.versions <==> w in st.versions)
                              && (w in st.versions ==> r.versions[w] == st.versions[w])
  }

  lemma {:induction false} ReadTriplesConfined(st: ParseState, v: string, ts: seq<string>, triples: Triples)
    requires st.current == Some(v) && forall t :: t in ts ==> t in triples
    ensures Confined(st, ParseLines(st, TripleLines(ts, triples)), v)
    ensures NoEquals(st.versions) ==> NoEquals(ParseLines(st, TripleLines(ts, triples)).versions)
    decreases |ts|
  {
    hide ParseLine, KeyLine;
    if ts != [] {
      var st' := ParseLine(st, KeyLine(ts[0], triples[ts[0]]));
      if '=' in ts[0] {
        var k, h := ReadCutLine(st, v, ts[0], triples[ts[0]]);
      } else {
        ReadKeyLine(st, v, ts[0], triples[ts[0]]);
      }
      ReadTriplesConfined(st', v, ts[1..], triples);
    }
  }

  // ── Lookups of ordinary triples always survive ─────────────────────────

  /** A triple the line format cannot confuse with a cut key: every host triple is one. */
  predicate PlainTriple(t: string) {
    t != "" && '=' !in t && !Mangled(t)
  }

  function NonEmpty(o: Option<string>): Option<string> {
    if o == Some("") then None else o
  }

  lemma {:induction false} ReadTriplesLookup(st: ParseState, v: string, ts: seq<string>, triples: Triples, t: string)
    requires st.current == Some(v) && (forall x :: x in ts ==> x in triples) && PlainTriple(t)
    ensures Lookup(ParseLines(st, TripleLines(ts, triples)).versions, v, t) ==
            if t in ts && triples[t] != "" then Some(triples[t]) else Lookup(st.versions, v, t)
    decreases |ts|
  {
    hide ParseLine, KeyLine;
    if ts != [] {
      var st' := ParseLine(st, KeyLine(ts[0], triples[ts[0]]));
      if '=' in ts[0] {
        var k, h := ReadCutLine(st, v, ts[0], triples[ts[0]]);
        assert Lookup(st'.versions, v, t) == Lookup(st.versions, v, t);
      } else {
        ReadKeyLine(st, v, ts[0], triples[ts[0]]);
      }
      assert st'.current == Some(v);
      ReadTriplesLookup(st', v, ts[1..], triples, t);
    }
  }

  lemma {:induction false} ReadFileLookup(st: ParseState, vs: seq<string>, m: Checksums, v: string, t: string)
    requires (forall w :: w in vs ==> w in m) && PlainTriple(t)
    ensures Lookup(ParseLines(st, FileLines(vs, m)).versions, v, t) ==
            if v in vs && NonEmpty(Lookup(m, v, t)) != None then Lookup(m, v, t) else Lookup(st.versions, v, t)
    decreases |vs|
  {
    hide ParseLine, ParseLines, TripleLines, Header, PlainTriple, NoEquals;
    ReadNothing(st);
    if vs != [] {
      var w, triples := vs[0], m[vs[0]];
      var mid := ParseLines(st.(current := Some(w)), TripleLines(Keys(triples), triples));
      ReadSection(st, w, triples, FileLines(vs[1..], m));
      ReadTriplesConfined(st.(current := Some(w)), w, Keys(triples), triples);
      ReadTriplesLookup(st.(current := Some(w)), w, Keys(triples), triples, t);
      ReadFileLookup(mid, vs[1..], m, v, t);
    }
  }

  /** Whatever else is recorded, the hash recorded for an ordinary triple is read back. */
  lemma LookupSurvives(m: Checksums, v: string, t: string)
    requires PlainTriple(t)
    ensures Lookup(FromToml(ToToml(m)), v, t) == NonEmpty(Lookup(m, v, t))
  {
    ReadsItsLines(m);
    ReadFileLookup(ParseState(map[], None), Keys(m), m, v, t);
  }

  // ── The whole sidecar survives exactly when it is well formed ──────────

  function Pick<V>(m: map<string, V>, ks: seq<string>): map<string, V>
    requires forall k :: k in ks ==> k in m
  {
    map k | k in ks :: m[k]
  }

  /** Recording the first key and then the others is recording them all. */
  lemma PickFirst<V>(base: map<string, V>, m: map<string, V>, ks: seq<string>)
    requires ks != [] && forall k :: k in ks ==> k in m
    ensures base[ks[0] := m[ks[0]]] + Pick(m, ks[1..]) == base + Pick(m, ks)
  {
    assert forall k :: k in ks <==> k == ks[0] || k in ks[1..];
  }

  lemma {:induction false} ReadTriplesExactly(st: ParseState, v: string, ts: seq<string>, triples: Triples)
    requires st.current == Some(v) && ts != []
    requires forall t :: t in ts ==> t in triples && t != "" && '=' !in t && triples[t] != ""
    ensures var base: Triples := if v in st.versions then st.versions[v] else map[];
            ParseLines(st, TripleLines(ts, triples)).versions == st.versions[v := base + Pick(triples, ts)]
    decreases |ts|
  {
    hide ParseLine, KeyLine, Pick;
    var st' := ParseLine(st, KeyLine(ts[0], triples[ts[0]]));
    ReadKeyLine(st, v, ts[0], triples[ts[0]]);
    var base: Triples := if v in st.versions then st.versions[v] else map[];
    PickFirst(base, triples, ts);
    if ts[1..] == [] {
      PickNothing(triples, ts[1..]);
      var head := base[ts[0] := triples[ts[0]]];
      assert head + map[] == head;
      assert TripleLines(ts[1..], triples) == [];
      ReadNothing(st');
    } else {
      assert forall t :: t in ts[1..] ==> t in ts;
      assert st'.current == Some(v) && st'.versions == Insert(st.versions, v, ts[0], triples[ts[0]]);
      ReadTriplesExactly(st', v, ts[1..], triples);
    }
  }

  lemma PickNothing<V>(m: map<string, V>, ks: seq<string>)
    requires ks == []
    ensures Pick(m, ks) == map[]
  {
  }

  lemma PickAll<V>(m: map<string, V>)
    ensures map[] + Pick(m, Keys(m)) == m
    ensures m != map[] ==> Keys(m) != []
  {
    if k :| k in m {
      assert k in Keys(m);
    }
  }

  lemma {:induction false} ReadFileExactly(st: ParseState, vs: seq<string>, m: Checksums)
    requires WellFormed(m) && forall v :: v in vs ==> v in m && v !in st.versions
    requires forall i, j :: 0 <= i < j < |vs| ==> vs[i] != vs[j]
    ensures ParseLines(st, FileLines(vs, m)).versions == st.versions + Pick(m, vs)
    decreases |vs|
  {
    hide ParseLine, ParseLines, TripleLines, Header, Pick;
    if vs == [] {
      PickNothing(m, vs);
      ReadNothing(st);
    } else {
      var w, triples := vs[0], m[vs[0]];
      var mid := ParseLines(st.(current := Some(w)), TripleLines(Keys(triples), triples));
      ReadSection(st, w, triples, FileLines(vs[1..], m));
      PickAll(triples);
      ReadTriplesExactly(st.(current := Some(w)), w, Keys(triples), triples);
      PickFirst(st.versions, m, vs);
      ReadFileExactly(mid, vs[1..], m);
    }
  }

  lemma InsertKeepsTidy(m: Checksums, v: string, t: string, h: string)
    requires Tidy(m) && t != "" && h != ""
    ensures Tidy(Insert(m, v, t, h))
  {
    assert t in Insert(m, v, t, h)[v];
  }

  /** Whatever text is read, the parser never yields an empty section, triple or hash. */
  lemma {:induction false} ParsedIsTidy(st: ParseState, lines: seq<string>)
    requires Tidy(st.versions)
    ensures Tidy(ParseLines(st, lines).versions)
    decreases |lines|
  {
    hide Tidy, Insert;
    if lines != [] {
      var line := Trim(lines[0]);
      if st.current.Some? && SplitOnce(line, '=').Some? {
        var (key, val) := SplitOnce(line, '=').value;
        if Value(key) != "" && Value(val) != "" {
          InsertKeepsTidy(st.versions, st.current.value, Value(key), Value(val));
        }
      }
      ParsedIsTidy(ParseLine(st, lines[0]), lines[1..]);
    }
  }

  lemma {:induction false} ReadFileNoEquals(st: ParseState, vs: seq<string>, m: Checksums)
    requires (forall v :: v in vs ==> v in m) && NoEquals(st.versions)
    ensures NoEquals(ParseLines(st, FileLines(vs, m)).versions)
    decreases |vs|
  {
    hide NoEquals;
    if vs != [] {
      var w, triples := vs[0], m[vs[0]];
      ReadSection(st, w, triples, FileLines(vs[1..], m));
      ReadTriplesConfined(st.(current := Some(w)), w, Keys(triples), triples);
      ReadFileNoEquals(ParseLines(st.(current := Some(w)), TripleLines(Keys(triples), triples)), vs[1..], m);
    }
  }

  lemma DistinctKeys(m: Checksums)
    ensures forall i, j :: 0 <= i < j < |Keys(m)| ==> Keys(m)[i] != Keys(m)[j]
  {
    StringOrder();
  }

  lemma EmptyIsWellFormed()
    ensures WellFormed(map[])
  {
  }

  /** Reading back what was written gives the same sidecar exactly when it is well formed. */
  lemma RoundTripsExactlyWhenWellFormed(m: Checksums)
    ensures FromToml(ToToml(m)) == m <==> WellFormed(m)
  {
    hide ParseLines, FileLines, FromToml, ToToml, Tidy, NoEquals, Pick;
    var start := ParseState(map[], None);
    EmptyIsWellFormed();
    ReadsItsLines(m);
    ParsedIsTidy(start, FileLines(Keys(m), m));
    ReadFileNoEquals(start, Keys(m), m);
    if WellFormed(m) {
      DistinctKeys(m);
      ReadFileExactly(start, Keys(m), m);
      PickAll(m);
    }
  }
}

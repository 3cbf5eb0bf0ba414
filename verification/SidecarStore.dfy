/** The checksum sidecar as the program holds it, changed in place, written and parsed by loops. */
module SidecarStore {
  import opened Wrappers
  import opened Text
  import opened Order
  import opened Sidecar

  /** The next key a `BTreeMap` visits once `done` has been visited. */
  lemma NextKey(rest: set<string>, k: string)
    requires k in rest && forall x :: x in rest ==> x == k || StringLess(k, x)
    ensures StrictTotal(StringLess)
    ensures Ascending(StringLess, rest) == [k] + Ascending(StringLess, rest - {k})
  {
    StringOrder();
    LeastUnique(StringLess, k, Least(StringLess, rest), rest);
  }

  method LeastKey(rest: set<string>) returns (k: string)
    requires rest != {}
    ensures k in rest && StrictTotal(StringLess)
    ensures Ascending(StringLess, rest) == [k] + Ascending(StringLess, rest - {k})
  {
    StringOrder();
    LeastExists(StringLess, rest);
    k :| k in rest && forall x :: x in rest ==> x == k || StringLess(k, x);
    NextKey(rest, k);
  }

  lemma FirstSection(v: string, later: seq<string>, m: Checksums)
    requires v in m && forall w :: w in later ==> w in m
    ensures Unlines(FileLines([v] + later, m)) ==
            Unlines([Header(v)] + TripleLines(Keys(m[v]), m[v]) + [""]) + Unlines(FileLines(later, m))
  {
    hide Unlines, TripleLines, Header;
    assert ([v] + later)[1..] == later;
    UnlinesAppend([Header(v)] + TripleLines(Keys(m[v]), m[v]) + [""], FileLines(later, m));
  }

  lemma FirstTriple(t: string, later: seq<string>, triples: Triples)
    requires t in triples && forall u :: u in later ==> u in triples
    ensures Unlines(TripleLines([t] + later, triples)) ==
            KeyLine(t, triples[t]) + "\n" + Unlines(TripleLines(later, triples))
  {
    hide KeyLine;
    assert ([t] + later)[1..] == later;
    var line := KeyLine(t, triples[t]);
    assert ([line] + TripleLines(later, triples))[1..] == TripleLines(later, triples);
  }

  lemma NoSectionLeft(m: Checksums)
    requires StrictTotal(StringLess)
    ensures Unlines(FileLines(Ascending(StringLess, {}), m)) == ""
  {
    assert Ascending(StringLess, {}) == [];
  }

  lemma SectionParts(header: string, keys: seq<string>)
    ensures Unlines([header] + keys + [""]) == header + "\n" + Unlines(keys) + "\n"
  {
    var lines := [header] + keys + [""];
    assert lines[1..] == keys + [""];
    UnlinesAppend(keys, [""]);
    assert Unlines([""]) == "" + "\n" + Unlines([]);
  }

  class ChecksumSidecar {
    var versions: Checksums

    constructor ()
      ensures versions == map[]
    {
      versions := map[];
    }

    method Get(version: string, triple: string) returns (hash: Option<string>)
      ensures hash == Lookup(versions, version, triple)
    {
      hash := None;
      if version in versions && triple in versions[version] {
        hash := Some(versions[version][triple]);
      }
    }

    /** Record a hash: this entry changes and no other does. */
    method Set(version: string, triple: string, hash: string)
      modifies this
      ensures versions == Insert(old(versions), version, triple, hash)
      ensures Lookup(versions, version, triple) == Some(hash)
      ensures forall v, t :: v != version || t != triple ==> Lookup(versions, v, t) == Lookup(old(versions), v, t)
    {
      if version !in versions {
        versions := versions[version := map[]];
      }
      versions := versions[version := versions[version][triple := hash]];
    }

    /** `to_toml`. */
    method ToToml() returns (out: string)
      ensures out == Sidecar.ToToml(versions)
    {
      StringOrder();
      out := "";
      var rest := versions.Keys;
      hide Ascending, StrictTotal, StringLess, Unlines, TripleLines, Header;
      while rest != {}
        invariant rest <= versions.Keys
        invariant out + Unlines(FileLines(Ascending(StringLess, rest), versions)) == Sidecar.ToToml(versions)
        decreases rest
      {
        var v := LeastKey(rest);
        var section := SectionText(v, versions[v]);
        FirstSection(v, Ascending(StringLess, rest - {v}), versions);
        out := out + section;
        rest := rest - {v};
      }
      NoSectionLeft(versions);
    }

    /** `from_toml` of the text. */
    method Load(s: string)
      modifies this
      ensures versions == FromToml(s)
    {
      var lines := Lines(s);
      var st := ParseState(map[], None);
      var i := 0;
      while i < |lines|
        invariant 0 <= i <= |lines| && ParseLines(st, lines[i..]) == ParseLines(ParseState(map[], None), lines)
      {
        assert lines[i..][1..] == lines[i + 1..];
        st := ParseLine(st, lines[i]);
        i := i + 1;
      }
      versions := st.versions;
    }
  }

  /** The lines of one section: its header, its keys in order, a blank line. */
  method SectionText(version: string, triples: Triples) returns (out: string)
    ensures out == Unlines([Header(version)] + TripleLines(Keys(triples), triples) + [""])
  {
    var keys := TripleText(triples);
    out := Header(version) + "\n" + keys + "\n";
    SectionParts(Header(version), TripleLines(Keys(triples), triples));
  }

  method TripleText(triples: Triples) returns (out: string)
    ensures out == Unlines(TripleLines(Keys(triples), triples))
  {
    StringOrder();
    hide Ascending, StrictTotal, StringLess, Unlines, TripleLines, KeyLine;
    out := "";
    var rest := triples.Keys;
    while rest != {}
      invariant rest <= triples.Keys
      invariant out + Unlines(TripleLines(Ascending(StringLess, rest), triples)) ==
                Unlines(TripleLines(Keys(triples), triples))
      decreases rest
    {
      var t := LeastKey(rest);
      FirstTriple(t, Ascending(StringLess, rest - {t}), triples);
      out := out + (KeyLine(t, triples[t]) + "\n");
      rest := rest - {t};
    }
    NothingLeft(triples);
  }

  lemma NothingLeft(triples: Triples)
    requires StrictTotal(StringLess)
    ensures Unlines(TripleLines(Ascending(StringLess, {}), triples)) == ""
  {
    assert Ascending(StringLess, {}) == [];
  }
}

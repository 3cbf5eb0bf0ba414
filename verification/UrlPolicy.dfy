/** What the installer accepts in a release URL before it downloads anything. */
module UrlPolicy {
  import opened Text
  import opened Words

  predicate IsControl(c: char) {
    c as int < 0x20 || 0x7F <= c as int <= 0x9F
  }

  predicate Contains(s: string, part: string) {
    part <= s || (s != [] && Contains(s[1..], part))
  }

  predicate IsSafeUrlComponent(value: string) {
    && value != ""
    && !Contains(value, "..")
    && forall c :: c in value ==> c !in "/\\?#%" && !IsWhitespace(c) && !IsControl(c)
  }

  predicate IsRepoSegment(seg: string) {
    && seg != "" && seg != "." && seg != ".."
    && forall c :: c in seg ==> 'a' <= c <= 'z' || 'A' <= c <= 'Z' || '0' <= c <= '9' || c in "._-"
  }

  predicate IsSafeRepo(repo: string) {
    match SplitOnce(repo, '/')
    case Some((owner, name)) => IsRepoSegment(owner) && IsRepoSegment(name)
    case None => false
  }

  /** `str::replace` of every occurrence, left to right. */
  function Replace(s: string, from: string, to: string): string
    requires from != ""
    decreases |s|
  {
    if from <= s then to + Replace(s[|from|..], from, to)
    else if s == "" then ""
    else [s[0]] + Replace(s[1..], from, to)
  }

  function ExpandAsset(pattern: string, triple: string, version: string): string {
    Replace(Replace(pattern, "{triple}", triple), "{version}", version)
  }

  // ── Where the placeholders go ──────────────────────────────────────────

  /** An asset pattern in its parts: text without braces, and the two placeholders. */
  datatype Part = Literal(text: string) | TriplePart | VersionPart

  predicate PlainParts(parts: seq<Part>) {
    forall i :: 0 <= i < |parts| && parts[i].Literal? ==> '{' !in parts[i].text
  }

  function Pattern(parts: seq<Part>, triple: string, version: string): string {
    if parts == [] then "" else
      (match parts[0] case Literal(text) => text case TriplePart => triple case VersionPart => version)
      + Pattern(parts[1..], triple, version)
  }

  lemma {:induction false} ReplaceKeepsPlain(text: string, rest: string, from: string, to: string)
    requires from != "" && from[0] !in text
    ensures Replace(text + rest, from, to) == text + Replace(rest, from, to)
  {
    hide Replace;
    if text == "" {
      assert text + rest == rest && text + Replace(rest, from, to) == Replace(rest, from, to);
    } else {
      var s := text + rest;
      assert s[0] == text[0] && s[1..] == text[1..] + rest;
      PassOver(s, from, to);
      ReplaceKeepsPlain(text[1..], rest, from, to);
      assert text == [text[0]] + text[1..];
    }
  }

  lemma PassOver(s: string, from: string, to: string)
    requires from != "" && s != "" && s[0] != from[0]
    ensures Replace(s, from, to) == [s[0]] + Replace(s[1..], from, to)
  {
    assert !(from <= s);
  }

  lemma ReplaceHit(rest: string, from: string, to: string)
    requires from != ""
    ensures Replace(from + rest, from, to) == to + Replace(rest, from, to)
  {
    assert from <= from + rest && (from + rest)[|from|..] == rest;
  }

  /** A placeholder of another kind is kept. */
  lemma ReplaceMiss(rest: string, to: string)
    ensures Replace("{version}" + rest, "{triple}", to) == "{version}" + Replace(rest, "{triple}", to)
  {
    var s := "{version}" + rest;
    assert s[1] == 'v' && "{triple}"[1] == 't';
    assert s[1..] == "version}" + rest;
    ReplaceKeepsPlain("version}", rest, "{triple}", to);
    assert "{version}" + Replace(rest, "{triple}", to) == "{" + ("version}" + Replace(rest, "{triple}", to));
  }

  lemma {:induction false} FirstPass(parts: seq<Part>, triple: string)
    requires PlainParts(parts)
    ensures Replace(Pattern(parts, "{triple}", "{version}"), "{triple}", triple) == Pattern(parts, triple, "{version}")
  {
    hide Replace;
    NothingReplaced("{triple}", triple);
    if parts != [] {
      FirstPass(parts[1..], triple);
      var rest := Pattern(parts[1..], "{triple}", "{version}");
      match parts[0]
      case Literal(text) => ReplaceKeepsPlain(text, rest, "{triple}", triple);
      case TriplePart => ReplaceHit(rest, "{triple}", triple);
      case VersionPart => ReplaceMiss(rest, triple);
    }
  }

  lemma {:induction false} SecondPass(parts: seq<Part>, triple: string, version: string)
    requires PlainParts(parts) && '{' !in triple
    ensures Replace(Pattern(parts, triple, "{version}"), "{version}", version) == Pattern(parts, triple, version)
  {
    hide Replace;
    NothingReplaced("{version}", version);
    if parts != [] {
      SecondPass(parts[1..], triple, version);
      var rest := Pattern(parts[1..], triple, "{version}");
      match parts[0]
      case Literal(text) => ReplaceKeepsPlain(text, rest, "{version}", version);
      case TriplePart => ReplaceKeepsPlain(triple, rest, "{version}", version);
      case VersionPart => ReplaceHit(rest, "{version}", version);
    }
  }

  lemma NothingReplaced(from: string, to: string)
    requires from != ""
    ensures Replace("", from, to) == ""
  {
  }

  /**
   The asset's name is the pattern with every `{triple}` and every `{version}` filled in where it
   stands, and nothing else changed; a version is not looked into for further placeholders.
   */
  lemma ExpandAssetFillsIn(parts: seq<Part>, triple: string, version: string)
    requires PlainParts(parts) && '{' !in triple
    ensures ExpandAsset(Pattern(parts, "{triple}", "{version}"), triple, version) == Pattern(parts, triple, version)
  {
    hide Replace, Pattern;
    FirstPass(parts, triple);
    SecondPass(parts, triple, version);
  }

  // ── What the URL asks for ──────────────────────────────────────────────

  /** The path of the release URL. */
  function ReleasePath(repo: string, version: string, asset: string): string {
    repo + "/" + ("releases" + "/" + ("download" + "/" + (version + "/" + asset)))
  }

  /** A segment that is neither empty nor a step up, and that no query or fragment cuts short. */
  predicate PlainSegment(seg: string) {
    seg != "" && seg != ".." && forall c :: c in seg ==> c !in "/\\?#%"
  }

  lemma RepoSegmentIsPlain(seg: string)
    requires IsRepoSegment(seg)
    ensures PlainSegment(seg)
  {
  }

  lemma ComponentIsPlain(value: string)
    requires IsSafeUrlComponent(value)
    ensures PlainSegment(value)
  {
    assert value == ".." ==> ".." <= value;
  }

  /** Accepted parts make a path of exactly six plain segments, each where it belongs. */
  lemma ReleasePathHasSixSegments(repo: string, version: string, asset: string) returns (owner: string, name: string)
    requires IsSafeRepo(repo) && IsSafeUrlComponent(version) && IsSafeUrlComponent(asset)
    ensures repo == owner + "/" + name && IsRepoSegment(owner) && IsRepoSegment(name)
    ensures Segments(ReleasePath(repo, version, asset)) == [owner, name, "releases", "download", version, asset]
    ensures forall seg :: seg in Segments(ReleasePath(repo, version, asset)) ==> PlainSegment(seg)
  {
    hide IsRepoSegment, IsSafeUrlComponent, Segments, PlainSegment;
    var i := IndexOf(repo, '/');
    owner, name := repo[..i], repo[i + 1..];
    assert repo == owner + "/" + name;
    RepoSegmentIsPlain(owner);
    RepoSegmentIsPlain(name);
    ComponentIsPlain(version);
    ComponentIsPlain(asset);
    FixedSegments();
    SixSegments(owner, name, version, asset);
  }

  lemma FixedSegments()
    ensures PlainSegment("releases") && PlainSegment("download")
  {
  }

  lemma SixSegments(owner: string, name: string, version: string, asset: string)
    requires PlainSegment(owner) && PlainSegment(name) && PlainSegment(version) && PlainSegment(asset)
    ensures Segments(ReleasePath(owner + "/" + name, version, asset)) ==
      [owner, name, "releases", "download", version, asset]
  {
    hide Segments;
    var last := version + "/" + asset;
    var middle := "releases" + "/" + ("download" + "/" + last);
    assert owner + "/" + name + "/" + middle == owner + "/" + (name + "/" + middle);
    FirstSegment(owner, name + "/" + middle);
    FirstSegment(name, middle);
    FirstSegment("releases", "download" + "/" + last);
    FirstSegment("download", last);
    FirstSegment(version, asset);
    OneSegment(asset);
  }

  /**
   Removal of dot segments, as URL parsers do it (section 5.2.4 of RFC 3986): `.` vanishes and
   `..` takes the segment before it along; in last place each leaves an empty segment.
   */
  function RemoveDots(done: seq<string>, segs: seq<string>): seq<string>
    decreases |segs|
  {
    if segs == [] then done else
      var rest := segs[1..];
      var trailing: seq<string> := if rest == [] then [""] else [];
      if segs[0] == "." then RemoveDots(done + trailing, rest)
      else if segs[0] == ".." then RemoveDots((if done == [] then [] else done[..|done| - 1]) + trailing, rest)
      else RemoveDots(done + [segs[0]], rest)
  }

  /**
   The path a parser asks the server for is the intended one exactly when neither the version nor
   the asset is a single dot; every other accepted part stays where it belongs.
   */
  lemma RequestedPathIsIntended(repo: string, version: string, asset: string) returns (owner: string, name: string)
    requires IsSafeRepo(repo) && IsSafeUrlComponent(version) && IsSafeUrlComponent(asset)
    ensures repo == owner + "/" + name
    ensures RemoveDots([], Segments(ReleasePath(repo, version, asset)))
        == [owner, name, "releases", "download", version, asset]
      <==> version != "." && asset != "."
  {
    hide Segments, IsRepoSegment, IsSafeUrlComponent, RemoveDots, ReleasePath;
    owner, name := ReleasePathHasSixSegments(repo, version, asset);
    var fixed := [owner, name, "releases", "download"];
    RepoSegmentIsNoDot(owner);
    RepoSegmentIsNoDot(name);
    PlainIsNoStepUp(version);
    PlainIsNoStepUp(asset);
    assert fixed + [version, asset] == [owner, name, "releases", "download", version, asset];
    ThroughFixed([], fixed, [version, asset]);
    LastTwo([] + fixed, version, asset);
    assert [] + fixed == fixed;
  }

  lemma RepoSegmentIsNoDot(seg: string)
    requires IsRepoSegment(seg)
    ensures seg != "." && seg != ".."
  {
  }

  lemma PlainIsNoStepUp(value: string)
    requires IsSafeUrlComponent(value)
    ensures value != "" && value != ".."
  {
    ComponentIsPlain(value);
  }

  lemma {:induction false} ThroughFixed(done: seq<string>, fixed: seq<string>, rest: seq<string>)
    requires forall i :: 0 <= i < |fixed| ==> fixed[i] != "." && fixed[i] != ".."
    ensures RemoveDots(done, fixed + rest) == RemoveDots(done + fixed, rest)
    decreases |fixed|
  {
    if fixed == [] {
      assert fixed + rest == rest && done + fixed == done;
    } else {
      assert (fixed + rest)[0] == fixed[0] && (fixed + rest)[1..] == fixed[1..] + rest;
      ThroughFixed(done + [fixed[0]], fixed[1..], rest);
      assert done + [fixed[0]] + fixed[1..] == done + fixed;
    }
  }

  lemma LastTwo(done: seq<string>, a: string, b: string)
    requires a != ".." && b != ".." && b != ""
    ensures RemoveDots(done, [a, b]) == done + [a, b] <==> a != "." && b != "."
  {
    assert [a, b][1..] == [b];
    var before := if a == "." then done else done + [a];
    assert done + [] == done;
    assert RemoveDots(done, [a, b]) == RemoveDots(before, [b]);
    LastOne(before, b);
    var got := before + (if b == "." then [""] else [b]);
    assert |done + [a, b]| == |done| + 2 && (done + [a, b])[|done| + 1] == b;
    if a != "." && b == "." {
      assert got[|done| + 1] == "";
    } else if a != "." {
      assert got == done + [a, b];
    }
  }

  lemma LastOne(done: seq<string>, b: string)
    requires b != ".."
    ensures RemoveDots(done, [b]) == done + (if b == "." then [""] else [b])
  {
    assert [b][1..] == [];
    assert forall d: seq<string> :: RemoveDots(d, []) == d;
  }

  /** Such a version is accepted, and what is asked for then is one segment short. */
  lemma DotVersionIsDropped(repo: string, asset: string) returns (owner: string, name: string)
    requires IsSafeRepo(repo) && IsSafeUrlComponent(asset) && asset != "."
    ensures IsSafeUrlComponent(".") && repo == owner + "/" + name
    ensures RemoveDots([], Segments(ReleasePath(repo, ".", asset))) == [owner, name, "releases", "download", asset]
  {
    hide Segments, IsRepoSegment, RemoveDots, ReleasePath;
    DotIsAccepted();
    owner, name := ReleasePathHasSixSegments(repo, ".", asset);
    var fixed := [owner, name, "releases", "download"];
    RepoSegmentIsNoDot(owner);
    RepoSegmentIsNoDot(name);
    PlainIsNoStepUp(asset);
    assert fixed + [".", asset] == [owner, name, "releases", "download", ".", asset];
    ThroughFixed([], fixed, [".", asset]);
    assert [] + fixed == fixed;
    DotThenName(fixed, asset);
  }

  lemma DotIsAccepted()
    ensures IsSafeUrlComponent(".")
  {
    assert !(".." <= ".") && !Contains("", "..");
  }

  lemma DotThenName(done: seq<string>, b: string)
    requires b != "." && b != ".."
    ensures RemoveDots(done, [".", b]) == done + [b]
  {
    assert [".", b][1..] == [b];
    assert done + [] == done;
    LastOne(done, b);
  }

  lemma {:induction false} ContainsExactly(s: string, part: string)
    ensures Contains(s, part) <==> exists i :: 0 <= i <= |s| && part <= s[i..]
  {
    if part <= s {
      assert s[0..] == s;
    } else if s != [] {
      ContainsExactly(s[1..], part);
      if i :| 0 <= i <= |s| && part <= s[i..] {
        assert i > 0 ==> s[1..][i - 1..] == s[i..];
        assert s[0..] == s;
      }
      if i :| 0 <= i <= |s[1..]| && part <= s[1..][i..] {
        assert s[1..][i..] == s[i + 1..];
      }
    } else {
      assert forall i :: 0 <= i <= |s| ==> s[i..] == s;
    }
  }

  /**
   What a version or an asset may be: one word and one path segment, nowhere with two dots in a
   row, and without a character that a URL or a terminal gives a meaning of its own.
   */
  lemma SafeComponentExactly(value: string)
    ensures IsSafeUrlComponent(value) <==>
      && SplitWhitespace(value) == [value] && Segments(value) == [value]
      && (forall i :: 0 <= i <= |value| ==> !(".." <= value[i..]))
      && '\\' !in value && '?' !in value && '#' !in value && '%' !in value
      && forall c :: c in value ==> !(0 <= c as int < 0x20 || 0x7F <= c as int <= 0x9F)
  {
    hide Segments, SplitWhitespace, Contains, IsWhitespace;
    ContainsExactly(value, "..");
    OneWordExactly(value);
    SegmentsHoldNoSlash(value);
    if '/' !in value {
      OneSegment(value);
    }
    if Segments(value) == [value] {
      assert '/' !in Segments(value)[0];
    }
  }

  lemma OneWordExactly(value: string)
    ensures SplitWhitespace(value) == [value] <==> value != "" && forall c :: c in value ==> !IsWhitespace(c)
  {
    hide IsWhitespace;
    SplitGivesWords(value);
    if SplitWhitespace(value) == [value] {
      assert IsWord(SplitWhitespace(value)[0]);
    }
    if value != "" && forall c :: c in value ==> !IsWhitespace(c) {
      assert IsWord(value);
      SplitFirstWord(value, "");
      assert value + "" == value;
    }
  }

  /**
   A repository is two path segments of letters, digits, dots, underscores and hyphens, and neither
   of them a dot name.
   */
  lemma SafeRepoExactly(repo: string)
    ensures IsSafeRepo(repo) <==>
      var segs := Segments(repo);
      |segs| == 2 && forall i :: 0 <= i < 2 ==>
        && segs[i] !in ["", ".", ".."]
        && forall c :: c in segs[i] ==>
             'a' <= c <= 'z' || 'A' <= c <= 'Z' || '0' <= c <= '9' || c == '.' || c == '_' || c == '-'
  {
    hide Segments, IsRepoSegment;
    var i := IndexOf(repo, '/');
    OneSegment(repo[..i]);
    if i < |repo| {
      var owner, name := repo[..i], repo[i + 1..];
      assert repo == owner + "/" + name;
      FirstSegment(owner, name);
      RepoSegmentExactly(owner);
      RepoSegmentExactly(name);
      SegmentsCount(name);
      assert Segments(repo)[0] == owner && Segments(repo)[1..] == Segments(name);
      if '/' !in name {
        OneSegment(name);
        assert Segments(repo)[1] == name;
      }
    } else {
      assert repo[..i] == repo;
    }
  }

  lemma RepoSegmentExactly(seg: string)
    ensures IsRepoSegment(seg) <==>
      && seg !in ["", ".", ".."]
      && forall c :: c in seg ==>
           'a' <= c <= 'z' || 'A' <= c <= 'Z' || '0' <= c <= '9' || c == '.' || c == '_' || c == '-'
    ensures IsRepoSegment(seg) ==> '/' !in seg
  {
    assert "._-"[0] == '.' && "._-"[1] == '_' && "._-"[2] == '-';
  }

  lemma {:induction false} SegmentsCount(s: string)
    ensures |Segments(s)| == 1 <==> '/' !in s
    ensures |Segments(s)| > 0
  {
    if s != "" {
      SegmentsCount(s[1..]);
    }
  }
}

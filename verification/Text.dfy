/** The string operations of the Rust standard library that the modelled code relies on. */
module Text {
  import opened Wrappers

  /** Unicode's White_Space property. */
  predicate IsWhitespace(c: char) {
    || 0x09 <= c as int <= 0x0D || c as int == 0x20 || c as int == 0x85 || c as int == 0xA0
    || c as int == 0x1680 || 0x2000 <= c as int <= 0x200A || c as int == 0x2028 || c as int == 0x2029
    || c as int == 0x202F || c as int == 0x205F || c as int == 0x3000
  }

  function TrimStart(s: string): string {
    if s != [] && IsWhitespace(s[0]) then TrimStart(s[1..]) else s
  }

  function TrimEnd(s: string): string {
    if s != [] && IsWhitespace(s[|s| - 1]) then TrimEnd(s[..|s| - 1]) else s
  }

  /** `str::trim`. */
  function Trim(s: string): string {
    TrimEnd(TrimStart(s))
  }

  predicate StartsWith(s: string, prefix: string) {
    prefix <= s
  }

  predicate EndsWith(s: string, suffix: string) {
    |suffix| <= |s| && s[|s| - |suffix|..] == suffix
  }

  function StripPrefix(s: string, prefix: string): Option<string> {
    if StartsWith(s, prefix) then Some(s[|prefix|..]) else None
  }

  function StripSuffix(s: string, suffix: string): Option<string> {
    if EndsWith(s, suffix) then Some(s[..|s| - |suffix|]) else None
  }

  /** The first position of `c`, or the length when there is none. */
  function IndexOf(s: string, c: char): (i: nat)
    ensures i <= |s| && c !in s[..i] && (i < |s| ==> s[i] == c)
  {
    if s == [] || s[0] == c then 0 else
      var i := 1 + IndexOf(s[1..], c);
      assert s[..i] == [s[0]] + s[1..][..i - 1];
      i
  }

  /** `str::split_once` at a character. */
  function SplitOnce(s: string, c: char): Option<(string, string)> {
    var i := IndexOf(s, c);
    if i < |s| then Some((s[..i], s[i + 1..])) else None
  }

  lemma {:induction false} IndexOfFirst(a: string, c: char, b: string)
    requires c !in a
    ensures IndexOf(a + [c] + b, c) == |a|
  {
    if a != [] {
      assert (a + [c] + b)[1..] == a[1..] + [c] + b;
      IndexOfFirst(a[1..], c, b);
    }
  }

  /** `str::lines`: split at newlines, drop one carriage return before each of them. */
  function Lines(s: string): seq<string>
    decreases |s|
  {
    if s == [] then [] else
      var i := IndexOf(s, '\n');
      if i == |s| then [s] else [DropReturn(s[..i])] + Lines(s[i + 1..])
  }

  function DropReturn(line: string): string {
    if line != [] && line[|line| - 1] == '\r' then line[..|line| - 1] else line
  }

  /** Every line followed by a newline. */
  function Unlines(lines: seq<string>): string {
    if lines == [] then "" else lines[0] + "\n" + Unlines(lines[1..])
  }

  /** A line that survives being written and split again. */
  predicate PlainLine(line: string) {
    '\n' !in line && (line != [] ==> line[|line| - 1] != '\r')
  }

  lemma {:induction false} LinesOfUnlines(lines: seq<string>)
    requires forall i :: 0 <= i < |lines| ==> PlainLine(lines[i])
    ensures Lines(Unlines(lines)) == lines
  {
    if lines != [] {
      var rest := Unlines(lines[1..]);
      var s := lines[0] + "\n" + rest;
      assert PlainLine(lines[0]);
      IndexOfFirst(lines[0], '\n', rest);
      assert s[..|lines[0]|] == lines[0] && s[|lines[0]| + 1..] == rest;
      LinesOfUnlines(lines[1..]);
    }
  }

  /** Every line followed by a carriage return and a newline. */
  function CrLfLines(lines: seq<string>): string {
    if lines == [] then "" else lines[0] + "\r\n" + CrLfLines(lines[1..])
  }

  /** Lines ended in the other way are the same lines. */
  lemma {:induction false} LinesOfCrLf(lines: seq<string>)
    requires forall i :: 0 <= i < |lines| ==> '\n' !in lines[i]
    ensures Lines(CrLfLines(lines)) == lines
  {
    if lines != [] {
      var rest := CrLfLines(lines[1..]);
      var line := lines[0] + "\r";
      var s := line + "\n" + rest;
      assert lines[0] + "\r\n" + rest == s;
      IndexOfFirst(line, '\n', rest);
      assert s[..|line|] == line && s[|line| + 1..] == rest;
      assert DropReturn(line) == lines[0];
      LinesOfCrLf(lines[1..]);
    }
  }

  lemma {:induction false} UnlinesAppend(a: seq<string>, b: seq<string>)
    ensures Unlines(a + b) == Unlines(a) + Unlines(b)
  {
    if a == [] {
      assert a + b == b;
    } else {
      assert (a + b)[1..] == a[1..] + b;
      UnlinesAppend(a[1..], b);
    }
  }

  /** A string with no whitespace at its ends is its own trimming. */
  lemma TrimNothing(s: string)
    requires s != [] ==> !IsWhitespace(s[0]) && !IsWhitespace(s[|s| - 1])
    ensures Trim(s) == s
  {
  }

  lemma TrimOneBlank(s: string)
    requires s != [] && !IsWhitespace(s[0]) && !IsWhitespace(s[|s| - 1])
    ensures Trim(s + " ") == s && Trim(" " + s) == s
  {
    assert (s + " ")[..|s|] == s && (" " + s)[1..] == s;
    assert TrimStart(s) == s && TrimEnd(s) == s;
  }

  lemma SplitOnceAt(a: string, c: char, b: string)
    requires c !in a
    ensures SplitOnce(a + [c] + b, c) == Some((a, b))
  {
    IndexOfFirst(a, c, b);
    var s := a + [c] + b;
    assert s[..|a|] == a && s[|a| + 1..] == b;
  }

  /** A path split at every slash. */
  function Segments(s: string): seq<string> {
    if s == [] then [""]
    else if s[0] == '/' then [""] + Segments(s[1..])
    else var rest := Segments(s[1..]); [[s[0]] + rest[0]] + rest[1..]
  }

  lemma {:induction false} SegmentsHoldNoSlash(s: string)
    ensures forall i :: 0 <= i < |Segments(s)| ==> '/' !in Segments(s)[i]
  {
    if s != [] { SegmentsHoldNoSlash(s[1..]); }
  }

  lemma {:induction false} FirstSegment(a: string, b: string)
    requires '/' !in a
    ensures Segments(a + "/" + b) == [a] + Segments(b)
  {
    if a == "" {
      assert "" + "/" + b == "/" + b;
      assert ("/" + b)[1..] == b;
    } else {
      assert (a + "/" + b)[1..] == a[1..] + "/" + b;
      FirstSegment(a[1..], b);
      assert [a[0]] + a[1..] == a;
    }
  }

  lemma {:induction false} OneSegment(a: string)
    requires '/' !in a
    ensures Segments(a) == [a]
  {
    if a != "" {
      OneSegment(a[1..]);
      assert [a[0]] + a[1..] == a;
    }
  }
}

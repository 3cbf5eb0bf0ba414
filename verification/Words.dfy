/** Splitting a line at whitespace and joining words with blanks. */
module Words {
  import opened Text

  /** The length of the whitespace-free run at the front. */
  function WordLength(s: string): (n: nat)
    ensures n <= |s|
    ensures forall i :: 0 <= i < n ==> !IsWhitespace(s[i])
    ensures n < |s| ==> IsWhitespace(s[n])
  {
    if s == "" || IsWhitespace(s[0]) then 0 else 1 + WordLength(s[1..])
  }

  /** `str::split_whitespace`. */
  function SplitWhitespace(s: string): seq<string>
    decreases |s|
  {
    if s == "" then []
    else if IsWhitespace(s[0]) then SplitWhitespace(s[1..])
    else
      var n := WordLength(s);
      [s[..n]] + SplitWhitespace(s[n..])
  }

  predicate IsWord(w: string) {
    w != "" && forall i :: 0 <= i < |w| ==> !IsWhitespace(w[i])
  }

  predicate AreWords(words: seq<string>) {
    forall i :: 0 <= i < |words| ==> IsWord(words[i])
  }

  function JoinBlank(words: seq<string>): string {
    if words == [] then "" else if |words| == 1 then words[0] else words[0] + " " + JoinBlank(words[1..])
  }

  lemma {:induction false} SplitGivesWords(s: string)
    ensures AreWords(SplitWhitespace(s))
    decreases |s|
  {
    if s != "" {
      if IsWhitespace(s[0]) {
        SplitGivesWords(s[1..]);
      } else {
        var n := WordLength(s);
        assert n > 0;
        SplitGivesWords(s[n..]);
      }
    }
  }

  lemma {:induction false} WordLengthOf(w: string, rest: string)
    requires forall i :: 0 <= i < |w| ==> !IsWhitespace(w[i])
    requires rest != "" ==> IsWhitespace(rest[0])
    ensures WordLength(w + rest) == |w|
  {
    if w == "" {
      assert w + rest == rest;
    } else {
      assert (w + rest)[1..] == w[1..] + rest;
      WordLengthOf(w[1..], rest);
    }
  }

  lemma SplitFirstWord(w: string, rest: string)
    requires IsWord(w) && (rest != "" ==> IsWhitespace(rest[0]))
    ensures SplitWhitespace(w + rest) == [w] + SplitWhitespace(rest)
  {
    WordLengthOf(w, rest);
    assert (w + rest)[0] == w[0];
    assert (w + rest)[..|w|] == w && (w + rest)[|w|..] == rest;
  }

  /** Words joined with blanks split into the same words. */
  lemma {:induction false} SplitOfJoined(words: seq<string>)
    requires AreWords(words)
    ensures SplitWhitespace(JoinBlank(words)) == words
  {
    if words != [] {
      assert IsWord(words[0]);
      if |words| == 1 {
        SplitFirstWord(words[0], "");
        assert words[0] + "" == words[0];
        assert words == [words[0]] + [];
      } else {
        var rest := JoinBlank(words[1..]);
        SplitOfJoined(words[1..]);
        SplitFirstWord(words[0], " " + rest);
        assert words[0] + " " + rest == words[0] + (" " + rest);
        assert (" " + rest)[1..] == rest;
      }
    }
  }

  /** Joined words have no whitespace at either end. */
  lemma {:induction false} JoinedEnds(words: seq<string>)
    requires AreWords(words) && words != []
    ensures var s := JoinBlank(words); s != "" && !IsWhitespace(s[0]) && !IsWhitespace(s[|s| - 1])
  {
    assert IsWord(words[0]);
    if |words| > 1 {
      JoinedEnds(words[1..]);
      var s, rest := JoinBlank(words), JoinBlank(words[1..]);
      assert s[|s| - 1] == rest[|rest| - 1];
      assert s[0] == words[0][0];
    }
  }
}

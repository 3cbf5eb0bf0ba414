/** Character-level differences inside one changed line, as byte ranges. */
module CharDiff {
  import opened ByteStrings
  import opened Slices
  import opened Utf8

  datatype Tag = Equal | Delete | Insert

  /** One character of an edit script. */
  datatype Change = Change(tag: Tag, value: char)

  /** The characters of the script with a tag in `tags`. */
  function Select(changes: seq<Change>, tags: set<Tag>): string {
    if changes == [] then "" else
      (if changes[0].tag in tags then [changes[0].value] else "") + Select(changes[1..], tags)
  }

  /** The script turns one line into the other. */
  predicate Edits(changes: seq<Change>, aLine: string, bLine: string) {
    Select(changes, {Equal, Delete}) == aLine && Select(changes, {Equal, Insert}) == bLine
  }

  lemma SelectCons(c: Change, rest: seq<Change>, tags: set<Tag>)
    ensures Select([c] + rest, tags) == (if c.tag in tags then [c.value] else "") + Select(rest, tags)
  {
    assert ([c] + rest)[1..] == rest;
  }

  lemma {:induction false} SelectSnoc(changes: seq<Change>, c: Change, tags: set<Tag>)
    ensures Select(changes + [c], tags) == Select(changes, tags) + (if c.tag in tags then [c.value] else "")
  {
    if changes == [] {
      SelectCons(c, [], tags);
      assert changes + [c] == [c] + [];
    } else {
      hide Select;
      Cons(changes);
      Assoc([changes[0]], changes[1..], [c], []);
      SelectCons(changes[0], changes[1..], tags);
      SelectCons(changes[0], changes[1..] + [c], tags);
      SelectSnoc(changes[1..], c, tags);
    }
  }

  lemma EncodeSnoc(s: string, c: char)
    ensures Encode(s + [c]) == Encode(s) + EncodeChar(c) && Encode(s + "") == Encode(s)
  {
    EncodeConcat(s, [c]);
    assert Encode([c]) == EncodeChar(c) + Encode([c][1..]);
    assert s + "" == s;
  }

  // ── Ranges ─────────────────────────────────────────────────────────────

  datatype Span = Span(start: nat, end: nat)

  /** Non-empty ranges in ascending order inside a text of length `n`, never touching each other. */
  predicate Separated(ranges: seq<Span>, n: nat) {
    && (forall k :: 0 <= k < |ranges| ==> ranges[k].start < ranges[k].end <= n)
    && (forall k, l :: 0 <= k < l < |ranges| ==> ranges[k].end < ranges[l].start)
  }

  /** The text without the ranges. */
  function Outside(t: Bytes, ranges: seq<Span>): Bytes
    requires Separated(ranges, |t|)
  {
    if ranges == [] then t else
      var last := ranges[|ranges| - 1];
      Outside(t[..last.start], ranges[..|ranges| - 1]) + t[last.end..]
  }

  /** The text of the ranges, end to end. */
  function Inside(t: Bytes, ranges: seq<Span>): Bytes
    requires Separated(ranges, |t|)
  {
    if ranges == [] then [] else
      var last := ranges[|ranges| - 1];
      Inside(t[..last.start], ranges[..|ranges| - 1]) + t[last.start..last.end]
  }

  /** `push_coalesced`, as a function of the list. */
  function Coalesced(ranges: seq<Span>, r: Span): seq<Span> {
    if ranges != [] && ranges[|ranges| - 1].end == r.start
    then ranges[|ranges| - 1 := ranges[|ranges| - 1].(end := r.end)]
    else ranges + [r]
  }

  class RangeList {
    var ranges: seq<Span>

    constructor ()
      ensures ranges == []
    {
      ranges := [];
    }

    method PushCoalesced(r: Span)
      modifies this
      ensures ranges == Coalesced(old(ranges), r)
    {
      if ranges != [] && ranges[|ranges| - 1].end == r.start {
        ranges := ranges[|ranges| - 1 := ranges[|ranges| - 1].(end := r.end)];
        return;
      }
      ranges := ranges + [r];
    }
  }

  /** Ranges in front of a last one. */
  lemma LastRange(t: Bytes, front: seq<Span>, last: Span)
    requires Separated(front + [last], |t|)
    ensures last.start < last.end <= |t| && Separated(front, last.start)
    ensures Outside(t, front + [last]) == Outside(t[..last.start], front) + t[last.end..]
    ensures Inside(t, front + [last]) == Inside(t[..last.start], front) + t[last.start..last.end]
  {
    var ranges := front + [last];
    assert ranges[|ranges| - 1] == last && ranges[..|ranges| - 1] == front;
    assert forall k | 0 <= k < |front| :: ranges[k] == front[k] && ranges[k].end < ranges[|front|].start;
  }

  lemma SeparatedSnoc(front: seq<Span>, last: Span, n: nat)
    requires last.start < last.end <= n && (Separated(front, last.start) && (front != [] ==> front[|front| - 1].end < last.start))
    ensures Separated(front + [last], n)
  {
    assert forall k | 0 <= k < |front| :: front[k].end <= front[|front| - 1].end;
  }

  lemma SplitLast(ranges: seq<Span>) returns (front: seq<Span>, last: Span)
    requires ranges != []
    ensures ranges == front + [last] && last == ranges[|ranges| - 1] && front == ranges[..|ranges| - 1]
  {
    front, last := ranges[..|ranges| - 1], ranges[|ranges| - 1];
  }

  lemma LastGap(front: seq<Span>, last: Span, n: nat)
    requires Separated(front + [last], n)
    ensures front != [] ==> front[|front| - 1].end < last.start
  {
    var ranges := front + [last];
    assert front != [] ==> ranges[|front| - 1] == front[|front| - 1] && ranges[|front|] == last;
  }

  /** Text added at the end and not marked stays outside. */
  lemma KeepMore(t: Bytes, ranges: seq<Span>, v: Bytes)
    requires Separated(ranges, |t|)
    ensures Separated(ranges, |t + v|)
    ensures Outside(t + v, ranges) == Outside(t, ranges) + v
    ensures Inside(t + v, ranges) == Inside(t, ranges)
  {
    if ranges != [] {
      hide Outside, Inside;
      var front, last := SplitLast(ranges);
      LastRange(t, front, last);
      LastRange(t + v, front, last);
      GrownSlices(t, v, last.start, last.end);
      Assoc(Outside(t[..last.start], front), t[last.end..], v, []);
    }
  }

  lemma GrownSlices<T>(t: seq<T>, v: seq<T>, i: nat, j: nat)
    requires i <= j <= |t|
    ensures (t + v)[..i] == t[..i] && (t + v)[i..j] == t[i..j] && (t + v)[j..] == t[j..] + v
    ensures (t + v)[i..|t + v|] == t[i..] + v && (t + v)[|t + v|..] == []
  {
  }

  /** Text added at the end and marked goes inside; the ranges stay apart. */
  lemma MarkMore(t: Bytes, ranges: seq<Span>, v: Bytes)
    requires Separated(ranges, |t|) && v != []
    ensures var more := Coalesced(ranges, Span(|t|, |t| + |v|));
      && Separated(more, |t + v|)
      && Outside(t + v, more) == Outside(t, ranges)
      && Inside(t + v, more) == Inside(t, ranges) + v
  {
    if ranges != [] && ranges[|ranges| - 1].end == |t| {
      var front, last := SplitLast(ranges);
      GrowLast(t, front, last, v);
      assert Coalesced(ranges, Span(|t|, |t| + |v|)) == front + [Span(last.start, |t| + |v|)];
    } else {
      AddLast(t, ranges, v);
    }
  }

  lemma GrowLast(t: Bytes, front: seq<Span>, last: Span, v: Bytes)
    requires Separated(front + [last], |t|) && last.end == |t| && v != []
    ensures var more := front + [Span(last.start, |t| + |v|)];
      && Separated(more, |t + v|)
      && Outside(t + v, more) == Outside(t, front + [last])
      && Inside(t + v, more) == Inside(t, front + [last]) + v
  {
    hide Outside, Inside, Separated;
    var grown := Span(last.start, |t| + |v|);
    LastRange(t, front, last);
    LastGap(front, last, |t|);
    SeparatedSnoc(front, grown, |t + v|);
    LastRange(t + v, front, grown);
    GrownSlices(t, v, last.start, last.end);
    assert t[last.start..last.end] == t[last.start..];
    Assoc(Inside(t[..last.start], front), t[last.start..], v, []);
  }

  lemma AddLast(t: Bytes, ranges: seq<Span>, v: Bytes)
    requires Separated(ranges, |t|) && v != [] && (ranges != [] ==> ranges[|ranges| - 1].end != |t|)
    ensures var more := ranges + [Span(|t|, |t| + |v|)];
      && Separated(more, |t + v|)
      && Outside(t + v, more) == Outside(t, ranges)
      && Inside(t + v, more) == Inside(t, ranges) + v
  {
    hide Outside, Inside;
    var added := Span(|t|, |t| + |v|);
    SeparatedSnoc(ranges, added, |t + v|);
    LastRange(t + v, ranges, added);
    CutConcat(t, v);
    assert (t + v)[|t|..|t| + |v|] == v && (t + v)[|t| + |v|..] == [];
    assert Outside(t, ranges) + [] == Outside(t, ranges);
  }

  // ── The loop ───────────────────────────────────────────────────────────

  /** The ranges mark exactly the characters of one tag in the line those and the equal characters make up. */
  predicate Marks(ranges: seq<Span>, changes: seq<Change>, tag: Tag) {
    var t := Encode(Select(changes, {Equal, tag}));
    && Separated(ranges, |t|)
    && Outside(t, ranges) == Encode(Select(changes, {Equal}))
    && Inside(t, ranges) == Encode(Select(changes, {tag}))
  }

  lemma MarksStep(ranges: seq<Span>, changes: seq<Change>, c: Change, tag: Tag)
    requires tag != Equal && Marks(ranges, changes, tag)
    ensures var n := |Encode(Select(changes, {Equal, tag}))|;
      && |Encode(Select(changes + [c], {Equal, tag}))| == n + (if c.tag == Equal || c.tag == tag then |EncodeChar(c.value)| else 0)
      && Marks(if c.tag == tag then Coalesced(ranges, Span(n, n + |EncodeChar(c.value)|)) else ranges, changes + [c], tag)
  {
    hide Encode, EncodeChar, Select, Separated, Outside, Inside, Coalesced;
    var line, same, marked := Select(changes, {Equal, tag}), Select(changes, {Equal}), Select(changes, {tag});
    var t, v := Encode(line), EncodeChar(c.value);
    SelectSnoc(changes, c, {Equal, tag});
    SelectSnoc(changes, c, {Equal});
    SelectSnoc(changes, c, {tag});
    EncodeSnoc(line, c.value);
    EncodeSnoc(same, c.value);
    EncodeSnoc(marked, c.value);
    if c.tag == tag {
      MarkMore(t, ranges, v);
    } else if c.tag == Equal {
      KeepMore(t, ranges, v);
    }
  }

  /**
   * `char_ranges`: what is left of the two lines outside their ranges is the
   * same text, and the ranges are as few as they can be.
   */
  method CharRanges(changes: seq<Change>, aLine: string, bLine: string) returns (a: seq<Span>, b: seq<Span>)
    requires Edits(changes, aLine, bLine)
    ensures Separated(a, |Encode(aLine)|) && Separated(b, |Encode(bLine)|)
    ensures Outside(Encode(aLine), a) == Encode(Select(changes, {Equal})) == Outside(Encode(bLine), b)
    ensures Inside(Encode(aLine), a) == Encode(Select(changes, {Delete}))
    ensures Inside(Encode(bLine), b) == Encode(Select(changes, {Insert}))
  {
    hide Encode, EncodeChar, Select, Separated, Outside, Inside;
    var aRanges := new RangeList();
    var bRanges := new RangeList();
    var ai, bi := 0, 0;
    NothingYet();
    for k := 0 to |changes|
      invariant aRanges != bRanges && fresh(aRanges) && fresh(bRanges)
      invariant ai == |Encode(Select(changes[..k], {Equal, Delete}))|
      invariant bi == |Encode(Select(changes[..k], {Equal, Insert}))|
      invariant Marks(aRanges.ranges, changes[..k], Delete) && Marks(bRanges.ranges, changes[..k], Insert)
    {
      var change := changes[k];
      var len := |EncodeChar(change.value)|;
      MarksStep(aRanges.ranges, changes[..k], change, Delete);
      MarksStep(bRanges.ranges, changes[..k], change, Insert);
      assert changes[..k + 1] == changes[..k] + [change];
      match change.tag {
        case Equal => ai, bi := ai + len, bi + len;
        case Delete =>
          aRanges.PushCoalesced(Span(ai, ai + len));
          ai := ai + len;
        case Insert =>
          bRanges.PushCoalesced(Span(bi, bi + len));
          bi := bi + len;
      }
    }
    assert changes[..|changes|] == changes;
    a, b := aRanges.ranges, bRanges.ranges;
  }

  lemma NothingYet()
    ensures forall tags :: Select([], tags) == ""
    ensures Encode("") == []
    ensures Marks([], [], Delete) && Marks([], [], Insert)
  {
  }
}

/** Facts about cutting and joining sequences. */
module Slices {
  lemma CutAt<T>(s: seq<T>, i: nat)
    requires i < |s|
    ensures s == s[..i] + [s[i]] + s[i + 1..]
  {
  }

  lemma Cons<T>(s: seq<T>)
    requires s != []
    ensures s == [s[0]] + s[1..]
  {
  }

  lemma TakeDrop<T>(s: seq<T>, k: nat)
    requires k <= |s|
    ensures s == s[..k] + s[k..]
  {
  }

  lemma Snoc<T>(s: seq<T>, k: nat)
    requires k < |s|
    ensures s[..k + 1] == s[..k] + [s[k]]
  {
  }

  lemma CutConcat<T>(a: seq<T>, b: seq<T>)
    ensures (a + b)[..|a|] == a && (a + b)[|a|..] == b
  {
  }

  lemma Assoc<T>(a: seq<T>, b: seq<T>, c: seq<T>, d: seq<T>)
    ensures a + b + c + d == a + b + (c + d)
    ensures a + b + c == a + (b + c)
  {
  }

  lemma SliceOfSlice<T>(s: seq<T>, at: nat, end: nat, lo: nat, hi: nat)
    requires at <= end <= |s| && lo <= hi <= end - at
    ensures s[at..end][lo..hi] == s[at + lo..at + hi]
  {
    assert forall i | 0 <= i < hi - lo :: s[at..end][lo..hi][i] == s[at..end][lo + i] == s[at + lo + i];
  }

  lemma DropOfDrop<T>(s: seq<T>, at: nat, lo: nat)
    requires at + lo <= |s|
    ensures s[at..][lo..] == s[at + lo..]
  {
    assert forall i | 0 <= i < |s| - at - lo :: s[at..][lo..][i] == s[at..][lo + i] == s[at + lo + i];
  }

  lemma TakeOfDrop<T>(s: seq<T>, at: nat, n: nat)
    requires at + n <= |s|
    ensures s[at..][..n] == s[at..at + n]
  {
  }

  /** Two cut texts around a middle: the parts next to the middle close around it. */
  lemma Regroup<T>(a: seq<T>, b: seq<T>, m: seq<T>, c: seq<T>, d: seq<T>)
    ensures (a + b) + m + (c + d) == a + ((b + m + c) + d)
  {
  }

  /** What follows position `at` begins with `piece`. */
  lemma PieceAt<T>(s: seq<T>, at: nat, piece: seq<T>, more: seq<T>)
    requires at <= |s| && s[at..] == piece + more
    ensures |s| == at + |piece| + |more|
    ensures s[at..at + |piece|] == piece && s[at + |piece|..] == more
    ensures more != [] ==> s[at + |piece|] == more[0]
  {
    var rest := s[at..];
    CutConcat(piece, more);
    DropOfDrop(s, at, |piece|);
    TakeOfDrop(s, at, |piece|);
    assert more != [] ==> rest[|piece|] == (piece + more)[|piece|];
  }
}

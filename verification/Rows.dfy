/** A text and the rows it is made of: splitting at newlines, joining, and where each row starts. */
module Rows {
  import opened ByteStrings
  import opened Slices

  const NL: Byte := 10

  /** The first newline, or the length when there is none. */
  function NewlineAt(t: Bytes): (i: nat)
    ensures i <= |t| && NL !in t[..i] && (i < |t| ==> t[i] == NL)
  {
    if t == [] || t[0] == NL then 0 else
      var i := 1 + NewlineAt(t[1..]);
      assert t[..i] == [t[0]] + t[1..][..i - 1];
      i
  }

  /** The rows of a text; an empty text has one empty row. */
  function Split(t: Bytes): seq<Bytes>
    decreases |t|
  {
    var i := NewlineAt(t);
    if i == |t| then [t] else [t[..i]] + Split(t[i + 1..])
  }

  function Join(rows: seq<Bytes>): Bytes {
    if rows == [] then []
    else if |rows| == 1 then rows[0]
    else rows[0] + [NL] + Join(rows[1..])
  }

  /** Every row followed by a newline. */
  function Ended(rows: seq<Bytes>): Bytes {
    if rows == [] then [] else rows[0] + [NL] + Ended(rows[1..])
  }

  predicate NewlineFree(rows: seq<Bytes>) {
    forall i :: 0 <= i < |rows| ==> NL !in rows[i]
  }

  /** The byte at which row `k` starts; one past the last row is the end of the text. */
  function Start(t: Bytes, k: nat): nat
    decreases k
  {
    var i := NewlineAt(t);
    if k == 0 then 0
    else if i == |t| then |t|
    else i + 1 + Start(t[i + 1..], k - 1)
  }

  // ── Splitting and joining ──────────────────────────────────────────────

  lemma SplitUnfold(t: Bytes)
    requires NewlineAt(t) < |t|
    ensures var i := NewlineAt(t); Split(t) == [t[..i]] + Split(t[i + 1..])
  {
    hide NewlineAt;
  }

  /** The rows of a text beyond its first one. */
  lemma SplitTail(t: Bytes)
    requires NewlineAt(t) < |t|
    ensures var i := NewlineAt(t); Split(t)[0] == t[..i] && Split(t)[1..] == Split(t[i + 1..])
    ensures var i := NewlineAt(t); t == t[..i] + [NL] + t[i + 1..]
  {
    hide NewlineAt, Split;
    SplitUnfold(t);
    CutAt(t, NewlineAt(t));
  }

  lemma JoinCons(row: Bytes, rest: seq<Bytes>)
    ensures Join([row] + rest) == if rest == [] then row else row + [NL] + Join(rest)
    ensures Ended([row] + rest) == row + [NL] + Ended(rest)
  {
    assert ([row] + rest)[1..] == rest;
  }

  lemma {:induction false} NewlineAtFirst(a: Bytes, b: Bytes)
    requires NL !in a
    ensures NewlineAt(a + [NL] + b) == |a|
  {
    if a != [] {
      assert (a + [NL] + b)[1..] == a[1..] + [NL] + b;
      NewlineAtFirst(a[1..], b);
    }
  }

  lemma SplitShape(t: Bytes)
    ensures Split(t) != []
    ensures |Split(t)| == 1 <==> NL !in t
  {
    var i := NewlineAt(t);
    assert i == |t| ==> t == t[..i];
    if i < |t| {
      SplitSize(t[i + 1..]);
    }
  }

  lemma SplitSize(t: Bytes)
    ensures Split(t) != []
  {
  }

  /** A newline between two texts puts their rows side by side. */
  lemma {:induction false} SplitAtNewline(a: Bytes, b: Bytes)
    ensures Split(a + [NL] + b) == Split(a) + Split(b)
    decreases |a|
  {
    hide NewlineAt, Split;
    var i := NewlineAt(a);
    var t := a + [NL] + b;
    if i == |a| {
      assert a == a[..i];
      SplitLine(a);
      NewlineAtFirst(a, b);
      SplitUnfold(t);
      assert t[..|a|] == a && t[|a| + 1..] == b;
    } else {
      var rest := a[i + 1..] + [NL] + b;
      CutAt(a, i);
      assert t == a[..i] + [NL] + rest;
      NewlineAtFirst(a[..i], rest);
      SplitUnfold(t);
      SplitUnfold(a);
      assert t[..i] == a[..i] && t[i + 1..] == rest;
      SplitAtNewline(a[i + 1..], b);
    }
  }

  lemma {:induction false} SplitIsNewlineFree(t: Bytes)
    ensures NewlineFree(Split(t))
    decreases |t|
  {
    var i := NewlineAt(t);
    assert t[..i] == t || i < |t|;
    if i < |t| {
      SplitIsNewlineFree(t[i + 1..]);
    }
  }

  /** Joining the rows of a text gives it back. */
  lemma {:induction false} JoinOfSplit(t: Bytes)
    ensures Join(Split(t)) == t
    decreases |t|
  {
    hide NewlineAt, Split, Join;
    var i := NewlineAt(t);
    if i < |t| {
      SplitUnfold(t);
      SplitTail(t);
      SplitSize(t[i + 1..]);
      JoinOfSplit(t[i + 1..]);
      JoinCons(t[..i], Split(t[i + 1..]));
    } else {
      assert t[..i] == t;
      SplitLine(t);
      JoinCons(t, []);
      assert [t] + [] == [t];
    }
  }

  lemma SplitLine(line: Bytes)
    requires NL !in line
    ensures Split(line) == [line]
  {
    NewlineAtEnd(line);
  }

  /** Splitting joined rows gives them back: rows and texts are in bijection. */
  lemma {:induction false} SplitOfJoin(rows: seq<Bytes>)
    requires rows != [] && NewlineFree(rows)
    ensures Split(Join(rows)) == rows
  {
    hide NewlineAt, Split, Join;
    assert NL !in rows[0];
    Cons(rows);
    JoinCons(rows[0], rows[1..]);
    SplitLine(rows[0]);
    if |rows| > 1 {
      SplitOfJoin(rows[1..]);
      SplitAtNewline(rows[0], Join(rows[1..]));
    }
  }

  /** The rows of each text in turn. */
  function SplitAll(texts: seq<Bytes>): seq<Bytes> {
    if texts == [] then [] else Split(texts[0]) + SplitAll(texts[1..])
  }

  /** Replacement lines that themselves hold newlines contribute all their rows. */
  lemma {:induction false} SplitOfJoinAny(lines: seq<Bytes>)
    requires lines != []
    ensures Split(Join(lines)) == SplitAll(lines)
  {
    hide NewlineAt, Split, Join;
    Cons(lines);
    JoinCons(lines[0], lines[1..]);
    if |lines| == 1 {
      assert SplitAll(lines[1..]) == [];
    } else {
      SplitOfJoinAny(lines[1..]);
      SplitAtNewline(lines[0], Join(lines[1..]));
    }
  }

  lemma {:induction false} EndedConcat(a: seq<Bytes>, b: seq<Bytes>)
    ensures Ended(a + b) == Ended(a) + Ended(b)
  {
    if a == [] {
      assert a + b == b;
    } else {
      assert (a + b)[1..] == a[1..] + b;
      EndedConcat(a[1..], b);
    }
  }

  lemma {:induction false} JoinConcat(a: seq<Bytes>, b: seq<Bytes>)
    requires b != []
    ensures Join(a + b) == Ended(a) + Join(b)
  {
    if a == [] {
      assert a + b == b;
    } else {
      assert (a + b)[1..] == a[1..] + b;
      JoinConcat(a[1..], b);
    }
  }

  lemma {:induction false} SplitAfterEnded(a: seq<Bytes>, t: Bytes)
    requires NewlineFree(a)
    ensures Split(Ended(a) + t) == a + Split(t)
  {
    hide NewlineAt, Split;
    if a == [] {
      assert Ended(a) + t == t;
    } else {
      assert NL !in a[0];
      SplitLine(a[0]);
      SplitAfterEnded(a[1..], t);
      SplitAtNewline(a[0], Ended(a[1..]) + t);
      Assoc(a[0], [NL], Ended(a[1..]), t);
      Cons(a);
      assert [a[0]] + (a[1..] + Split(t)) == [a[0]] + a[1..] + Split(t);
    }
  }

  // ── Where rows start ───────────────────────────────────────────────────

  lemma SplitHead(t: Bytes)
    ensures Split(t) != [] && Split(t)[0] == t[..NewlineAt(t)]
  {
  }

  lemma NewlineAtEnd(t: Bytes)
    requires NL !in t
    ensures NewlineAt(t) == |t|
  {
    hide NewlineAt;
  }

  lemma StartStep(t: Bytes, k: nat)
    ensures Start(t, 0) == 0
    ensures var i := NewlineAt(t); k > 0 ==> Start(t, k) == if i == |t| then |t| else i + 1 + Start(t[i + 1..], k - 1)
  {
  }

  lemma {:induction false} StartIsEndedLength(t: Bytes, k: nat)
    requires k <= |Split(t)|
    ensures k < |Split(t)| ==> Start(t, k) == |Ended(Split(t)[..k])|
    ensures k == |Split(t)| ==> Start(t, k) == |t|
    decreases k
  {
    hide NewlineAt, Split, Start, Ended;
    var i := NewlineAt(t);
    StartStep(t, k);
    SplitSize(t);
    if k == 0 {
      EndedNothing(Split(t)[..0]);
    } else if i < |t| {
      var u := t[i + 1..];
      SplitTail(t);
      SplitUnfold(t);
      StartIsEndedLength(u, k - 1);
      assert Split(t)[..k] == [t[..i]] + Split(u)[..k - 1];
      JoinCons(t[..i], Split(u)[..k - 1]);
    } else {
      assert t[..i] == t;
      SplitLine(t);
    }
  }

  lemma EndedNothing(rows: seq<Bytes>)
    requires rows == []
    ensures Ended(rows) == []
  {
  }

  /** Row `k` starts right after the rows before it, each with its newline. */
  lemma StartCutsRows(t: Bytes, k: nat)
    requires k <= |Split(t)|
    ensures Start(t, k) <= |t|
    ensures k < |Split(t)| ==> t[..Start(t, k)] == Ended(Split(t)[..k]) && t[Start(t, k)..] == Join(Split(t)[k..])
    ensures k == |Split(t)| ==> Start(t, k) == |t|
  {
    hide NewlineAt, Split, Join, Ended, Start;
    StartIsEndedLength(t, k);
    if k < |Split(t)| {
      JoinOfSplit(t);
      JoinConcat(Split(t)[..k], Split(t)[k..]);
      TakeDrop(Split(t), k);
      CutConcat(Ended(Split(t)[..k]), Join(Split(t)[k..]));
    }
  }

  lemma EndedSnoc(rows: seq<Bytes>, k: nat)
    requires k < |rows|
    ensures Ended(rows[..k + 1]) == Ended(rows[..k]) + (rows[k] + [NL])
  {
    hide Ended;
    Snoc(rows, k);
    EndedConcat(rows[..k], [rows[k]]);
    EndedOne(rows[k]);
  }

  lemma EndedOne(row: Bytes)
    ensures Ended([row]) == row + [NL]
  {
    assert Ended([row][1..]) == [];
  }

  lemma LastOfConcat<T>(a: seq<T>, b: seq<T>)
    requires b != []
    ensures (a + b)[|a + b| - 1] == b[|b| - 1]
  {
  }

  /** A row is the stretch between its start and its newline, or the end of the text. */
  lemma RowSits(t: Bytes, k: nat)
    requires k < |Split(t)|
    ensures var s, row := Start(t, k), Split(t)[k];
      && s + |row| <= |t| && t[s..s + |row|] == row
      && (k + 1 < |Split(t)| ==> s + |row| < |t| && t[s + |row|] == NL && Start(t, k + 1) == s + |row| + 1)
      && (k + 1 == |Split(t)| ==> s + |row| == |t|)
    ensures k == 0 ==> Start(t, k) == 0
    ensures k > 0 ==> Start(t, k) > 0 && t[Start(t, k) - 1] == NL
  {
    hide NewlineAt, Split, Join, Ended, Start;
    var s, rows := Start(t, k), Split(t);
    StartCutsRows(t, k);
    JoinCons(rows[k], rows[k + 1..]);
    Cons(rows[k..]);
    assert rows[k..][0] == rows[k] && rows[k..][1..] == rows[k + 1..];
    if k + 1 < |rows| {
      Assoc(rows[k], [NL], Join(rows[k + 1..]), []);
      PieceAt(t, s, rows[k], [NL] + Join(rows[k + 1..]));
      StartIsEndedLength(t, k);
      StartIsEndedLength(t, k + 1);
      EndedSnoc(rows, k);
    } else {
      assert t[s..] == rows[k] + [];
      PieceAt(t, s, rows[k], []);
    }
    if k > 0 {
      EndedSnoc(rows, k - 1);
      LastOfConcat(Ended(rows[..k - 1]), rows[k - 1] + [NL]);
      assert t[..s][s - 1] == t[s - 1];
    }
    StartOfFirst(t);
  }

  lemma StartOfFirst(t: Bytes)
    ensures Start(t, 0) == 0
  {
  }

  lemma StartsInOrder(t: Bytes, k: nat, l: nat)
    requires k < l < |Split(t)|
    ensures Start(t, k) + |Split(t)[k]| < Start(t, l)
    decreases l - k
  {
    RowSits(t, k);
    if k + 1 < l {
      StartsInOrder(t, k + 1, l);
    }
  }

  // ── Positions ──────────────────────────────────────────────────────────

  /** A byte offset seen as a row and a column. */
  function RowAt(t: Bytes, p: nat): nat
    requires p <= |t|
  {
    SplitSize(t[..p]);
    |Split(t[..p])| - 1
  }

  function ColAt(t: Bytes, p: nat): nat
    requires p <= |t|
  {
    SplitSize(t[..p]);
    |Split(t[..p])[RowAt(t, p)]|
  }

  /** Cutting a text keeps the rows before the cut and shortens the row it falls in. */
  lemma {:induction false} SplitPrefix(t: Bytes, p: nat)
    requires p <= |t|
    ensures var cut, k := Split(t[..p]), RowAt(t, p);
      k < |Split(t)| && cut[..k] == Split(t)[..k] && cut[k] <= Split(t)[k]
    decreases |t|
  {
    hide NewlineAt, Split;
    SplitSize(t);
    SplitSize(t[..p]);
    var i := NewlineAt(t);
    if p <= i {
      SplitHead(t);
      assert NL !in t[..p] by { assert t[..p] == t[..i][..p]; }
      SplitShape(t[..p]);
      SplitHead(t[..p]);
      NewlineAtEnd(t[..p]);
      assert t[..p][..p] == t[..p];
    } else {
      SplitTail(t);
      var u := t[i + 1..];
      assert t[..p] == t[..i] + [NL] + u[..p - i - 1];
      NewlineAtFirst(t[..i], u[..p - i - 1]);
      SplitTail(t[..p]);
      assert t[..p][i + 1..] == u[..p - i - 1] && t[..p][..i] == t[..i];
      SplitPrefix(u, p - i - 1);
      PrefixStep(Split(t[..p]), Split(t));
    }
  }

  lemma PrefixStep(cut: seq<Bytes>, rows: seq<Bytes>)
    requires cut != [] && rows != [] && cut[0] == rows[0] && cut[1..] != []
    requires var k := |cut[1..]| - 1; k < |rows[1..]| && cut[1..][..k] == rows[1..][..k] && cut[1..][k] <= rows[1..][k]
    ensures var k := |cut| - 1; k < |rows| && cut[..k] == rows[..k] && cut[k] <= rows[k]
  {
    var k := |cut| - 1;
    assert cut[..k] == [cut[0]] + cut[1..][..k - 1];
    assert rows[..k] == [rows[0]] + rows[1..][..k - 1];
  }

  lemma OffsetOfPosition(t: Bytes, p: nat)
    requires p <= |t|
    ensures RowAt(t, p) < |Split(t)| && ColAt(t, p) <= |Split(t)[RowAt(t, p)]|
    ensures Start(t, RowAt(t, p)) + ColAt(t, p) == p
  {
    var k := RowAt(t, p);
    SplitPrefix(t, p);
    StartCutsRows(t, k);
    StartCutsRows(t[..p], k);
    var cut := Split(t[..p]);
    assert cut[k..] == [cut[k]];
    assert t[..p] == Ended(cut[..k]) + cut[k] by {
      assert t[..p] == t[..p][..Start(t[..p], k)] + t[..p][Start(t[..p], k)..];
    }
  }

  /** Every offset up to the end is the position of exactly one row and column. */
  lemma PositionIsOffset(t: Bytes, p: nat, k: nat, c: nat)
    requires p <= |t| && k < |Split(t)| && c <= |Split(t)[k]|
    ensures Start(t, k) + c == p <==> k == RowAt(t, p) && c == ColAt(t, p)
  {
    var r := RowAt(t, p);
    OffsetOfPosition(t, p);
    if r < k {
      StartsInOrder(t, r, k);
    } else if k < r {
      StartsInOrder(t, k, r);
    }
  }

  /** Cutting a text at a position keeps the rows before it and what its row holds before it. */
  lemma CutAtPosition(t: Bytes, k: nat, c: nat)
    requires k < |Split(t)| && c <= |Split(t)[k]| && Start(t, k) + c <= |t|
    ensures var cut := Split(t[..Start(t, k) + c]);
      |cut| == k + 1 && cut[..k] == Split(t)[..k] && cut[k] == Split(t)[k][..c]
  {
    hide Split, Start;
    var p := Start(t, k) + c;
    PositionIsOffset(t, p, k, c);
    SplitPrefix(t, p);
  }
}

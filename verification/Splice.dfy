/** Replacing rows of a text by cutting bytes, and what that means for the list of rows. */
module Splice {
  import opened ByteStrings
  import opened Rows
  import opened Utf8

  /** `splice_rows`: bytes `[line_to_byte(s), line_to_byte(e))` make way for the joined lines. */
  function SpliceRows(t: Bytes, s: nat, e: nat, lines: seq<Bytes>): Bytes
    requires s <= e <= |Split(t)|
  {
    StartCutsRows(t, s);
    StartCutsRows(t, e);
    var n := |Split(t)|;
    var joined := Join(lines);
    var leading := if joined != [] && s == n then [NL] else [];
    var trailing := if joined != [] && e < n then [NL] else [];
    t[..Start(t, s)] + (leading + joined + trailing) + t[Start(t, e)..]
  }

  /** The list edit that the splice is meant to be. */
  function ReplaceRows(rows: seq<Bytes>, s: nat, e: nat, lines: seq<Bytes>): seq<Bytes>
    requires s <= e <= |rows|
  {
    rows[..s] + lines + rows[e..]
  }

  lemma SubrowsNewlineFree(rows: seq<Bytes>, i: nat, j: nat)
    requires NewlineFree(rows) && i <= j <= |rows|
    ensures NewlineFree(rows[i..j])
  {
    forall k | 0 <= k < |rows[i..j]| ensures NL !in rows[i..j][k] {
      assert rows[i..j][k] == rows[i + k];
    }
  }

  /** The two outer parts of a splice, in terms of rows. */
  lemma OuterParts(t: Bytes, s: nat, e: nat)
    requires s <= e <= |Split(t)|
    ensures Start(t, s) <= |t| && Start(t, e) <= |t|
    ensures s < |Split(t)| ==> t[..Start(t, s)] == Ended(Split(t)[..s])
    ensures s == |Split(t)| ==> t[..Start(t, s)] == Join(Split(t)) == t
    ensures e < |Split(t)| ==> t[Start(t, e)..] == Join(Split(t)[e..])
    ensures e == |Split(t)| ==> t[Start(t, e)..] == []
    ensures NewlineFree(Split(t)) && NewlineFree(Split(t)[..s]) && NewlineFree(Split(t)[e..])
  {
    hide Split, Join, Ended, Start;
    StartCutsRows(t, s);
    StartCutsRows(t, e);
    JoinOfSplit(t);
    SplitIsNewlineFree(t);
    SubrowsNewlineFree(Split(t), 0, s);
    SubrowsNewlineFree(Split(t), e, |Split(t)|);
  }

  /** Splitting `rows, each ended` followed by `joined`, a newline and more rows. */
  lemma SplitSandwich(a: seq<Bytes>, m: Bytes, b: seq<Bytes>)
    requires NewlineFree(a) && NewlineFree(b) && b != []
    ensures Split(Ended(a) + (m + [NL] + Join(b))) == a + Split(m) + b
  {
    hide Split, Join, Ended;
    SplitAfterEnded(a, m + [NL] + Join(b));
    SplitAtNewline(m, Join(b));
    SplitOfJoin(b);
  }

  /** What the rows are after any splice, whatever the replacement lines hold. */
  lemma SplicedRows(t: Bytes, s: nat, e: nat, lines: seq<Bytes>)
    requires s <= e <= |Split(t)|
    ensures Split(SpliceRows(t, s, e, lines)) ==
      if Join(lines) != [] then ReplaceRows(Split(t), s, e, Split(Join(lines)))
      else if s < e == |Split(t)| then ReplaceRows(Split(t), s, e, [[]])
      else ReplaceRows(Split(t), s, e, [])
  {
    hide Split, Join, Ended, Start;
    var rows, joined := Split(t), Join(lines);
    var a, b := rows[..s], rows[e..];
    OuterParts(t, s, e);
    var r := SpliceRows(t, s, e, lines);
    if joined != [] && e < |rows| {
      SplitSandwich(a, joined, b);
      assert r == Ended(a) + (joined + [NL] + Join(b));
    } else if joined != [] && s < |rows| {
      SplitAfterEnded(a, joined);
      assert r == Ended(a) + joined;
    } else if joined != [] {
      SplitAtNewline(t, joined);
      assert r == t + [NL] + joined;
      assert a == rows && b == [];
    } else if e < |rows| {
      SplitAfterEnded(a, Join(b));
      SplitOfJoin(b);
      assert r == Ended(a) + Join(b);
    } else if s < |rows| {
      SplitAfterEnded(a, []);
      SplitEmpty();
      assert r == Ended(a) + [];
    } else {
      assert r == t;
      assert a == rows && b == [];
    }
  }

  lemma SplitEmpty()
    ensures Split([]) == [[]]
  {
  }

  /** Lines join to nothing exactly when there are none or one empty one. */
  lemma JoinIsEmpty(lines: seq<Bytes>)
    ensures Join(lines) == [] <==> lines == [] || lines == [[]]
  {
  }

  /** When the byte splice is the list edit: the cases that fail are empty replacements only. */
  predicate SplicesFaithfully(n: nat, s: nat, e: nat, lines: seq<Bytes>) {
    || (lines != [] && lines != [[]])
    || (lines == [] && (e < n || s == n))
    || (lines == [[]] && s < n && e == n)
  }

  /** On lines without newlines, the byte splice refines the list edit exactly in those cases. */
  lemma SpliceRefinesRowEdit(t: Bytes, s: nat, e: nat, lines: seq<Bytes>)
    requires s <= e <= |Split(t)| && NewlineFree(lines)
    ensures Split(SpliceRows(t, s, e, lines)) == ReplaceRows(Split(t), s, e, lines)
      <==> SplicesFaithfully(|Split(t)|, s, e, lines)
  {
    hide Split, Join, Ended, Start, SpliceRows;
    SplicedRows(t, s, e, lines);
    JoinIsEmpty(lines);
    var rows := Split(t);
    if lines != [] && lines != [[]] {
      SplitOfJoin(lines);
    } else {
      var got, want := Split(SpliceRows(t, s, e, lines)), ReplaceRows(rows, s, e, lines);
      assert |want| == s + |lines| + (|rows| - e);
      assert |got| == (if s < e == |rows| then s + 1 else s + (|rows| - e));
    }
  }

  /**
   * The remaining cases: deleting through the last row leaves one empty row
   * behind, and one empty line acts like no line at all.
   */
  lemma SpliceOfNothing(t: Bytes, s: nat, e: nat)
    requires s <= e <= |Split(t)|
    ensures SpliceRows(t, s, e, [[]]) == SpliceRows(t, s, e, [])
    ensures Split(SpliceRows(t, s, e, [])) ==
      ReplaceRows(Split(t), s, e, if s < e == |Split(t)| then [[]] else [])
  {
    hide Split, Ended, Start;
    SplicedRows(t, s, e, []);
    assert Join([[]]) == Join([]);
  }

  /** Lines that hold newlines themselves become all their rows. */
  lemma EmbeddedNewlines(t: Bytes, s: nat, e: nat, lines: seq<Bytes>)
    requires s <= e <= |Split(t)| && lines != [] && lines != [[]]
    ensures Split(SpliceRows(t, s, e, lines)) ==
      ReplaceRows(Split(t), s, e, SplitAll(lines))
  {
    hide Split, Join, Ended, Start, SpliceRows, SplitAll;
    SplicedRows(t, s, e, lines);
    JoinIsEmpty(lines);
    SplitOfJoinAny(lines);
  }

  /** Rows outside the range are kept byte for byte, in place and in order. */
  lemma OutsideRowsAreKept(t: Bytes, s: nat, e: nat, lines: seq<Bytes>)
    requires s <= e <= |Split(t)|
    ensures var got := Split(SpliceRows(t, s, e, lines));
      && |got| >= s + (|Split(t)| - e)
      && got[..s] == Split(t)[..s]
      && got[|got| - (|Split(t)| - e)..] == Split(t)[e..]
  {
    hide Split, Join, Ended, Start, SpliceRows;
    SplicedRows(t, s, e, lines);
  }

  /** Writing back what was read changes nothing, except over one empty row that is not the last. */
  lemma WriteBackRows(t: Bytes, s: nat, e: nat)
    requires s <= e <= |Split(t)|
    ensures SpliceRows(t, s, e, Split(t)[s..e]) == t <==> !(Split(t)[s..e] == [[]] && e < |Split(t)|)
  {
    hide Split, Join, Ended, Start, SpliceRows, SplicesFaithfully, NewlineFree;
    var rows, lines := Split(t), Split(t)[s..e];
    var r := SpliceRows(t, s, e, lines);
    OuterParts(t, s, e);
    SubrowsNewlineFree(rows, s, e);
    SpliceRefinesRowEdit(t, s, e, lines);
    assert rows[..s] + rows[s..e] + rows[e..] == rows;
    WriteBackCases(|rows|, s, e, lines);
    if Split(r) == rows {
      JoinOfSplit(r);
      JoinOfSplit(t);
    }
  }

  lemma WriteBackCases(n: nat, s: nat, e: nat, lines: seq<Bytes>)
    requires s <= e <= n && |lines| == e - s
    ensures SplicesFaithfully(n, s, e, lines) <==> !(lines == [[]] && e < n)
  {
  }

  /** `nvim_set_current_line`: the rows joined again with one of them replaced. */
  function SetRow(t: Bytes, row: nat, line: Bytes): Bytes {
    Join(if row < |Split(t)| then Split(t)[row := line] else Split(t))
  }

  /** Setting the current line replaces its row; a row past the end changes nothing. */
  lemma SetRowMeaning(t: Bytes, row: nat, line: Bytes)
    ensures row < |Split(t)| ==> Split(SetRow(t, row, line)) == ReplaceRows(Split(t), row, row + 1, Split(line))
    ensures row >= |Split(t)| ==> SetRow(t, row, line) == t
  {
    hide Split, Join, Ended, NewlineFree;
    JoinOfSplit(t);
    var rows := Split(t);
    if row < |rows| {
      SplitIsNewlineFree(t);
      SubrowsNewlineFree(rows, 0, row);
      SubrowsNewlineFree(rows, row + 1, |rows|);
      var a, b := rows[..row], rows[row + 1..];
      assert a == rows[0..row] && b == rows[row + 1..|rows|];
      assert rows[row := line] == a + ([line] + b);
      JoinConcat(a, [line] + b);
      JoinCons(line, b);
      if b == [] {
        SplitAfterEnded(a, line);
      } else {
        SplitSandwich(a, line, b);
      }
    }
  }

  /** It is the one-row splice exactly when the line is not empty or the row is the last. */
  lemma SetRowIsSplice(t: Bytes, row: nat, line: Bytes)
    requires row < |Split(t)| && NL !in line
    ensures SetRow(t, row, line) == SpliceRows(t, row, row + 1, [line]) <==> line != [] || row + 1 == |Split(t)|
  {
    hide Split, Ended, Start, SpliceRows, SetRow;
    SetRowMeaning(t, row, line);
    SpliceRefinesRowEdit(t, row, row + 1, [line]);
    OneRow(line);
    assert Join([line]) == line;
    SplitOfJoin([line]);
    if Split(SetRow(t, row, line)) == Split(SpliceRows(t, row, row + 1, [line])) {
      JoinOfSplit(SetRow(t, row, line));
      JoinOfSplit(SpliceRows(t, row, row + 1, [line]));
    }
  }

  lemma OneRow(line: Bytes)
    requires NL !in line
    ensures NewlineFree([line])
  {
  }

  // ── Characters stay whole ──────────────────────────────────────────────

  /** Rows begin and end between characters. */
  lemma StartIsBoundary(t: Bytes, k: nat)
    requires ValidUtf8(t) && k <= |Split(t)|
    ensures Start(t, k) <= |t| && IsBoundary(t, Start(t, k))
  {
    hide Split, Start, ValidUtf8;
    StartCutsRows(t, k);
    if k < |Split(t)| {
      RowSits(t, k);
      if k > 0 {
        AsciiIsBoundary(t, Start(t, k) - 1);
      }
    }
  }

  lemma {:induction false} JoinIsValid(lines: seq<Bytes>)
    requires forall i :: 0 <= i < |lines| ==> ValidUtf8(lines[i])
    ensures ValidUtf8(Join(lines))
  {
    hide ValidUtf8;
    if lines == [] {
      EncodedIsValid("");
    } else if |lines| > 1 {
      JoinIsValid(lines[1..]);
      AsciiIsValid(NL);
      ValidConcat(lines[0], [NL]);
      ValidConcat(lines[0] + [NL], Join(lines[1..]));
    }
  }

  /** The slices never panic and the new text is UTF-8 again. */
  lemma SpliceKeepsUtf8(t: Bytes, s: nat, e: nat, lines: seq<Bytes>)
    requires ValidUtf8(t) && s <= e <= |Split(t)|
    requires forall i :: 0 <= i < |lines| ==> ValidUtf8(lines[i])
    ensures IsBoundary(t, Start(t, s)) && IsBoundary(t, Start(t, e))
    ensures ValidUtf8(SpliceRows(t, s, e, lines))
  {
    hide Split, Start, Join, ValidUtf8, IsBoundary;
    StartIsBoundary(t, s);
    StartIsBoundary(t, e);
    ValidCut(t, Start(t, s));
    ValidCut(t, Start(t, e));
    JoinIsValid(lines);
    AsciiIsValid(NL);
    EncodedIsValid("");
    var n, joined := |Split(t)|, Join(lines);
    var leading := if joined != [] && s == n then [NL] else [];
    var trailing := if joined != [] && e < n then [NL] else [];
    ValidConcat(leading, joined);
    ValidConcat(leading + joined, trailing);
    ValidConcat(t[..Start(t, s)], leading + joined + trailing);
    ValidConcat(t[..Start(t, s)] + (leading + joined + trailing), t[Start(t, e)..]);
  }
}

/** The search counter of the status line: a memoised match list and a binary search over it. */
module SearchCount {
  import opened Wrappers
  import opened ByteStrings
  import opened Rows
  import opened Utf8
  import opened TextRange
  import opened Numbers

  /** At most this many matches are counted. */
  const MATCH_CAP: nat := 10_000

  /** Generations are 64-bit and wrap. */
  const GENERATIONS: nat := 0x1_0000_0000_0000_0000

  /** Start offsets of the matches of a pattern in a text; the regex engine's business. */
  type Finder = (string, Bytes) -> seq<nat>

  predicate Ascending(s: seq<nat>) {
    forall i, j :: 0 <= i < j < |s| ==> s[i] < s[j]
  }

  ghost predicate FindsInOrder(find: Finder) {
    forall pattern, text :: Ascending(find(pattern, text))
  }

  /** The matches that count: the first ones, up to the cap. */
  function Scan(find: Finder, pattern: string, text: Bytes): seq<nat> {
    var all := find(pattern, text);
    if |all| <= MATCH_CAP then all else all[..MATCH_CAP]
  }

  /** How many of `starts` are at or before `at`, by looking at each of them. */
  function CountUpTo(starts: seq<nat>, at: nat): (n: nat)
    ensures n <= |starts|
  {
    if starts == [] then 0 else (if starts[0] <= at then 1 else 0) + CountUpTo(starts[1..], at)
  }

  /** What the status line should say: a scan of the text as it is, and a linear count. */
  function FreshCount(find: Finder, pattern: Option<string>, text: Bytes, cursor: nat): Option<(nat, nat)> {
    match pattern
    case None => None
    case Some(p) =>
      var starts := Scan(find, p, text);
      if starts == [] then None else Some((CountUpTo(starts, cursor), |starts|))
  }

  lemma {:induction false} CountSplits(starts: seq<nat>, at: nat, k: nat)
    requires k <= |starts|
    requires forall i :: 0 <= i < k ==> starts[i] <= at
    requires forall i :: k <= i < |starts| ==> starts[i] > at
    ensures CountUpTo(starts, at) == k
  {
    if starts != [] {
      CountSplits(starts[1..], at, if k == 0 then 0 else k - 1);
    }
  }

  /** `partition_point`: on ascending starts the binary search is the linear count. */
  method PartitionPoint(starts: seq<nat>, at: nat) returns (k: nat)
    requires Ascending(starts)
    ensures k == CountUpTo(starts, at)
    ensures k > 0 ==> starts[k - 1] <= at
    ensures k < |starts| ==> at < starts[k]
  {
    var lo, hi := 0, |starts|;
    while lo < hi
      invariant 0 <= lo <= hi <= |starts|
      invariant forall i :: 0 <= i < lo ==> starts[i] <= at
      invariant forall i :: hi <= i < |starts| ==> starts[i] > at
    {
      var mid := (lo + hi) / 2;
      if starts[mid] <= at {
        lo := mid + 1;
      } else {
        hi := mid;
      }
    }
    CountSplits(starts, at, lo);
    k := lo;
  }

  /** The byte a cursor stands on; columns stop before the newline, rows at the end of the text. */
  function CursorByte(text: Bytes, row: nat, col: nat): nat
    requires ValidUtf8(text)
  {
    RowsAreValid(text);
    var n := |Split(text)|;
    Start(text, Min(row, n)) +
      if row < n then
        var line := Decode(Split(text)[row]).value;
        Offset(line, Min(col, |line|))
      else 0
  }

  /**
   The text before the cursor is the rows above its row and the characters of its row before its
   column; past the last row it is all of the text.
   */
  lemma CursorByteIsThePlace(text: Bytes, row: nat, col: nat)
    requires ValidUtf8(text)
    ensures CursorByte(text, row, col) <= |text|
    ensures row >= |Split(text)| ==> CursorByte(text, row, col) == |text|
    ensures row < |Split(text)| ==>
      var before := Split(text[..CursorByte(text, row, col)]);
      && |before| == row + 1 && before[..row] == Split(text)[..row]
      && ValidUtf8(Split(text)[row])
      && var line := Decode(Split(text)[row]).value;
         before[row] == Encode(line[..Min(col, |line|)])
  {
    hide Split, Decode, Encode, Offset, Start;
    RowsAreValid(text);
    StartCutsRows(text, Min(row, |Split(text)|));
    if row < |Split(text)| {
      var line := Decode(Split(text)[row]).value;
      RowSits(text, row);
      DecodeInvertsEncode(Split(text)[row], line);
      var k := Min(col, |line|);
      OffsetIsBoundary(line, k);
      CutAtPosition(text, row, Offset(line, k));
    }
  }

  datatype Doc = Doc(content: Bytes, generation: nat)

  datatype CacheEntry = CacheEntry(bufferId: nat, generation: nat, pattern: string, matchStarts: seq<nat>)

  class App {
    const find: Finder
    var docs: map<nat, Doc>
    var active: nat
    var nextBufferId: nat
    var pattern: Option<string>
    var cursorRow: nat
    var cursorCol: nat
    var cache: Option<CacheEntry>

    /** How often each buffer was edited, without wrapping; and what the cache was filled from. */
    ghost var edits: map<nat, nat>
    ghost var cachedAt: nat
    ghost var cachedText: Bytes

    ghost predicate DocsValid()
      reads this
    {
      && active in docs
      && docs.Keys == edits.Keys
      && (forall id :: id in docs ==>
            id < nextBufferId && ValidUtf8(docs[id].content) && docs[id].generation == edits[id] % GENERATIONS)
    }

    ghost predicate CacheValid()
      reads this
    {
      cache.Some? ==>
        var c := cache.value;
        && c.bufferId in docs && c.bufferId in edits
        && cachedAt <= edits[c.bufferId]
        && c.generation == cachedAt % GENERATIONS
        && c.matchStarts == Scan(find, c.pattern, cachedText)
        && (cachedAt == edits[c.bufferId] ==> cachedText == docs[c.bufferId].content)
    }

    ghost predicate Valid()
      reads this
    {
      FindsInOrder(find) && DocsValid() && CacheValid()
    }

    /**
     The cache would be used although its buffer was edited since it was filled: the generation
     counter has come full circle in between, once or more often.
     */
    ghost predicate Stale()
      reads this
    {
      && cache.Some? && cache.value.bufferId == active && pattern == Some(cache.value.pattern)
      && active in edits && cachedAt < edits[active] && (edits[active] - cachedAt) % GENERATIONS == 0
    }

    /** The text the counter speaks about. */
    ghost function CountedText(): Bytes
      requires active in docs
      reads this
    {
      if Stale() then cachedText else docs[active].content
    }

    constructor (find: Finder, content: Bytes)
      requires FindsInOrder(find) && ValidUtf8(content)
      ensures Valid() && docs == map[0 := Doc(content, 0)] && active == 0 && cache == None
      ensures edits == map[0 := 0] && this.find == find && pattern == None && cursorRow == 0 && cursorCol == 0
    {
      this.find := find;
      docs := map[0 := Doc(content, 0)];
      edits := map[0 := 0];
      active, nextBufferId, cursorRow, cursorCol := 0, 1, 0, 0;
      pattern, cache := None, None;
    }

    method Open(content: Bytes)
      requires Valid() && ValidUtf8(content)
      modifies this`docs, this`edits, this`active, this`nextBufferId
      ensures Valid() && active == old(nextBufferId) && docs == old(docs)[active := Doc(content, 0)]
    {
      active := nextBufferId;
      nextBufferId := nextBufferId + 1;
      docs := docs[active := Doc(content, 0)];
      edits := edits[active := 0];
    }

    method SwitchTo(id: nat)
      requires Valid() && id in docs
      modifies this`active
      ensures Valid() && active == id
    {
      active := id;
    }

    /** Any change of content bumps the buffer's generation. */
    method Edit(content: Bytes)
      requires Valid() && ValidUtf8(content)
      modifies this`docs, this`edits
      ensures Valid()
      ensures docs == old(docs)[active := Doc(content, (old(docs)[active].generation + 1) % GENERATIONS)]
      ensures edits == old(edits)[active := old(edits)[active] + 1]
    {
      docs := docs[active := Doc(content, (docs[active].generation + 1) % GENERATIONS)];
      NextGeneration(edits[active]);
      edits := edits[active := edits[active] + 1];
    }

    /** The same content written n times. */
    method EditOften(content: Bytes, n: nat)
      requires Valid() && ValidUtf8(content) && n > 0
      modifies this`docs, this`edits
      ensures Valid() && active in docs && docs[active].content == content
      ensures edits == old(edits)[active := old(edits)[active] + n]
    {
      hide FindsInOrder, ValidUtf8;
      Edit(content);
      for k := 1 to n
        invariant Valid() && active in docs && docs[active].content == content
        invariant edits == old(edits)[active := old(edits)[active] + k]
      {
        Edit(content);
      }
    }

    method MoveCursor(row: nat, col: nat)
      requires Valid()
      modifies this`cursorRow, this`cursorCol
      ensures Valid() && cursorRow == row && cursorCol == col
    {
      cursorRow, cursorCol := row, col;
    }

    method SetPattern(p: Option<string>)
      requires Valid()
      modifies this`pattern
      ensures Valid() && pattern == p
    {
      pattern := p;
    }

    /**
     `search_count`: after any run of the operations above the cached answer is the one a fresh
     scan would give; except exactly when the cache is stale, where it speaks of the text the
     cache was filled from.
     */
    method SearchCount() returns (r: Option<(nat, nat)>)
      requires Valid()
      modifies this`cache, this`cachedAt, this`cachedText
      ensures Valid()
      ensures r == FreshCount(find, pattern, old(CountedText()),
                              CursorByte(docs[active].content, cursorRow, cursorCol))
      ensures pattern.Some? && old(cache) == None ==>
        && cache.Some? && cache.value.bufferId == active && cache.value.pattern == pattern.value
        && cachedAt == edits[active] && cachedText == docs[active].content
    {
      hide CursorByte, Scan, Ascending, CountUpTo;
      if pattern == None {
        return None;
      }
      var cursor := CursorByte(docs[active].content, cursorRow, cursorCol);
      Refresh(pattern.value);
      var matchStarts := cache.value.matchStarts;
      ScanAscends(find, pattern.value, old(CountedText()));
      if matchStarts == [] {
        return None;
      }
      var idx := PartitionPoint(matchStarts, cursor);
      r := Some((idx, |matchStarts|));
    }

    /** The cache lookup: a hit is kept, a miss scans and replaces the entry. */
    method Refresh(pat: string)
      requires Valid() && pattern == Some(pat)
      modifies this`cache, this`cachedAt, this`cachedText
      ensures Valid() && cache.Some?
      ensures cache.value.matchStarts == Scan(find, pat, old(CountedText()))
      ensures old(cache) == None ==>
        && cache.value.bufferId == active && cache.value.pattern == pat
        && cachedAt == edits[active] && cachedText == docs[active].content
    {
      hide Scan, FindsInOrder;
      var doc := docs[active];
      var hit := cache.Some? && cache.value.bufferId == active
                 && cache.value.generation == doc.generation && cache.value.pattern == pat;
      if cache.Some? && cache.value.bufferId == active {
        SameGeneration(cachedAt, edits[active]);
      }
      if !hit {
        var starts := ScanMatches(find, pat, doc.content);
        cache := Some(CacheEntry(active, doc.generation, pat, starts));
        cachedAt, cachedText := edits[active], doc.content;
      }
    }
  }

  /** A finder that matches a text once, at its start, unless the text is empty. */
  function StartOnly(p: string, text: Bytes): seq<nat> {
    if text == [] then [] else [0]
  }

  lemma StartOnlyFacts()
    ensures FindsInOrder(StartOnly)
    ensures Scan(StartOnly, "p", [65]) == [0] && Scan(StartOnly, "p", []) == []
    ensures ValidUtf8([65]) && ValidUtf8([]) && CountUpTo([0], 0) == 1
    ensures CursorByte([], 0, 0) == 0
  {
    AsciiIsValid(65);
    EncodedIsValid("");
    assert CountUpTo([0][1..], 0) == 0;
    assert Split([]) == [[]];
    assert Decode([]) == Some("");
    assert ""[..0] == "";
  }

  /**
   The stale case is real: count in a text of one match, empty the text, edit it until the
   generation has come full circle, and the counter still reports the match.
   */
  method CountAfterFullCircle() returns (app: App, r: Option<(nat, nat)>)
    ensures fresh(app) && app.Valid() && app.find == StartOnly && app.pattern == Some("p")
    ensures app.docs[app.active].content == [] && app.edits[app.active] == 0x1_0000_0000_0000_0000
    ensures r == Some((1, 1))
    ensures FreshCount(StartOnly, Some("p"), [], 0) == None
  {
    hide CursorByte, Scan, CountUpTo, FindsInOrder, ValidUtf8;
    StartOnlyFacts();
    app := new App(StartOnly, [65]);
    app.SetPattern(Some("p"));
    var _ := app.SearchCount();
    app.EditOften([], GENERATIONS);
    assert app.Stale();
    r := app.SearchCount();
  }

  lemma NextGeneration(n: nat)
    ensures (n % GENERATIONS + 1) % GENERATIONS == (n + 1) % GENERATIONS
  {
  }

  /** Two edit counts have one generation exactly when whole circles lie between them. */
  lemma SameGeneration(m: nat, n: nat)
    requires m <= n
    ensures m % GENERATIONS == n % GENERATIONS <==> (n - m) % GENERATIONS == 0
  {
  }

  lemma ScanAscends(find: Finder, pattern: string, text: Bytes)
    requires FindsInOrder(find)
    ensures Ascending(Scan(find, pattern, text))
  {
    assert Ascending(find(pattern, text));
  }

  /** The scan keeps match starts until the cap is reached. */
  method ScanMatches(find: Finder, pattern: string, text: Bytes) returns (starts: seq<nat>)
    ensures starts == Scan(find, pattern, text)
  {
    starts := [];
    var all := find(pattern, text);
    for i := 0 to |all|
      invariant starts == all[..i] && i < MATCH_CAP
    {
      starts := starts + [all[i]];
      if |starts| >= MATCH_CAP {
        return;
      }
    }
  }

  /** The two numbers on the status line: the index never passes the total, nor the total the cap. */
  lemma CountReads(find: Finder, p: string, text: Bytes, cursor: nat)
    requires FindsInOrder(find)
    ensures FreshCount(find, Some(p), text, cursor) == None <==> find(p, text) == []
    ensures var r := FreshCount(find, Some(p), text, cursor);
      r.Some? ==>
        var (idx, total) := r.value;
        && idx <= total <= 10_000 && total <= |find(p, text)|
        && (total == |find(p, text)| || total == 10_000)
        && (forall i :: 0 <= i < total ==> (i < idx <==> find(p, text)[i] <= cursor))
  {
    var starts := Scan(find, p, text);
    ScanAscends(find, p, text);
    SplitExists(starts, cursor);
  }

  lemma {:induction false} SplitExists(starts: seq<nat>, at: nat)
    requires Ascending(starts)
    ensures forall i :: 0 <= i < |starts| ==> (i < CountUpTo(starts, at) <==> starts[i] <= at)
  {
    if starts != [] {
      SplitExists(starts[1..], at);
      assert forall i | 1 <= i < |starts| :: starts[i] == starts[1..][i - 1];
      if starts[0] > at {
        CountSplits(starts, at, 0);
      }
    }
  }
}

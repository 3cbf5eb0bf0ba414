/** The loop that reads requests off a buffered stream and answers them. */
module RpcLoop {
  import opened Wrappers
  import opened ByteStrings
  import opened Slices
  import opened Rows
  import opened Text
  import opened Utf8
  import opened RpcProtocol

  /** How much of `input` a `read_line` capped at `limit` takes. */
  function LineLength(input: Bytes, limit: nat): (n: nat)
    ensures n <= limit && n <= |input|
  {
    var i := NewlineAt(input);
    var n := if i < |input| then i + 1 else i;
    if n <= limit then n else limit
  }

  function AfterNewline(input: Bytes): Bytes {
    var i := NewlineAt(input);
    if i < |input| then input[i + 1..] else []
  }

  /** A buffered reader; `chunk` decides how many bytes each refill happens to bring. */
  class Reader {
    var rest: Bytes
    var buffered: nat
    var refills: nat
    const chunk: nat -> nat

    constructor (input: Bytes, chunk: nat -> nat)
      ensures rest == input && buffered == 0 && Valid()
    {
      rest := input;
      buffered := 0;
      refills := 0;
      this.chunk := chunk;
    }

    ghost predicate Valid()
      reads this
    {
      buffered <= |rest|
    }

    method FillBuf() returns (avail: Bytes)
      requires Valid()
      modifies this`buffered, this`refills
      ensures Valid() && buffered == |avail| && avail == rest[..buffered]
      ensures avail == [] <==> rest == []
    {
      if buffered == 0 && rest != [] {
        var n := 1 + chunk(refills);
        buffered := if n <= |rest| then n else |rest|;
        refills := refills + 1;
      }
      avail := rest[..buffered];
    }

    method Consume(n: nat)
      requires Valid() && n <= buffered
      modifies this`rest, this`buffered
      ensures Valid() && rest == old(rest)[n..] && buffered == old(buffered) - n
    {
      rest := rest[n..];
      buffered := buffered - n;
    }

    /** `take(limit).read_line`: up to and including the newline, or as far as the limit allows. */
    method ReadLine(limit: nat) returns (line: Bytes)
      requires Valid()
      modifies this`rest, this`buffered, this`refills
      ensures Valid()
      ensures line + rest == old(rest)
      ensures |line| == LineLength(old(rest), limit)
    {
      hide NewlineAt, LineLength, Plain;
      ghost var input := rest;
      line := [];
      PlainNothing(input);
      while |line| < limit
        invariant Valid() && |line| <= limit
        invariant input == line + rest && Plain(line)
        decreases limit - |line|
      {
        var avail := FillBuf();
        if avail == [] {
          break;
        }
        var room := limit - |line|;
        var window := if |avail| <= room then avail else avail[..room];
        var i := NewlineAt(window);
        var taken := if i < |window| then i + 1 else i;
        TakeWindow(input, line, rest, window);
        Consume(taken);
        if i < |window| {
          TakesThroughNewline(input, line, window, limit);
          line := line + window[..taken];
          return;
        }
        line := line + window;
      }
      StopsShort(input, line, limit);
    }

    /** Discards through the next newline, one chunk at a time. */
    method DrainToNewline()
      requires Valid()
      modifies this`rest, this`buffered, this`refills
      ensures Valid() && rest == AfterNewline(old(rest))
    {
      hide NewlineAt, AfterNewline, Plain;
      ghost var input := rest;
      ghost var gone: Bytes := [];
      PlainNothing(input);
      while true
        invariant Valid() && input == gone + rest && Plain(gone)
        decreases |rest|
      {
        var avail := FillBuf();
        if avail == [] {
          NothingAfter(input, gone);
          return;
        }
        var i := NewlineAt(avail);
        TakeWindow(input, gone, rest, avail);
        if i < |avail| {
          AfterFirstNewline(input, gone, avail);
          Consume(i + 1);
          return;
        }
        gone := gone + avail;
        Consume(|avail|);
      }
    }
  }

  predicate Plain(line: Bytes) {
    NL !in line
  }

  lemma PlainNothing(input: Bytes)
    ensures Plain([]) && input == [] + input
  {
  }

  /** What a window of the buffered bytes adds to a line read so far. */
  lemma TakeWindow(input: Bytes, line: Bytes, rest: Bytes, window: Bytes)
    requires input == line + rest && Plain(line) && window <= rest
    ensures line <= input && window <= input[|line|..]
    ensures var i := NewlineAt(window);
      if i < |window| then input == line + window[..i + 1] + rest[i + 1..]
      else window[..i] == window && input == line + window + rest[|window|..] && Plain(line + window)
  {
    hide NewlineAt;
    var i := NewlineAt(window);
    CutConcat(line, rest);
    if i < |window| {
      TakeDrop(rest, i + 1);
      assert rest[..i + 1] == window[..i + 1];
      Assoc(line, window[..i + 1], rest[i + 1..], []);
    } else {
      assert window[..i] == window;
      TakeDrop(rest, |window|);
      Assoc(line, window, rest[|window|..], []);
    }
  }

  lemma NothingAfter(input: Bytes, gone: Bytes)
    requires input == gone + [] && Plain(gone)
    ensures AfterNewline(input) == []
  {
    hide NewlineAt;
    assert input == gone;
    NewlineAtEnd(input);
  }

  lemma AfterFirstNewline(input: Bytes, gone: Bytes, window: Bytes)
    requires gone <= input && Plain(gone) && window <= input[|gone|..] && NewlineAt(window) < |window|
    ensures AfterNewline(input) == input[|gone|..][NewlineAt(window) + 1..]
  {
    hide NewlineAt;
    FirstNewline(input, gone, window, NewlineAt(window));
    DropOfDrop(input, |gone|, NewlineAt(window) + 1);
  }

  /** A newline found in a window right behind newline-free text is the first one of all. */
  lemma FirstNewline(input: Bytes, before: Bytes, window: Bytes, i: nat)
    requires before <= input && NL !in before
    requires window <= input[|before|..] && i == NewlineAt(window) < |window|
    ensures NewlineAt(input) == |before| + i < |input|
  {
    hide NewlineAt;
    var head, tail := before + window[..i], input[|before| + i + 1..];
    CutBehind(input, before, window, i);
    NewlineAtFirst(head, tail);
  }

  lemma CutBehind<T>(input: seq<T>, before: seq<T>, window: seq<T>, i: nat)
    requires before <= input && window <= input[|before|..] && i < |window|
    ensures input == before + window[..i] + [window[i]] + input[|before| + i + 1..]
  {
    CutAt(input, |before| + i);
    assert input[|before| + i] == input[|before|..][i] == window[i];
    assert input[..|before| + i] == before + window[..i];
  }

  lemma TakesThroughNewline(input: Bytes, line: Bytes, window: Bytes, limit: nat)
    requires line <= input && Plain(line) && window <= input[|line|..]
    requires NewlineAt(window) < |window| && |line| + |window| <= limit
    ensures LineLength(input, limit) == |line| + NewlineAt(window) + 1
  {
    hide NewlineAt;
    FirstNewline(input, line, window, NewlineAt(window));
  }

  lemma StopsShort(input: Bytes, line: Bytes, limit: nat)
    requires line <= input && Plain(line) && |line| <= limit && (|line| == limit || line == input)
    ensures LineLength(input, limit) == |line|
  {
    hide NewlineAt;
    NoNewlineYet(input, line);
  }

  lemma NoNewlineYet(input: Bytes, line: Bytes)
    requires line <= input && NL !in line
    ensures |line| <= NewlineAt(input)
    ensures line == input ==> NewlineAt(input) == |input|
  {
    hide NewlineAt;
    assert forall k | 0 <= k < |line| :: input[k] == line[k] && line[k] in line;
  }

  // ── From reads to lines ────────────────────────────────────────────────

  lemma FramesCons(input: Bytes)
    requires input != []
    ensures Frames(input) == [input[..NewlineAt(input)]] + Frames(AfterNewline(input))
  {
    hide Split, NewlineAt;
    var i := NewlineAt(input);
    if i < |input| {
      CutAt(input, i);
      FramesAtNewline(input[..i], input[i + 1..]);
      SplitLine(input[..i]);
    } else {
      assert input[..i] == input;
      SplitLine(input);
      SplitOfNothing();
      assert Frames([]) == [];
    }
  }

  /** The newline that `read_line` leaves on a line makes no difference to what the line is. */
  lemma TrimNewline(text: string)
    ensures Trim(text + "\n") == Trim(text)
  {
    TrimStartNewline(text);
    var s := TrimStart(text);
    assert (s + "\n")[..|s|] == s;
  }

  lemma {:induction false} TrimStartNewline(text: string)
    ensures TrimStart(text + "\n") == if TrimStart(text) == "" then "" else TrimStart(text) + "\n"
  {
    if text == "" {
      assert text + "\n" == "\n" && "\n"[1..] == "";
    } else {
      assert (text + "\n")[1..] == text[1..] + "\n";
      TrimStartNewline(text[1..]);
    }
  }

  lemma DecodeWithNewline(line: Bytes)
    ensures ValidUtf8(line + [NL]) <==> ValidUtf8(line)
    ensures ValidUtf8(line) ==> Decode(line + [NL]) == Some(Decode(line).value + "\n")
  {
    if ValidUtf8(line) {
      var cs := ValidMeansEncoded(line);
      EncodeConcat(cs, "\n");
      NewlineEncoded();
      EncodedDecodes(cs);
      EncodedDecodes(cs + "\n");
    }
    if ValidUtf8(line + [NL]) {
      AsciiIsBoundary(line + [NL], |line|);
      ValidCut(line + [NL], |line|);
      assert (line + [NL])[..|line|] == line;
    }
  }

  lemma NewlineEncoded()
    ensures Encode("\n") == [NL]
  {
    assert Encode("\n") == EncodeChar('\n') + Encode("\n"[1..]);
  }

  /** What one capped read shows of the line at the head of the input. */
  lemma ReadShowsLine(parse: string -> Option<Json>, input: Bytes, read: Bytes)
    requires input != [] && read == input[..LineLength(input, MAX_RPC_LINE)]
    ensures var line := input[..NewlineAt(input)];
      && read != []
      && (|read| == MAX_RPC_LINE && read[|read| - 1] != NL <==> |line| >= MAX_RPC_LINE)
      && (|line| >= MAX_RPC_LINE ==> read == line[..MAX_RPC_LINE])
      && (|line| < MAX_RPC_LINE ==>
            && (read == line || read == line + [NL])
            && AfterNewline(input) == input[|read|..])
  {
    hide NewlineAt;
    var i := NewlineAt(input);
    var line := input[..i];
    if i >= MAX_RPC_LINE {
      assert read == line[..MAX_RPC_LINE];
      assert read[|read| - 1] == line[|read| - 1];
    } else if i < |input| {
      assert read == line + [NL];
    }
  }

  /** Whether or not its newline came along, a line of ordinary size is the same request. */
  lemma ReadKind(parse: string -> Option<Json>, line: Bytes, read: Bytes)
    requires |line| < MAX_RPC_LINE && (read == line || read == line + [NL])
    ensures ValidUtf8(read) <==> LineKind(parse, line) != Undecodable
    ensures ValidUtf8(read) ==> TextKind(parse, Decode(read).value) == LineKind(parse, line)
  {
    hide Decode, Trim;
    DecodeWithNewline(line);
    if ValidUtf8(line) {
      TrimNewline(Decode(line).value);
    }
  }

  /** Draining after a capped read skips the rest of the line. */
  lemma DrainFinishesLine(input: Bytes)
    requires NewlineAt(input) >= MAX_RPC_LINE
    ensures LineLength(input, MAX_RPC_LINE) == MAX_RPC_LINE
    ensures AfterNewline(input[MAX_RPC_LINE..]) == AfterNewline(input)
  {
    hide NewlineAt;
    var i := NewlineAt(input);
    var tail := input[MAX_RPC_LINE..];
    if i < |input| {
      CutAt(input, i);
      assert tail == tail[..i - MAX_RPC_LINE] + [NL] + input[i + 1..];
      assert tail[..i - MAX_RPC_LINE] == input[..i][MAX_RPC_LINE..];
      NewlineAtFirst(tail[..i - MAX_RPC_LINE], input[i + 1..]);
    } else {
      assert input[..i] == input;
      NewlineAtEnd(tail);
    }
  }

  lemma AfterNewlineIsShorter(input: Bytes)
    requires input != []
    ensures |AfterNewline(input)| < |input|
  {
  }

  /** One decoded line: parsed, checked, dispatched, answered. */
  method HandleLine<S>(server: Server<S>, state: S, text: string)
    returns (next: S, answers: seq<Response>, quit: bool)
    ensures (next, answers, quit) == Act(server, state, TextKind(server.parse, text))
  {
    next, answers, quit := state, [], false;
    var trimmed := Trim(text);
    if trimmed == "" {
      return;
    }
    var parsed := server.parse(trimmed);
    if parsed == None {
      answers := [Response(Null, Failure(PARSE_ERROR, "Parse error"))];
      return;
    }
    var req := parsed.value;
    var id := req.Get("id");
    if req.GetStr("jsonrpc") != Some("2.0") {
      answers := [Response(OrNull(id), Failure(INVALID_REQUEST, "Invalid Request: missing jsonrpc:2.0"))];
      return;
    }
    var call := req.GetStr("method");
    if call == None {
      if id != None {
        answers := [Response(id.value, Failure(INVALID_REQUEST, "Invalid Request: missing method"))];
      }
      return;
    }
    var params := match req.Get("params") case Some(p) => p case None => Arr([]);
    var (next', reply, quit') := server.dispatch(state, call.value, params);
    next, quit := next', quit';
    if id != None {
      answers := [Response(id.value, reply)];
    }
  }

  /**
   * `run`: the session over the lines of the input, whatever chunks the
   * stream arrives in.
   */
  method Run<S>(reader: Reader, server: Server<S>, initial: S) returns (out: Session<S>)
    requires reader.Valid()
    modifies reader
    ensures out == Serve(server, initial, Frames(old(reader.rest)))
  {
    hide Serve, Frames, NewlineAt, LineKind, TextKind, AfterNewline, LineLength, Prepend, Decode;
    var state := initial;
    var responses: seq<Response> := [];
    ghost var goal := Serve(server, initial, Frames(reader.rest));
    PrependNothing(goal);
    while true
      invariant reader.Valid()
      invariant goal == Prepend(responses, Serve(server, state, Frames(reader.rest)))
      decreases |reader.rest|
    {
      ghost var input := reader.rest;
      var read := reader.ReadLine(MAX_RPC_LINE);
      CutConcat(read, reader.rest);
      if read == [] {
        NothingRead(server, state, input, responses);
        return Session(state, responses, EndOfInput);
      }
      ghost var line := input[..NewlineAt(input)];
      NextLine(server, state, input, read, responses);
      if !ValidUtf8(read) {
        return Session(state, responses, BadUtf8);
      }
      if |read| == MAX_RPC_LINE && read[|read| - 1] != NL {
        responses := responses + [TOO_LARGE];
        reader.DrainToNewline();
        continue;
      }
      var next, answers, quit := HandleLine(server, state, Decode(read).value);
      state := next;
      responses := responses + answers;
      if quit {
        return Session(state, responses, Quit);
      }
    }
  }

  lemma PrependNothing<S>(s: Session<S>)
    ensures Prepend([], s) == s
  {
    assert [] + s.responses == s.responses;
  }

  /** What one read means for the session: the line at the head of the input, and the input after it. */
  lemma NextLine<S>(server: Server<S>, state: S, input: Bytes, read: Bytes, before: seq<Response>)
    requires input != [] && read == input[..LineLength(input, MAX_RPC_LINE)]
    ensures |read| <= |input| && |AfterNewline(input)| < |input| && read != []
    ensures var whole := Prepend(before, Serve(server, state, Frames(input)));
      var after := Frames(AfterNewline(input));
      if !ValidUtf8(read) then whole == Session(state, before, BadUtf8)
      else if |read| == MAX_RPC_LINE && read[|read| - 1] != NL then
        && AfterNewline(input[|read|..]) == AfterNewline(input)
        && whole == Prepend(
             before + [TOO_LARGE],
             Serve(server, state, after))
      else
        && input[|read|..] == AfterNewline(input)
        && var (next, answers, quit) := Act(server, state, TextKind(server.parse, Decode(read).value));
           whole == if quit then Session(next, before + answers, Quit)
                    else Prepend(before + answers, Serve(server, next, after))
  {
    hide Serve, Frames, NewlineAt, TextKind, AfterNewline, Prepend, Act, Decode;
    var line := input[..NewlineAt(input)];
    ReadShowsLine(server.parse, input, read);
    FramesCons(input);
    AfterNewlineIsShorter(input);
    ServeStep(server, state, line, AfterNewline(input), before);
    if |line| < MAX_RPC_LINE {
      ReadKind(server.parse, line, read);
    } else {
      DrainFinishesLine(input);
      TooLargeAct(server, state);
    }
  }

  lemma TooLargeAct<S>(server: Server<S>, s: S)
    ensures Act(server, s, TooLarge) ==
      (s, [TOO_LARGE], false)
  {
  }

  lemma NothingRead<S>(server: Server<S>, s: S, input: Bytes, before: seq<Response>)
    requires input[..LineLength(input, MAX_RPC_LINE)] == []
    ensures Prepend(before, Serve(server, s, Frames(input))) == Session(s, before, EndOfInput)
  {
    SplitOfNothing();
    assert Frames(input) == [];
    assert before + [] == before;
  }

  /** One line of the session, unfolded. */
  lemma ServeStep<S>(server: Server<S>, s: S, line: Bytes, rest: Bytes, before: seq<Response>)
    ensures var kind := LineKind(server.parse, line);
      var (s', answers, quit) := Act(server, s, kind);
      Prepend(before, Serve(server, s, [line] + Frames(rest))) ==
        if kind == Undecodable then Session(s, before, BadUtf8)
        else if quit then Session(s', before + answers, Quit)
        else Prepend(before + answers, Serve(server, s', Frames(rest)))
  {
    hide Frames, LineKind, Act;
    assert ([line] + Frames(rest))[1..] == Frames(rest);
    var kind := LineKind(server.parse, line);
    var (s', answers, quit) := Act(server, s, kind);
    assert before + [] == before;
    assert before + (answers + Serve(server, s', Frames(rest)).responses)
        == before + answers + Serve(server, s', Frames(rest)).responses;
  }
}

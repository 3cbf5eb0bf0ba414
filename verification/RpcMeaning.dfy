/**
 What a JSON-RPC session does with its requests: which of them reach the dispatcher, with what,
 and what each is answered with. Stated on the parsed requests and the dispatcher alone.
 */
module RpcMeaning {
  import opened Wrappers
  import opened ByteStrings
  import opened Rows
  import opened Text
  import opened Utf8
  import opened RpcProtocol

  // ── Requests ───────────────────────────────────────────────────────────

  /** The JSON value a line of less than 64 MiB holds. */
  function Parsed(parse: string -> Option<Json>, line: Bytes): Option<Json> {
    if |line| >= 0x400_0000 || !ValidUtf8(line) then None
    else
      var trimmed := Trim(Decode(line).value);
      if trimmed == "" then None else parse(trimmed)
  }

  predicate ClaimsVersion2(req: Json) {
    req.Obj? && "jsonrpc" in req.fields && req.fields["jsonrpc"] == Str("2.0")
  }

  predicate HasMethod(req: Json) {
    req.Obj? && "method" in req.fields && req.fields["method"].Str?
  }

  predicate HasId(req: Json) {
    req.Obj? && "id" in req.fields
  }

  /** What is read of a line, at most 64 MiB, is UTF-8. */
  predicate IsReadable(line: Bytes) {
    ValidUtf8(if |line| >= 0x400_0000 then line[..0x400_0000] else line)
  }

  /** A request that reaches the dispatcher. */
  predicate IsCall(req: Json) {
    ClaimsVersion2(req) && HasMethod(req)
  }

  /** What the dispatcher makes of a call: the method's name and the parameters, or none given. */
  function Answered<S>(server: Server<S>, s: S, req: Json): (S, Reply, bool)
    requires IsCall(req)
  {
    server.dispatch(s, req.fields["method"].s, if "params" in req.fields then req.fields["params"] else Arr([]))
  }

  predicate IsCallLine(parse: string -> Option<Json>, line: Bytes) {
    var req := Parsed(parse, line);
    req.Some? && IsCall(req.value)
  }

  /** The editor after the calls among these lines, dispatched one after the other. */
  function StateAfter<S>(server: Server<S>, s: S, lines: seq<Bytes>): S {
    if lines == [] then s
    else if IsCallLine(server.parse, lines[0])
    then StateAfter(server, Answered(server, s, Parsed(server.parse, lines[0]).value).0, lines[1..])
    else StateAfter(server, s, lines[1..])
  }

  /** Line `i` asks to quit: its dispatch, in the state the lines before it have left, says so. */
  predicate AsksToQuit<S>(server: Server<S>, s: S, lines: seq<Bytes>, i: nat)
    requires i < |lines|
  {
    && IsCallLine(server.parse, lines[i])
    && Answered(server, StateAfter(server, s, lines[..i]), Parsed(server.parse, lines[i]).value).2
  }

  // ── One line ───────────────────────────────────────────────────────────

  lemma CallKind<S>(server: Server<S>, s: S, line: Bytes)
    requires LineKind(server.parse, line) != Undecodable
    ensures var (s', answers, quit) := Act(server, s, LineKind(server.parse, line));
      if IsCallLine(server.parse, line) then
        var req := Parsed(server.parse, line).value;
        && (s', quit) == (Answered(server, s, req).0, Answered(server, s, req).2)
        && answers == if HasId(req) then [Response(req.fields["id"], Answered(server, s, req).1)] else []
      else (s', quit) == (s, false)
  {
    hide Decode, Trim;
  }

  /** The answer to a line that is not passed on. */
  function Refusal(parse: string -> Option<Json>, line: Bytes): seq<Response> {
    if |line| >= 0x400_0000 then [Response(Null, Failure(-32700, "Parse error: request too large"))]
    else if !ValidUtf8(line) || Trim(Decode(line).value) == "" then []
    else
      match Parsed(parse, line)
      case None => [Response(Null, Failure(-32700, "Parse error"))]
      case Some(req) =>
        if !ClaimsVersion2(req) then
          [Response(if HasId(req) then req.fields["id"] else Null, Failure(-32600, "Invalid Request: missing jsonrpc:2.0"))]
        else if HasId(req) then [Response(req.fields["id"], Failure(-32600, "Invalid Request: missing method"))]
        else []
  }

  /** The answer to a line: a call's own reply under its own id, or why it is not passed on. */
  function AnswerTo<S>(server: Server<S>, s: S, line: Bytes): seq<Response> {
    if IsCallLine(server.parse, line) then
      var req := Parsed(server.parse, line).value;
      if HasId(req) then [Response(req.fields["id"], Answered(server, s, req).1)] else []
    else Refusal(server.parse, line)
  }

  lemma RefusedKind<S>(server: Server<S>, s: S, line: Bytes)
    requires LineKind(server.parse, line) != Undecodable && !IsCallLine(server.parse, line)
    ensures Act(server, s, LineKind(server.parse, line)).1 == Refusal(server.parse, line)
  {
    hide Decode, Trim;
  }

  /** One line taken up, whatever it holds. */
  lemma OneLine<S>(server: Server<S>, s: S, line: Bytes)
    requires LineKind(server.parse, line) != Undecodable
    ensures var (s', answers, quit) := Act(server, s, LineKind(server.parse, line));
      && s' == StateAfter(server, s, [line]) && answers == AnswerTo(server, s, line)
      && (quit <==> AsksToQuit(server, s, [line], 0))
  {
    hide LineKind, Act, Parsed, IsCall;
    CallKind(server, s, line);
    if !IsCallLine(server.parse, line) {
      RefusedKind(server, s, line);
    }
    assert [line][1..] == [] && [line][..0] == [];
  }

  // ── A session ──────────────────────────────────────────────────────────

  lemma {:induction false} StateConcat<S>(server: Server<S>, s: S, a: seq<Bytes>, b: seq<Bytes>)
    ensures StateAfter(server, s, a + b) == StateAfter(server, StateAfter(server, s, a), b)
  {
    hide IsCallLine, Answered, Parsed, IsCall;
    if a == [] {
      assert a + b == b;
    } else {
      assert (a + b)[0] == a[0] && (a + b)[1..] == a[1..] + b;
      assert StateAfter(server, s, [a[0]] + []) == StateAfter(server, s, [a[0]]);
      StateConcat(server, HeadState(server, s, a), a[1..], b);
    }
  }

  function HeadState<S>(server: Server<S>, s: S, lines: seq<Bytes>): S
    requires lines != []
  {
    if IsCallLine(server.parse, lines[0]) then Answered(server, s, Parsed(server.parse, lines[0]).value).0 else s
  }

  /** Whether line `i + 1` asks to quit, seen from after the first line. */
  lemma AsksLater<S>(server: Server<S>, s: S, lines: seq<Bytes>, i: nat)
    requires i + 1 < |lines|
    ensures AsksToQuit(server, s, lines, i + 1) <==>
      AsksToQuit(server, StateAfter(server, s, [lines[0]]), lines[1..], i)
    ensures AsksToQuit(server, s, lines, 0) <==> AsksToQuit(server, s, [lines[0]], 0)
  {
    hide IsCallLine, Answered, Parsed, IsCall, StateAfter;
    assert lines[..i + 1] == [lines[0]] + lines[1..][..i];
    StateConcat(server, s, [lines[0]], lines[1..][..i]);
    assert lines[..0] == [lines[0]][..0];
  }

  /**
   The editor at the end of a session has seen exactly the calls among the lines taken up, each
   with its own method and parameters, in their order; and the session quits exactly at the first
   call whose dispatch asks to.
   */
  lemma {:induction false} CallsAreDispatchedInOrder<S>(server: Server<S>, s: S, lines: seq<Bytes>)
    ensures var out, k := Serve(server, s, lines), Handled(server, s, lines);
      && k <= |lines|
      && out.state == StateAfter(server, s, lines[..k])
      && (out.ending == Quit <==> k > 0 && AsksToQuit(server, s, lines, k - 1))
      && (forall i :: 0 <= i < k - 1 ==> !AsksToQuit(server, s, lines, i))
      && (forall i :: 0 <= i < k ==> IsReadable(lines[i]))
      && (out.ending != Quit && k < |lines| ==> !IsReadable(lines[k]))
  {
    hide LineKind, Act, Answered, Parsed, IsCall, IsCallLine, AsksToQuit, StateAfter, IsReadable;
    NoLines(server, s);
    if lines != [] {
      ReadableKind(server.parse, lines[0]);
    }
    if lines != [] && LineKind(server.parse, lines[0]) != Undecodable {
      OneLine(server, s, lines[0]);
      var (s', answers, quit) := Act(server, s, LineKind(server.parse, lines[0]));
      FirstAsks(server, s, lines);
      if quit {
        assert lines[..1] == [lines[0]];
      } else {
        CallsAreDispatchedInOrder(server, s', lines[1..]);
        var k := Handled(server, s', lines[1..]);
        assert lines[..k + 1] == [lines[0]] + lines[1..][..k];
        StateConcat(server, s, [lines[0]], lines[1..][..k]);
        forall i | 0 < i <= k ensures AsksToQuit(server, s, lines, i) <==> AsksToQuit(server, s', lines[1..], i - 1) {
          AsksLater(server, s, lines, i - 1);
        }
      }
    } else {
      assert lines[..0] == [];
    }
  }

  lemma ReadableKind(parse: string -> Option<Json>, line: Bytes)
    ensures IsReadable(line) <==> LineKind(parse, line) != Undecodable
  {
    hide Decode, TextKind;
    TextIsDecodable(parse, line);
  }

  lemma TextIsDecodable(parse: string -> Option<Json>, line: Bytes)
    ensures forall text :: TextKind(parse, text) != Undecodable
  {
  }

  lemma NoLines<S>(server: Server<S>, s: S)
    ensures StateAfter(server, s, []) == s
  {
  }

  lemma FirstAsks<S>(server: Server<S>, s: S, lines: seq<Bytes>)
    requires lines != []
    ensures AsksToQuit(server, s, lines, 0) <==> AsksToQuit(server, s, [lines[0]], 0)
  {
    assert lines[..0] == [lines[0]][..0];
  }

  /**
   Every line taken up is answered in its place: what the session says up to and after line `i`
   has the answer to that line in between, a call's answer being the reply of its own dispatch in
   the state the calls before it have left.
   */
  lemma {:induction false} AnswersAreTheReplies<S>(server: Server<S>, s: S, lines: seq<Bytes>, i: nat)
    returns (before: seq<Response>, after: seq<Response>)
    requires i < Handled(server, s, lines) <= |lines|
    ensures Serve(server, s, lines).responses ==
      before + AnswerTo(server, StateAfter(server, s, lines[..i]), lines[i]) + after
    ensures Ids(before) == ExpectedIds(server.parse, lines[..i])
  {
    hide LineKind, Act, Answered, Parsed, IsCall, IsCallLine, AnswerTo, StateAfter, AnswerIds;
    var (s', answers, quit) := Act(server, s, LineKind(server.parse, lines[0]));
    OneLine(server, s, lines[0]);
    NoLines(server, s);
    if i == 0 {
      assert lines[..0] == [];
      before, after := [], if quit then [] else Serve(server, s', lines[1..]).responses;
    } else {
      before, after := AnswersAreTheReplies(server, s', lines[1..], i - 1);
      assert lines[..i] == [lines[0]] + lines[1..][..i - 1];
      assert lines[..i][1..] == lines[1..][..i - 1];
      StateConcat(server, s, [lines[0]], lines[1..][..i - 1]);
      ActAnswers(server, s, LineKind(server.parse, lines[0]));
      IdsConcat(answers, before);
      before := answers + before;
    }
  }
}

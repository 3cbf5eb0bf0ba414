/** JSON-RPC 2.0 over newline-framed text: what each line is answered with, and what a whole stream is. */
module RpcProtocol {
  import opened Wrappers
  import opened ByteStrings
  import opened Rows
  import opened Text
  import opened Utf8

  // ── Messages ───────────────────────────────────────────────────────────

  datatype Json = Null | Bool(b: bool) | Number(n: real) | Str(s: string) | Arr(items: seq<Json>) | Obj(fields: map<string, Json>)
  {
    function Get(key: string): Option<Json> {
      if Obj? && key in fields then Some(fields[key]) else None
    }

    function GetStr(key: string): Option<string> {
      match Get(key)
      case Some(Str(s)) => Some(s)
      case _ => None
    }
  }

  const PARSE_ERROR := -32700
  const INVALID_REQUEST := -32600

  datatype Reply = Success(result: Json) | Failure(code: int, message: string)

  datatype Response = Response(id: Json, reply: Reply)

  /** The longest accepted line, newline included. */
  const MAX_RPC_LINE: nat := 64 * 1024 * 1024

  /**
   * What the loop needs of the outside: a JSON parser, and a dispatcher that
   * changes the editor, replies, and may ask to quit.
   */
  datatype Server<!S> = Server(parse: string -> Option<Json>, dispatch: (S, string, Json) -> (S, Reply, bool))

  // ── One line ───────────────────────────────────────────────────────────

  /** What a line turns out to be, before anything is dispatched. */
  datatype Kind =
    | Undecodable
    | TooLarge
    | Blank
    | Unparsable
    | WrongVersion(claimed: Json)
    | NoMethod(id: Option<Json>)
    | Call(id: Option<Json>, call: string, params: Json)

  function OrNull(id: Option<Json>): Json {
    match id case Some(v) => v case None => Null
  }

  function ParsedKind(req: Json): Kind {
    if req.GetStr("jsonrpc") != Some("2.0") then WrongVersion(OrNull(req.Get("id"))) else
      match req.GetStr("method")
      case None => NoMethod(req.Get("id"))
      case Some(m) => Call(req.Get("id"), m, match req.Get("params") case Some(p) => p case None => Arr([]))
  }

  function TextKind(parse: string -> Option<Json>, text: string): Kind {
    var trimmed := Trim(text);
    if trimmed == "" then Blank else
      match parse(trimmed)
      case None => Unparsable
      case Some(req) => ParsedKind(req)
  }

  /** A line as it stands between newlines; of an oversized one, only the first bytes are looked at. */
  function LineKind(parse: string -> Option<Json>, line: Bytes): Kind {
    if |line| >= MAX_RPC_LINE then
      if ValidUtf8(line[..MAX_RPC_LINE]) then TooLarge else Undecodable
    else
      match Decode(line)
      case None => Undecodable
      case Some(text) => TextKind(parse, text)
  }

  const TOO_LARGE := Response(Null, Failure(PARSE_ERROR, "Parse error: request too large"))

  /** The line's own effect: new editor state, answers, and whether to stop. */
  function Act<S>(server: Server<S>, s: S, kind: Kind): (S, seq<Response>, bool) {
    match kind
    case Undecodable | Blank => (s, [], false)
    case TooLarge => (s, [TOO_LARGE], false)
    case Unparsable => (s, [Response(Null, Failure(PARSE_ERROR, "Parse error"))], false)
    case WrongVersion(id) =>
      (s, [Response(id, Failure(INVALID_REQUEST, "Invalid Request: missing jsonrpc:2.0"))], false)
    case NoMethod(None) => (s, [], false)
    case NoMethod(Some(id)) => (s, [Response(id, Failure(INVALID_REQUEST, "Invalid Request: missing method"))], false)
    case Call(id, m, params) =>
      var (s', reply, quit) := server.dispatch(s, m, params);
      (s', match id case Some(v) => [Response(v, reply)] case None => [], quit)
  }

  // ── A stream of lines ──────────────────────────────────────────────────

  datatype Ending = EndOfInput | Quit | BadUtf8

  datatype Session<S> = Session(state: S, responses: seq<Response>, ending: Ending)

  function Prepend<S>(responses: seq<Response>, rest: Session<S>): Session<S> {
    rest.(responses := responses + rest.responses)
  }

  /** The lines of the input; what follows the last newline is a line only when it is not empty. */
  function Frames(input: Bytes): seq<Bytes> {
    var rows := Split(input);
    SplitSize(input);
    if rows[|rows| - 1] == [] then rows[..|rows| - 1] else rows
  }

  /** The whole session over a list of lines. */
  function Serve<S>(server: Server<S>, s: S, lines: seq<Bytes>): Session<S> {
    if lines == [] then Session(s, [], EndOfInput) else
      var kind := LineKind(server.parse, lines[0]);
      if kind == Undecodable then Session(s, [], BadUtf8) else
        var (s', answers, quit) := Act(server, s, kind);
        if quit then Session(s', answers, Quit) else Prepend(answers, Serve(server, s', lines[1..]))
  }

  /** How many lines the session takes up before it ends. */
  function Handled<S>(server: Server<S>, s: S, lines: seq<Bytes>): nat {
    if lines == [] || LineKind(server.parse, lines[0]) == Undecodable then 0 else
      var (s', _, quit) := Act(server, s, LineKind(server.parse, lines[0]));
      if quit then 1 else 1 + Handled(server, s', lines[1..])
  }

  // ── Answers ────────────────────────────────────────────────────────────

  /** The ids a line must be answered with: none or one, whatever the dispatcher does. */
  function AnswerIds(kind: Kind): seq<Json> {
    match kind
    case TooLarge | Unparsable => [Null]
    case WrongVersion(id) => [id]
    case NoMethod(Some(id)) => [id]
    case Call(Some(id), _, _) => [id]
    case _ => []
  }

  function ExpectedIds(parse: string -> Option<Json>, lines: seq<Bytes>): seq<Json> {
    if lines == [] then [] else AnswerIds(LineKind(parse, lines[0])) + ExpectedIds(parse, lines[1..])
  }

  function Ids(responses: seq<Response>): seq<Json> {
    if responses == [] then [] else [responses[0].id] + Ids(responses[1..])
  }

  lemma {:induction false} IdsConcat(a: seq<Response>, b: seq<Response>)
    ensures Ids(a + b) == Ids(a) + Ids(b)
  {
    if a == [] {
      assert a + b == b;
    } else {
      assert (a + b)[1..] == a[1..] + b;
      IdsConcat(a[1..], b);
    }
  }

  lemma ActAnswers<S>(server: Server<S>, s: S, kind: Kind)
    ensures Ids(Act(server, s, kind).1) == AnswerIds(kind)
  {
  }

  lemma QuitsOnCall<S>(server: Server<S>, s: S, kind: Kind)
    ensures Act(server, s, kind).2 ==> kind.Call?
  {
  }

  lemma IdsOfNothing()
    ensures Ids([]) == []
  {
  }

  /**
   * Every line that is taken up is answered in its place with its own id and
   * no other line is answered; how many lines are taken up depends only on
   * the end of the input, a quit, and the first line that is not UTF-8.
   */
  lemma {:induction false} OneAnswerEach<S>(server: Server<S>, s: S, lines: seq<Bytes>)
    ensures var out, k := Serve(server, s, lines), Handled(server, s, lines);
      && k <= |lines|
      && Ids(out.responses) == ExpectedIds(server.parse, lines[..k])
      && (out.ending == EndOfInput ==> k == |lines|)
      && (out.ending == BadUtf8 <==> k < |lines| && LineKind(server.parse, lines[k]) == Undecodable && out.ending != Quit)
      && (out.ending == Quit ==> k > 0 && LineKind(server.parse, lines[k - 1]).Call?)
  {
    hide LineKind, Act, Ids, AnswerIds;
    IdsOfNothing();
    if lines != [] && LineKind(server.parse, lines[0]) != Undecodable {
      var kind := LineKind(server.parse, lines[0]);
      ActAnswers(server, s, kind);
      QuitsOnCall(server, s, kind);
      var (s', answers, quit) := Act(server, s, kind);
      if quit {
        assert lines[..1][1..] == [];
      } else {
        OneAnswerEach(server, s', lines[1..]);
        var k := Handled(server, s', lines[1..]);
        assert lines[..k + 1][1..] == lines[1..][..k];
        IdsConcat(answers, Serve(server, s', lines[1..]).responses);
      }
    }
  }

  lemma ParsedAnswers(req: Json)
    ensures AnswerIds(ParsedKind(req)) ==
      if req.GetStr("jsonrpc") == Some("2.0") && req.Get("id") == None then [] else [OrNull(req.Get("id"))]
  {
  }

  /**
   * Which lines are answered, and with which id: a blank line and a version
   * 2.0 object without an id are not, with a method or without; every other
   * line is, with its id where the request has one and null where none can be
   * read.
   */
  lemma AnsweredLines(parse: string -> Option<Json>, line: Bytes)
    requires |line| < MAX_RPC_LINE && ValidUtf8(line)
    ensures var trimmed := Trim(Decode(line).value);
      AnswerIds(LineKind(parse, line)) ==
        if trimmed == "" then [] else
          match parse(trimmed)
          case None => [Null]
          case Some(req) =>
            if req.GetStr("jsonrpc") == Some("2.0") && req.Get("id") == None then [] else [OrNull(req.Get("id"))]
  {
    hide Decode, Trim, ParsedKind, AnswerIds;
    var trimmed := Trim(Decode(line).value);
    if trimmed != "" && parse(trimmed).Some? {
      ParsedAnswers(parse(trimmed).value);
    }
    FixedAnswers();
  }

  lemma FixedAnswers()
    ensures AnswerIds(Blank) == [] && AnswerIds(Unparsable) == [Null]
  {
  }

  /** Section 5 of JSON-RPC 2.0 asks for an invalid-request error here; the loop says nothing. */
  lemma NoIdNoMethodNoAnswer<S>(server: Server<S>, s: S, line: Bytes)
    requires |line| < MAX_RPC_LINE && ValidUtf8(line)
    requires var trimmed := Trim(Decode(line).value);
      trimmed != "" && server.parse(trimmed) == Some(Obj(map["jsonrpc" := Str("2.0")]))
    ensures Serve(server, s, [line]) == Session(s, [], EndOfInput)
  {
    var req := Obj(map["jsonrpc" := Str("2.0")]);
    assert req.GetStr("jsonrpc") == Some("2.0") && req.Get("id") == None && req.GetStr("method") == None;
    assert [line][1..] == [];
  }

  // ── Streams in pieces ──────────────────────────────────────────────────

  /** A stream served in two pieces, when the first piece does not end the session. */
  lemma {:induction false} ServeConcat<S>(server: Server<S>, s: S, a: seq<Bytes>, b: seq<Bytes>)
    ensures var first := Serve(server, s, a);
      Serve(server, s, a + b) ==
        if first.ending == EndOfInput then Prepend(first.responses, Serve(server, first.state, b)) else first
  {
    if a == [] {
      assert a + b == b;
    } else {
      assert (a + b)[1..] == a[1..] + b;
      var kind := LineKind(server.parse, a[0]);
      if kind != Undecodable {
        var (s', answers, quit) := Act(server, s, kind);
        ServeConcat(server, s', a[1..], b);
        var rest := Serve(server, s', a[1..]);
        assert answers + (rest.responses + Serve(server, rest.state, b).responses)
            == answers + rest.responses + Serve(server, rest.state, b).responses;
      }
    }
  }

  /** A newline ends a line for good: lines before it and lines after it do not mix. */
  lemma FramesAtNewline(a: Bytes, b: Bytes)
    ensures Frames(a + [NL] + b) == Split(a) + Frames(b)
    ensures Frames(a + [NL]) == Split(a)
  {
    hide Split;
    SplitAtNewline(a, b);
    SplitAtNewline(a, []);
    SplitSize(a);
    SplitSize(b);
    SplitOfNothing();
    assert a + [NL] + [] == a + [NL];
    var rows := Split(a) + Split(b);
    if rows[|rows| - 1] == [] {
      assert rows[..|rows| - 1] == Split(a) + Split(b)[..|Split(b)| - 1];
    }
  }

  lemma SplitOfNothing()
    ensures Split([]) == [[]]
  {
  }

  /** One oversized line costs one error: what comes after its newline is served as if it had not been there. */
  lemma OversizedLineIsSkipped<S>(server: Server<S>, s: S, big: Bytes, rest: Bytes)
    requires NL !in big && |big| >= MAX_RPC_LINE && ValidUtf8(big[..MAX_RPC_LINE])
    ensures Serve(server, s, Frames(big + [NL] + rest)) == Prepend([TOO_LARGE], Serve(server, s, Frames(rest)))
    ensures Serve(server, s, Frames(big)) == Session(s, [TOO_LARGE], EndOfInput)
  {
    hide Split, Frames, ValidUtf8;
    FramesAtNewline(big, rest);
    SplitLine(big);
    UnendedFrame(big);
    assert ([big] + Frames(rest))[1..] == Frames(rest);
    assert [big][1..] == [];
  }

  lemma UnendedFrame(line: Bytes)
    requires NL !in line && line != []
    ensures Frames(line) == [line]
  {
    SplitLine(line);
  }

  /** An oversized line whose readable part does not decode ends the session without an answer. */
  lemma OversizedLineEndsSession<S>(server: Server<S>, s: S, big: Bytes, rest: Bytes)
    requires NL !in big && |big| >= MAX_RPC_LINE && !ValidUtf8(big[..MAX_RPC_LINE])
    ensures Serve(server, s, Frames(big + [NL] + rest)) == Session(s, [], BadUtf8)
    ensures Serve(server, s, Frames(big)) == Session(s, [], BadUtf8)
  {
    hide Split, Frames, ValidUtf8;
    FramesAtNewline(big, rest);
    SplitLine(big);
    UnendedFrame(big);
  }

  /**
   * An oversized line of proper text, with a newline after it or the end of
   * the input, is answered and skipped exactly when the cap falls between two
   * of its characters; inside a character it ends the session unanswered.
   */
  lemma CapInsideCharacter<S>(server: Server<S>, s: S, big: Bytes, rest: Bytes)
    requires NL !in big && |big| >= MAX_RPC_LINE && ValidUtf8(big)
    ensures Serve(server, s, Frames(big + [NL] + rest)) ==
      if IsBoundary(big, MAX_RPC_LINE) then Prepend([TOO_LARGE], Serve(server, s, Frames(rest)))
      else Session(s, [], BadUtf8)
    ensures Serve(server, s, Frames(big)) ==
      if IsBoundary(big, MAX_RPC_LINE) then Session(s, [TOO_LARGE], EndOfInput) else Session(s, [], BadUtf8)
  {
    hide Split, Frames, ValidUtf8, IsBoundary, Serve;
    ValidPrefixExactlyAtBoundary(big, MAX_RPC_LINE);
    if IsBoundary(big, MAX_RPC_LINE) {
      OversizedLineIsSkipped(server, s, big, rest);
    } else {
      OversizedLineEndsSession(server, s, big, rest);
    }
  }
}

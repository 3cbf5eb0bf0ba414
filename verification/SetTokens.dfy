/** The `:set` tokens that belong to the host, taken out of a line before the engine sees it. */
module SetTokens {
  import opened Wrappers
  import opened EndOfLine
  import opened Slices
  import opened Text
  import opened Words

  datatype EndOfLineToken = Set(value: bool) | Toggle | Query

  function ParseEndOfLineToken(token: string): Option<EndOfLineToken> {
    if token == "endofline" || token == "eol" then Some(Set(true))
    else if token == "noendofline" || token == "noeol" then Some(Set(false))
    else if token == "endofline!" || token == "eol!" then Some(Toggle)
    else if token == "endofline?" || token == "eol?" then Some(Query)
    else None
  }

  predicate IsMouse(token: string) {
    token == "mouse" || token == "nomouse" || token == "mouse!" || token == "mouse?" || StartsWith(token, "mouse=")
  }

  predicate IsExplorerOpen(token: string) {
    token == "explorer.open?" || StartsWith(token, "explorer.open=")
  }

  predicate IsEol(token: string) {
    ParseEndOfLineToken(token).Some?
  }

  /** A token of the engine: none of the host's families. */
  predicate IsEngine(token: string) {
    !IsMouse(token) && !IsExplorerOpen(token) && !IsEol(token)
  }

  lemma EolTokenShape(token: string)
    requires IsEol(token)
    ensures |token| >= 3 && (token[0] == 'e' || token[0] == 'n') && (token[1] == 'n' || token[1] == 'o')
  {
  }

  /** The families do not overlap, so the order in which they are matched does not matter. */
  lemma FamiliesAreDisjoint(token: string)
    ensures IsEol(token) ==> !IsMouse(token) && !IsExplorerOpen(token)
    ensures IsMouse(token) ==> !IsExplorerOpen(token)
  {
    assert StartsWith(token, "mouse=") ==> token[0] == 'm';
    assert StartsWith(token, "explorer.open=") ==> token[0] == 'e' && token[1] == 'x';
    if IsEol(token) {
      EolTokenShape(token);
    }
  }

  // ── What a token list means ────────────────────────────────────────────

  function EngineTokens(tokens: seq<string>): seq<string> {
    if tokens == [] then [] else (if IsEngine(tokens[0]) then [tokens[0]] else []) + EngineTokens(tokens[1..])
  }

  /** `endofline` after the tokens, one at a time from the left. */
  function EolAfter(tokens: seq<string>, on: bool): bool {
    if tokens == [] then on else
      EolAfter(tokens[1..],
        match ParseEndOfLineToken(tokens[0])
        case Some(Set(v)) => v
        case Some(Toggle) => !on
        case _ => on)
  }

  function EolReplies(tokens: seq<string>, on: bool): seq<string> {
    if tokens == [] then [] else
      match ParseEndOfLineToken(tokens[0])
      case Some(Set(v)) => EolReplies(tokens[1..], v)
      case Some(Toggle) => EolReplies(tokens[1..], !on)
      case Some(Query) => [if on then "endofline=on" else "endofline=off"] + EolReplies(tokens[1..], on)
      case None => EolReplies(tokens[1..], on)
  }

  function NotEol(tokens: seq<string>): seq<string> {
    if tokens == [] then [] else (if IsEol(tokens[0]) then [] else [tokens[0]]) + NotEol(tokens[1..])
  }

  function NotMouse(tokens: seq<string>): seq<string> {
    if tokens == [] then [] else
      (if IsMouse(tokens[0]) || IsExplorerOpen(tokens[0]) then [] else [tokens[0]]) + NotMouse(tokens[1..])
  }

  /** The tokens work from the left, whatever stands before them. */
  lemma {:induction false} EolAfterConcat(a: seq<string>, b: seq<string>, on: bool)
    ensures EolAfter(a + b, on) == EolAfter(b, EolAfter(a, on))
    ensures EolReplies(a + b, on) == EolReplies(a, on) + EolReplies(b, EolAfter(a, on))
  {
    if a == [] {
      assert a + b == b;
    } else {
      assert (a + b)[1..] == a[1..] + b && (a + b)[0] == a[0];
      var on' := match ParseEndOfLineToken(a[0]) case Some(Set(v)) => v case Some(Toggle) => !on case _ => on;
      EolAfterConcat(a[1..], b, on');
    }
  }

  lemma NotEolCons(t: string, rest: seq<string>)
    ensures NotEol([t] + rest) == (if IsEol(t) then [] else [t]) + NotEol(rest)
  {
    assert ([t] + rest)[1..] == rest;
  }

  lemma NotMouseCons(t: string, rest: seq<string>)
    ensures NotMouse([t] + rest) == (if IsMouse(t) || IsExplorerOpen(t) then [] else [t]) + NotMouse(rest)
  {
    assert ([t] + rest)[1..] == rest;
  }

  lemma {:induction false} NotEolConcat(a: seq<string>, b: seq<string>)
    ensures NotEol(a + b) == NotEol(a) + NotEol(b)
  {
    if a == [] {
      assert a + b == b;
    } else {
      hide IsEol, NotEol;
      Cons(a);
      Assoc([a[0]], a[1..], b, []);
      NotEolCons(a[0], a[1..]);
      NotEolCons(a[0], a[1..] + b);
      NotEolConcat(a[1..], b);
    }
  }

  lemma {:induction false} NotMouseConcat(a: seq<string>, b: seq<string>)
    ensures NotMouse(a + b) == NotMouse(a) + NotMouse(b)
  {
    if a == [] {
      assert a + b == b;
    } else {
      hide IsMouse, IsExplorerOpen, NotMouse;
      Cons(a);
      Assoc([a[0]], a[1..], b, []);
      NotMouseCons(a[0], a[1..]);
      NotMouseCons(a[0], a[1..] + b);
      NotMouseConcat(a[1..], b);
    }
  }

  lemma OneToken(t: string)
    ensures NotEol([t]) == (if IsEol(t) then [] else [t])
    ensures NotMouse([t]) == (if IsMouse(t) || IsExplorerOpen(t) then [] else [t])
    ensures forall on ::
      (EolAfter([t], on) == match ParseEndOfLineToken(t) case Some(Set(v)) => v case Some(Toggle) => !on case _ => on)
    ensures forall on ::
      (EolReplies([t], on) ==
       if ParseEndOfLineToken(t) == Some(Query) then [if on then "endofline=on" else "endofline=off"] else [])
  {
    assert [t][1..] == [];
    assert forall on :: EolAfter([t][1..], on) == on && EolReplies([t][1..], on) == [];
  }

  /** Two passes, one per family group, are one pass over the whole list. */
  lemma {:induction false} TwoPassesAreOne(tokens: seq<string>, on: bool)
    ensures NotEol(NotMouse(tokens)) == EngineTokens(tokens)
    ensures EolAfter(NotMouse(tokens), on) == EolAfter(tokens, on)
    ensures EolReplies(NotMouse(tokens), on) == EolReplies(tokens, on)
    ensures |NotEol(tokens)| <= |tokens| && |NotMouse(tokens)| <= |tokens|
  {
    if tokens != [] {
      var t := tokens[0];
      FamiliesAreDisjoint(t);
      var on' := match ParseEndOfLineToken(t) case Some(Set(v)) => v case Some(Toggle) => !on case _ => on;
      TwoPassesAreOne(tokens[1..], on');
      var rest := NotMouse(tokens[1..]);
      assert ([t] + rest)[1..] == rest && [] + rest == rest;
    }
  }

  // ── The words themselves ───────────────────────────────────────────────

  predicate TurnsOn(t: string) { t == "endofline" || t == "eol" }
  predicate TurnsOff(t: string) { t == "noendofline" || t == "noeol" }
  predicate TurnsOver(t: string) { t == "endofline!" || t == "eol!" }
  predicate Asks(t: string) { t == "endofline?" || t == "eol?" }

  /** Which tokens the host takes for itself. */
  lemma HostTokens(t: string)
    ensures !IsEngine(t) <==>
      || TurnsOn(t) || TurnsOff(t) || TurnsOver(t) || Asks(t)
      || t in {"mouse", "nomouse", "mouse!", "mouse?", "explorer.open?"} || "mouse=" <= t || "explorer.open=" <= t
  {
  }

  function Overs(tokens: seq<string>): nat {
    if tokens == [] then 0 else (if TurnsOver(tokens[0]) then 1 else 0) + Overs(tokens[1..])
  }

  predicate NoneDecides(tokens: seq<string>) {
    forall i :: 0 <= i < |tokens| ==> !TurnsOn(tokens[i]) && !TurnsOff(tokens[i])
  }

  /** One token does to the state what its word says. */
  lemma OneWord(t: string, rest: seq<string>, on: bool)
    ensures EolAfter([t] + rest, on) ==
      EolAfter(rest, if TurnsOn(t) then true else if TurnsOff(t) then false else if TurnsOver(t) then !on else on)
    ensures EolReplies([t] + rest, on) ==
      (if Asks(t) then ["endofline=" + if on then "on" else "off"] else [])
      + EolReplies(rest, if TurnsOn(t) then true else if TurnsOff(t) then false else if TurnsOver(t) then !on else on)
  {
    assert ([t] + rest)[1..] == rest;
    assert "endofline=" + "on" == "endofline=on" && "endofline=" + "off" == "endofline=off";
    assert [] + EolReplies(rest, true) == EolReplies(rest, true) && [] + EolReplies(rest, false) == EolReplies(rest, false);
  }

  /** Without a word that decides it, `endofline` is turned over as often as is said. */
  lemma {:induction false} OnlyTurnedOver(tokens: seq<string>, on: bool)
    requires NoneDecides(tokens)
    ensures EolAfter(tokens, on) == (if Overs(tokens) % 2 == 0 then on else !on)
  {
    hide TurnsOver;
    if tokens != [] {
      var t := tokens[0];
      assert tokens == [t] + tokens[1..];
      OneWord(t, tokens[1..], on);
      assert !TurnsOn(t) && !TurnsOff(t);
      OnlyTurnedOver(tokens[1..], if TurnsOver(t) then !on else on);
    }
  }

  /**
   The last word that decides `endofline` does, whatever came before it: it is on after `eol` and
   off after `noeol`, turned over as often as is said after that.
   */
  lemma LastWordDecides(before: seq<string>, t: string, after: seq<string>, on: bool)
    requires (TurnsOn(t) || TurnsOff(t)) && NoneDecides(after)
    ensures EolAfter(before + [t] + after, on) <==> (TurnsOn(t) <==> Overs(after) % 2 == 0)
  {
    hide EolAfter, Overs;
    assert before + [t] + after == before + ([t] + after);
    EolAfterConcat(before, [t] + after, on);
    OneWord(t, after, EolAfter(before, on));
    OnlyTurnedOver(after, TurnsOn(t));
    OnOrOff(t);
  }

  lemma OnOrOff(t: string)
    ensures TurnsOff(t) ==> !TurnsOn(t)
  {
  }

  /** A query is replied to in its turn, with the value at that point. */
  lemma QueryTellsTheValue(before: seq<string>, t: string, after: seq<string>, on: bool)
    requires Asks(t)
    ensures var value := EolAfter(before, on);
      EolReplies(before + [t] + after, on) ==
        EolReplies(before, on) + ["endofline=" + if value then "on" else "off"] + EolReplies(after, value)
  {
    hide EolAfter, EolReplies;
    assert before + [t] + after == before + ([t] + after);
    EolAfterConcat(before, [t] + after, on);
    OneWord(t, after, EolAfter(before, on));
    AsksOnly(t);
  }

  lemma AsksOnly(t: string)
    requires Asks(t)
    ensures !TurnsOn(t) && !TurnsOff(t) && !TurnsOver(t)
  {
  }

  // ── The interception ───────────────────────────────────────────────────

  datatype SetLine = PassThrough | Swallow | Rebuild(line: string)

  /** What becomes of a token list: it depends on which kinds of token it holds. */
  function Intercepted(tokens: seq<string>): SetLine {
    if EngineTokens(tokens) == tokens then PassThrough
    else if EngineTokens(tokens) == [] then Swallow
    else Rebuild("set " + JoinBlank(EngineTokens(tokens)))
  }

  /** The host without a terminal or an explorer: it only keeps the end-of-line state. */
  class NonTuiSetHost {
    var eol: EolState

    constructor (eol: EolState)
      ensures this.eol == eol
    {
      this.eol := eol;
    }

    /** `take_endofline_tokens`. */
    method SetEndOfLine(tokens: seq<string>) returns (rest: seq<string>, replies: seq<string>)
      modifies this
      ensures rest == NotEol(tokens)
      ensures replies == EolReplies(tokens, old(eol.endofline))
      ensures eol == old(eol).(endofline := EolAfter(tokens, old(eol.endofline)))
    {
      rest, replies := [], [];
      ghost var on := eol.endofline;
      for k := 0 to |tokens|
        invariant rest == NotEol(tokens[..k]) && replies == EolReplies(tokens[..k], on)
        invariant eol == old(eol).(endofline := EolAfter(tokens[..k], on))
      {
        var tok := tokens[k];
        assert tokens[..k + 1] == tokens[..k] + [tok];
        NotEolConcat(tokens[..k], [tok]);
        EolAfterConcat(tokens[..k], [tok], on);
        OneToken(tok);
        match ParseEndOfLineToken(tok) {
          case Some(Set(v)) => eol := eol.(endofline := v);
          case Some(Toggle) => eol := eol.(endofline := !eol.endofline);
          case Some(Query) => replies := replies + [if eol.endofline then "endofline=on" else "endofline=off"];
          case None => rest := rest + [tok];
        }
      }
      assert tokens[..|tokens|] == tokens;
    }

    /** `intercept_set_tokens`, for this host. */
    method InterceptSetTokens(body: string) returns (r: SetLine)
      modifies this
      ensures r == Intercepted(SplitWhitespace(body))
      ensures eol == old(eol).(endofline := EolAfter(SplitWhitespace(body), old(eol.endofline)))
    {
      var tokens := SplitWhitespace(body);
      var remaining: seq<string> := [];
      var consumedAny := false;
      for k := 0 to |tokens|
        invariant remaining == NotMouse(tokens[..k]) && |remaining| <= k
        invariant consumedAny <==> |remaining| < k
        invariant eol == old(eol)
      {
        var tok := tokens[k];
        assert tokens[..k + 1] == tokens[..k] + [tok];
        NotMouseConcat(tokens[..k], [tok]);
        OneToken(tok);
        if IsMouse(tok) || IsExplorerOpen(tok) {
          consumedAny := true;
        } else {
          remaining := remaining + [tok];
        }
      }
      assert tokens[..|tokens|] == tokens;
      var before := |remaining|;
      TwoPassesAreOne(tokens, eol.endofline);
      TwoPassesAreOne(remaining, eol.endofline);
      var rest, _ := SetEndOfLine(remaining);
      consumedAny := consumedAny || |rest| != before;
      KeptAllOrFewer(tokens);
      if !consumedAny {
        r := PassThrough;
      } else if rest == [] {
        r := Swallow;
      } else {
        r := Rebuild("set " + JoinBlank(rest));
      }
    }
  }

  lemma {:induction false} KeptAllOrFewer(tokens: seq<string>)
    ensures |EngineTokens(tokens)| <= |tokens|
    ensures |EngineTokens(tokens)| == |tokens| <==> EngineTokens(tokens) == tokens
    ensures EngineTokens(tokens) == tokens <==> forall i :: 0 <= i < |tokens| ==> IsEngine(tokens[i])
  {
    if tokens != [] {
      KeptAllOrFewer(tokens[1..]);
      assert tokens == [tokens[0]] + tokens[1..];
      assert forall i | 1 <= i < |tokens| :: tokens[i] == tokens[1..][i - 1];
      assert forall i | 0 <= i < |tokens| - 1 :: tokens[1..][i] == tokens[i + 1];
    }
  }

  // ── What the engine gets ───────────────────────────────────────────────

  /** The body of a `set` line, as the dispatcher cuts it out. */
  function SetBody(line: string): string
    requires StartsWith(line, "set ")
  {
    Trim(line[4..])
  }

  lemma {:induction false} EngineTokensAreEngine(tokens: seq<string>)
    requires AreWords(tokens)
    ensures AreWords(EngineTokens(tokens))
    ensures EngineTokens(EngineTokens(tokens)) == EngineTokens(tokens)
    ensures forall on :: EolAfter(EngineTokens(tokens), on) == on
  {
    if tokens != [] {
      assert IsWord(tokens[0]);
      EngineTokensAreEngine(tokens[1..]);
      var rest := EngineTokens(tokens[1..]);
      assert ([tokens[0]] + rest)[1..] == rest && [] + rest == rest;
    }
  }

  /**
   * The engine's tokens reach it in their order and nothing else does: the
   * rebuilt line carries exactly them, and intercepting it again passes it
   * through and leaves the state alone.
   */
  lemma RebuiltLineIsClean(body: string)
    requires Intercepted(SplitWhitespace(body)).Rebuild?
    ensures var line := Intercepted(SplitWhitespace(body)).line;
      && StartsWith(line, "set ")
      && SetBody(line) != ""
      && SplitWhitespace(SetBody(line)) == EngineTokens(SplitWhitespace(body))
      && Intercepted(SplitWhitespace(SetBody(line))) == PassThrough
      && forall on :: EolAfter(SplitWhitespace(SetBody(line)), on) == on
  {
    hide EngineTokens, SplitWhitespace, JoinBlank, Trim, EolAfter;
    var tokens := SplitWhitespace(body);
    var kept := EngineTokens(tokens);
    SplitGivesWords(body);
    EngineTokensAreEngine(tokens);
    SplitOfJoined(kept);
    JoinedEnds(kept);
    TrimNothing(JoinBlank(kept));
    assert ("set " + JoinBlank(kept))[4..] == JoinBlank(kept);
  }

  /** A line passes through exactly when it holds engine tokens only, and then the state is untouched. */
  lemma PassThroughMeaning(tokens: seq<string>, on: bool)
    requires AreWords(tokens)
    ensures Intercepted(tokens) == PassThrough <==> forall i :: 0 <= i < |tokens| ==> IsEngine(tokens[i])
    ensures Intercepted(tokens) == PassThrough ==> EolAfter(tokens, on) == on
    ensures Intercepted(tokens) == Swallow <==> tokens != [] && forall i :: 0 <= i < |tokens| ==> !IsEngine(tokens[i])
  {
    KeptAllOrFewer(tokens);
    EngineTokensAreEngine(tokens);
    NoneKept(tokens);
  }

  lemma {:induction false} NoneKept(tokens: seq<string>)
    ensures EngineTokens(tokens) == [] <==> forall i :: 0 <= i < |tokens| ==> !IsEngine(tokens[i])
  {
    if tokens != [] {
      NoneKept(tokens[1..]);
      assert forall i | 1 <= i < |tokens| :: tokens[i] == tokens[1..][i - 1];
      assert forall i | 0 <= i < |tokens| - 1 :: tokens[1..][i] == tokens[i + 1];
    }
  }
}

/** What the multipart parser does when a callback refuses what it is handed. */
module MultipartRefusal {
  import opened Text
  import opened Multipart
  import opened MultipartSplit

  predicate Taken(c: Config, call: Call) {
    match call
    case HeaderCall(file) => c.acceptHead(file)
    case ContentCall(data) => c.acceptData(data)
  }

  function Events(call: Call): seq<Event> {
    match call
    case HeaderCall(file) => [Head(file)]
    case ContentCall(data) => DataEvents(data)
  }

  /** The log that some calls leave. */
  function Log(calls: seq<Call>): seq<Event> {
    if calls == [] then [] else Events(calls[0]) + Log(calls[1..])
  }

  ghost predicate AllTaken(c: Config, calls: seq<Call>) { forall i | 0 <= i < |calls| :: Taken(c, calls[i]) }

  /** The refused thing is still there: the part's empty line, or the content, in front of the unread
      bytes. */
  predicate Kept(call: Call, t: State) {
    match call
    case HeaderCall(file) => t.phase == Headers(true) && t.file == file && CRLF <= t.buf
    case ContentCall(data) => t.phase == Body && data <= t.buf
  }

  function After(turn: Outcome): State { if turn.Go? then turn.next else turn.last }

  lemma TurnHandsHeader(c: Config, s: State)
    requires s.buf != "" && s.phase.Headers?
    ensures CallsNow(c, s) == [] ==> After(Step(c, s)).out == s.out && After(Step(c, s)).valid == s.valid
    ensures CallsNow(c, s) != [] ==>
              var call := CallsNow(c, s)[0];
              && After(Step(c, s)).out == s.out + Events(call)
              && (if Taken(c, call) then Step(c, s).Go? && After(Step(c, s)).valid == s.valid
                  else Step(c, s) == Stop(false, After(Step(c, s))) && !After(Step(c, s)).valid
                       && Kept(call, After(Step(c, s))) && After(Step(c, s)).buf == s.buf)
  {
    EmptyLine(s.buf);
  }

  lemma TurnHandsContent(c: Config, s: State)
    requires s.buf != "" && s.phase.Body?
    ensures CallsNow(c, s) == [] ==> Step(c, s) == Stop(true, s)
    ensures CallsNow(c, s) != [] ==>
              var call := CallsNow(c, s)[0];
              && After(Step(c, s)).out == s.out + Events(call)
              && (if Taken(c, call) then (Step(c, s).Go? || Step(c, s).ok) && After(Step(c, s)).valid == s.valid
                  else Step(c, s) == Stop(false, s.(valid := false, out := s.out + Events(call)))
                       && call.data <= s.buf)
  {
    var d := c.Delimiter();
    assert s.out + DataEvents("") == s.out;
    if |s.buf| >= |d| { BodyTurn(c, s, d, Find(s.buf, d)); }
  }

  /** A turn hands over at most one thing. A refusal ends the call, invalid, with the thing unread. */
  lemma TurnHands(c: Config, s: State)
    requires s.buf != ""
    ensures |CallsNow(c, s)| <= 1
    ensures CallsNow(c, s) == [] ==> After(Step(c, s)).out == s.out
    ensures CallsNow(c, s) != [] ==>
              var call, t := CallsNow(c, s)[0], After(Step(c, s));
              && t.out == s.out + Events(call)
              && (if Taken(c, call) then Step(c, s).Go? || Step(c, s).ok
                  else Step(c, s) == Stop(false, t) && !t.valid && Kept(call, t) && t.buf == s.buf)
  {
    if s.phase.Headers? {
      TurnHandsHeader(c, s);
    } else if s.phase.Body? {
      TurnHandsContent(c, s);
    }
  }

  /** Where a call of parse ends badly although nothing was refused. */
  lemma TurnGivesUp(c: Config, s: State)
    requires s.buf != "" && Step(c, s).Stop? && !Step(c, s).ok && CallsNow(c, s) == []
    ensures var t := Step(c, s).last; t.phase == Headers(true) && Find(t.buf, CRLF) > HEADER_MAX
  {
    if s.phase == Opening {
      OpeningTurn(c, s);
    } else if s.phase.Headers? {
      EmptyLine(s.buf);
    } else if s.phase.Body? {
      TurnHandsContent(c, s);
    }
  }

  lemma LogStep(made: seq<Event>, now: seq<Call>, more: seq<Call>)
    requires |now| <= 1
    ensures made + Log(now + more) == (if now == [] then made else made + Events(now[0])) + Log(more)
    ensures Log([]) == []
  {
    if now == [] {
      assert now + more == more;
    } else {
      assert (now + more)[1..] == more && (now + more)[0] == now[0];
      Assoc(made, Events(now[0]), Log(more));
    }
  }

  /** What a whole call of parse hands over is logged in order, and everything but the last was
      taken. */
  lemma {:induction false} LogIsCalls(c: Config, s: State)
    ensures Drive(c, s).1.out == s.out + Log(Calls(c, s))
    ensures forall i | 0 <= i < |Calls(c, s)| - 1 :: Taken(c, Calls(c, s)[i])
    decreases |s.buf|, s.phase.Entry?
  {
    if s.buf != "" {
      TurnHands(c, s);
      var now := CallsNow(c, s);
      if Step(c, s).Go? {
        GoLowers(c, s);
        var next := Step(c, s).next;
        LogIsCalls(c, next);
        LogStep(s.out, now, Calls(c, next));
        TakenFirst(c, now, Calls(c, next));
      } else {
        LogStep(s.out, now, []);
        assert now + [] == now;
      }
    } else {
      LogStep(s.out, [], []);
    }
  }

  lemma TakenJoin(c: Config, now: seq<Call>, more: seq<Call>)
    ensures AllTaken(c, now + more) <==> AllTaken(c, now) && AllTaken(c, more)
  {
    if AllTaken(c, now + more) {
      forall i | 0 <= i < |now| ensures Taken(c, now[i]) { assert now[i] == (now + more)[i]; }
      forall i | 0 <= i < |more| ensures Taken(c, more[i]) { assert more[i] == (now + more)[|now| + i]; }
    }
  }

  lemma TakenFirst(c: Config, now: seq<Call>, more: seq<Call>)
    requires |now| <= 1 && (now != [] ==> Taken(c, now[0]))
    requires forall i | 0 <= i < |more| - 1 :: Taken(c, more[i])
    ensures forall i | 0 <= i < |now + more| - 1 :: Taken(c, (now + more)[i])
    ensures more != [] ==> (now + more)[|now + more| - 1] == more[|more| - 1]
  {
  }

  /** How a call that made these calls ends: after a refusal with failure, an invalid body and the
      refused thing unread; without one with success, or at a header line over the limit. */
  ghost predicate EndsRight(c: Config, ok: bool, t: State, calls: seq<Call>) {
    if AllTaken(c, calls) then ok || (t.phase == Headers(true) && Find(t.buf, CRLF) > HEADER_MAX)
    else !ok && !t.valid && Kept(calls[|calls| - 1], t) && !Taken(c, calls[|calls| - 1])
  }

  lemma EndsLater(c: Config, ok: bool, t: State, now: seq<Call>, more: seq<Call>)
    requires EndsRight(c, ok, t, more) && AllTaken(c, now)
    ensures EndsRight(c, ok, t, now + more)
  {
    TakenJoin(c, now, more);
    if !AllTaken(c, more) { assert (now + more)[|now + more| - 1] == more[|more| - 1]; }
  }

  lemma EndsNow(c: Config, s: State)
    requires s.buf != "" && Step(c, s).Stop?
    ensures EndsRight(c, Step(c, s).ok, Step(c, s).last, CallsNow(c, s))
  {
    TurnHands(c, s);
    if CallsNow(c, s) == [] && !Step(c, s).ok { TurnGivesUp(c, s); }
  }

  lemma {:induction false} RefusalEnds(c: Config, s: State)
    ensures EndsRight(c, Drive(c, s).0, Drive(c, s).1, Calls(c, s))
    decreases |s.buf|, s.phase.Entry?
  {
    if s.buf != "" {
      if Step(c, s).Go? {
        var next := Step(c, s).next;
        TurnHands(c, s);
        GoLowers(c, s);
        RefusalEnds(c, next);
        EndsLater(c, Drive(c, next).0, Drive(c, next).1, CallsNow(c, s), Calls(c, next));
      } else {
        EndsNow(c, s);
      }
    }
  }

  /** A call of parse logs what it hands over, in order, and nothing is handed over after a refusal. If
      it succeeds everything was taken. A refusal makes it fail with an invalid body, and what was
      refused stays unread. */
  lemma ParseRefused(c: Config, s: State, data: string)
    ensures var (ok, t) := Parse(c, s, data);
            var calls := Calls(c, Feed(s, data));
            && t.out == s.out + Log(calls)
            && (forall i | 0 <= i < |calls| - 1 :: Taken(c, calls[i]))
            && (ok ==> AllTaken(c, calls))
            && (!AllTaken(c, calls) ==> !ok && !t.valid && Kept(calls[|calls| - 1], t))
  {
    LogIsCalls(c, Feed(s, data));
    RefusalEnds(c, Feed(s, data));
  }

  /** In the body, without a delimiter in sight: what cannot belong to one is handed over, and when it
      is refused the call fails and keeps all of it. */
  lemma RefusedContent(c: Config, s: State, data: string)
    requires s.phase == Body
    requires var unread, d := s.buf + data, c.Delimiter();
             && |unread| > |d| && (forall i :: !At(unread, i, d))
             && !c.acceptData(unread[..|unread| - |d|])
    ensures var unread := s.buf + data;
            var piece := unread[..|unread| - |c.Delimiter()|];
            && Parse(c, s, data)
               == (false, s.(buf := unread, valid := false, out := s.out + DataEvents(piece)))
            && Calls(c, Feed(s, data)) == [ContentCall(piece)]
  {
    var f, d := Feed(s, data), c.Delimiter();
    FindNone(f.buf, d);
    BodyTurn(c, f, d, |f.buf|);
    TurnHands(c, f);
    assert !Taken(c, ContentCall(f.buf[..|f.buf| - |d|]));
    TurnHandsContent(c, f);
  }

  /** The same callbacks, never refusing. */
  function Obliging(c: Config): Config { c.(acceptHead := _ => true, acceptData := _ => true) }

  lemma SameTurn(c: Config, s: State)
    requires s.buf != "" && AllTaken(c, CallsNow(c, s))
    ensures Step(Obliging(c), s) == Step(c, s)
  {
    if s.phase.Headers? {
      EmptyLine(s.buf);
      assert At(s.buf, 0, CRLF) ==> Taken(c, CallsNow(c, s)[0]);
    } else if s.phase.Body? {
      var d := c.Delimiter();
      if |s.buf| >= |d| {
        BodyTurn(c, s, d, Find(s.buf, d));
        BodyTurn(Obliging(c), s, d, Find(s.buf, d));
        assert CallsNow(c, s) != [] ==> Taken(c, CallsNow(c, s)[0]);
      }
    }
  }

  /** Callbacks that refuse nothing of what they are handed might as well never refuse: all that holds
      for accepting callbacks holds for such a run. */
  lemma {:induction false} TakenAsAccepted(c: Config, s: State)
    requires AllTaken(c, Calls(c, s))
    ensures Drive(Obliging(c), s) == Drive(c, s) && Accepting(Obliging(c))
    decreases |s.buf|, s.phase.Entry?
  {
    if s.buf != "" {
      TurnHands(c, s);
      var now := CallsNow(c, s);
      if Step(c, s).Go? {
        GoLowers(c, s);
        var more := Calls(c, Step(c, s).next);
        TakenJoin(c, now, more);
        SameTurn(c, s);
        TakenAsAccepted(c, Step(c, s).next);
      } else {
        SameTurn(c, s);
      }
    }
  }

  /** In any case what is handed over is a beginning of what never refusing callbacks would get. */
  lemma {:induction false} RefusedIsPrefix(c: Config, s: State)
    ensures Drive(c, s).1.out <= Drive(Obliging(c), s).1.out
    decreases |s.buf|, s.phase.Entry?
  {
    if s.buf != "" {
      var o := Obliging(c);
      if AllTaken(c, CallsNow(c, s)) {
        SameTurn(c, s);
        if Step(c, s).Go? {
          GoLowers(c, s);
          RefusedIsPrefix(c, Step(c, s).next);
        }
      } else {
        TurnHands(c, s);
        TurnHands(o, s);
        if Step(o, s).Go? { OutputGrows(o, Step(o, s).next); }
      }
    }
  }
}

/** How the multipart parser reacts to the way its input is cut into pieces. */
module MultipartSplit {
  import opened Text
  import opened Multipart

  /** Neither callback ever refuses. */
  ghost predicate Accepting(c: Config) {
    (forall f :: c.acceptHead(f)) && (forall d :: c.acceptData(d))
  }

  /** The header line in front, finished or not, is under the limit. */
  ghost predicate LineInLimit(s: State) {
    s.phase.Headers? ==>
      var pos := Find(s.buf, CRLF);
      if pos < |s.buf| then pos < HEADER_MAX else pos <= HEADER_MAX
  }

  /** Every header line met by the loop, finished or not, is under the limit. */
  ghost predicate HeadersUnderLimit(c: Config, s: State)
    decreases |s.buf|, s.phase.Entry?
  {
    s.buf != "" ==>
      && LineInLimit(s)
      && (Step(c, s).Go? ==> HeadersUnderLimit(c, Step(c, s).next))
  }

  /** Two machine states from which the loop ends alike. */
  ghost predicate SameRun(c: Config, s: State, t: State) {
    Drive(c, s) == Drive(c, t) && HeadersUnderLimit(c, s) == HeadersUnderLimit(c, t)
  }

  lemma DataJoin(x: string, y: string)
    ensures DataEvents(x + y) == DataEvents(x) + DataEvents(y)
  {
  }

  lemma GoExtendsHeaders(c: Config, s: State, unchecked: bool, b: string)
    requires StepHeaders(c, s, unchecked).Go?
    ensures StepHeaders(c, Feed(s, b), unchecked) == Go(Feed(StepHeaders(c, s, unchecked).next, b))
  {
    FindExtend(s.buf, b, CRLF);
    SliceExtend(s.buf, b, Find(s.buf, CRLF), Find(s.buf, CRLF) + |CRLF|);
  }

  lemma GoExtendsBody(c: Config, s: State, b: string)
    requires StepBody(c, s).Go?
    ensures StepBody(c, Feed(s, b)) == Go(Feed(StepBody(c, s).next, b))
  {
    var d := c.Delimiter();
    FindExtend(s.buf, b, d);
    CutExtends(s.buf, b, Find(s.buf, d), |d|);
  }

  lemma GoExtendsBoundary(s: State, b: string)
    requires !s.valid && StepBoundary(s).Go?
    ensures var next := StepBoundary(s).next;
            StepBoundary(Feed(s, b)) == Go(if next.valid then next else Feed(next, b))
  {
    var f := Feed(s, b);
    AtExtend(s.buf, b, 0, CRLF);
    if At(s.buf, 0, CRLF) {
      assert f.buf[2..] == s.buf[2..] + b;
    } else {
      AtExtend(s.buf, b, 0, CLOSE);
    }
  }

  /** A turn that goes on does the same with more bytes behind, except that the closing mark
      swallows them. */
  lemma GoExtends(c: Config, s: State, b: string)
    requires !s.valid && s.phase != Opening && Step(c, s).Go?
    ensures var next := Step(c, s).next;
            Step(c, Feed(s, b)) == Go(if next.valid then next else Feed(next, b))
  {
    match s.phase {
      case Entry =>
      case Headers(unchecked) => GoExtendsHeaders(c, s, unchecked, b);
      case Body => GoExtendsBody(c, s, b);
      case Boundary => GoExtendsBoundary(s, b);
    }
  }

  /** A body turn that waits has handed over bytes that no delimiter can begin in. */
  lemma WaitExtendsBody(c: Config, s: State, b: string)
    requires Accepting(c) && StepBody(c, s).Stop?
    ensures var t := StepBody(c, s).last;
            StepBody(c, Feed(s, b)) == StepBody(c, Feed(t, b))
  {
    var d, t := c.Delimiter(), StepBody(c, s).last;
    if |d| <= |s.buf| {
      var len := |s.buf| - |d|;
      var x, g := s.buf[..len], s.buf[len..] + b;
      assert s.buf + b == x + g;
      FindFirst(s.buf, d);
      forall i | 0 <= i < len ensures !At(s.buf + b, i, d) { AtExtend(s.buf, b, i, d); }
      FindDrop(s.buf + b, len, d);
      assert (s.buf + b)[len..] == g;
      HandedLater(c, s, d, x, g);
    }
  }

  /** In the body state it makes no difference whether a prefix that no delimiter begins in is
      handed over now or later. */
  lemma HandedLater(c: Config, s: State, d: string, x: string, g: string)
    requires Accepting(c) && 0 < |d| <= |g| && Find(x + g, d) == |x| + Find(g, d)
    ensures SeekDelimiter(c, s.(buf := x + g), d)
         == SeekDelimiter(c, s.(buf := g, out := s.out + DataEvents(x)), d)
  {
    var p := Find(g, d);
    var (_, data, rest) := CutAt(g, p, |d|);
    CutLater(x, g, p, |d|);
    HandedJoin(c, s.(buf := x + g), s.(buf := g, out := s.out + DataEvents(x)), x, data, rest);
  }

  lemma CutLater(x: string, g: string, p: nat, width: nat)
    requires width <= |g| && (p < |g| ==> p + width <= |g|) && p <= |g|
    ensures CutAt(x + g, |x| + p, width)
         == (CutAt(g, p, width).0, x + CutAt(g, p, width).1, CutAt(g, p, width).2)
  {
    var q := |g| - width;
    if p < |g| { SliceJoin(x, g, p, p + width); } else { SliceJoin(x, g, q, q); }
  }

  lemma CutExtends(x: string, b: string, p: nat, width: nat)
    requires p < |x| && p + width <= |x|
    ensures CutAt(x + b, p, width) == (true, CutAt(x, p, width).1, CutAt(x, p, width).2 + b)
  {
    SliceExtend(x, b, p, p + width);
  }

  lemma SliceExtend(x: string, b: string, k: nat, l: nat)
    requires k <= l <= |x|
    ensures (x + b)[..k] == x[..k] && (x + b)[l..] == x[l..] + b
  {
  }

  lemma SliceJoin(x: string, g: string, k: nat, l: nat)
    requires k <= l <= |g|
    ensures (x + g)[..|x| + k] == x + g[..k] && (x + g)[|x| + l..] == g[l..]
  {
  }

  lemma HandedJoin(c: Config, t: State, u: State, x: string, y: string, r: string)
    requires Accepting(c) && u == t.(buf := u.buf, out := t.out + DataEvents(x))
    ensures HandLast(c, t, x + y, r) == HandLast(c, u, y, r)
    ensures HandSome(c, t, x + y, r) == HandSome(c, u, y, r)
  {
    DataJoin(x, y);
    assert t.out + DataEvents(x + y) == t.out + DataEvents(x) + DataEvents(y);
  }

  /** A turn that waits leaves a state that takes more bytes as if it had not waited, unless the
      header line it resumes with is now checked and found too long. */
  lemma WaitExtends(c: Config, s: State, b: string)
    requires Accepting(c) && s.buf != "" && s.phase != Opening && Step(c, s).Stop? && Step(c, s).ok
    ensures var t := Step(c, s).last;
            && t.valid == s.valid && t.phase != Opening && t.buf != ""
            && (Step(c, Feed(s, b)) == Step(c, Feed(t, b))
                || (t.phase == Headers(true) && Find(t.buf + b, CRLF) > HEADER_MAX))
            && (LineInLimit(Feed(s, b)) == LineInLimit(Feed(t, b)))
  {
    if s.phase.Body? {
      BodyWaits(c, s);
      WaitExtendsBody(c, s, b);
    }
  }

  lemma BodyWaits(c: Config, s: State)
    requires Accepting(c) && s.buf != "" && StepBody(c, s).Stop?
    ensures var t := StepBody(c, s).last; t.valid == s.valid && t.phase == s.phase && t.buf != ""
  {
  }

  /** Parsing is insensitive to cutting: as long as the first piece does not already end the
      body, going on with the second one ends like parsing both at once. The one exception is a
      header line over the limit that the second call resumes with. */
  lemma {:induction false} CutAccepted(c: Config, s: State, b: string)
    requires Accepting(c) && s.phase != Opening && !s.valid && Drive(c, s).0
    ensures var t := Drive(c, s).1;
            if t.valid then Drive(c, Feed(s, b)) == (true, t)
            else
              || Drive(c, Feed(t, b)) == Drive(c, Feed(s, b))
              || (t.phase == Headers(true) && Find(t.buf + b, CRLF) > HEADER_MAX)
    decreases |s.buf|, s.phase.Entry?
  {
    if s.buf == "" {
    } else if Step(c, s).Stop? {
      WaitedCut(c, s, b);
    } else if Step(c, s).next.valid {
      ClosingCut(c, s, b);
    } else {
      GoExtends(c, s, b);
      GoLowers(c, s);
      CutAccepted(c, Step(c, s).next, b);
    }
  }

  lemma ClosingCut(c: Config, s: State, b: string)
    requires !s.valid && s.phase != Opening && s.buf != "" && Step(c, s).Go? && Step(c, s).next.valid
    ensures Drive(c, s) == Drive(c, Feed(s, b)) == (true, Step(c, s).next)
  {
    GoExtends(c, s, b);
    assert s.phase == Boundary && Step(c, s).next.buf == "";
  }

  lemma WaitedCut(c: Config, s: State, b: string)
    requires Accepting(c) && s.buf != "" && s.phase != Opening && Step(c, s).Stop? && Step(c, s).ok
    ensures var t := Step(c, s).last;
            && t.valid == s.valid
            && (Drive(c, Feed(t, b)) == Drive(c, Feed(s, b))
                || (t.phase == Headers(true) && Find(t.buf + b, CRLF) > HEADER_MAX))
  {
    WaitExtends(c, s, b);
  }

  lemma LineOfPrefix(s: State, b: string)
    requires LineInLimit(Feed(s, b))
    ensures LineInLimit(s)
  {
    if s.phase.Headers? { PrefixLine(s.buf, b); }
  }

  lemma WaitAccepted(c: Config, s: State, b: string)
    requires Accepting(c) && s.phase != Opening && !s.valid && HeadersUnderLimit(c, Feed(s, b))
    requires s.buf != "" && Step(c, s).Stop? && LineInLimit(s)
    ensures var t := Step(c, s).last;
            Step(c, s).ok && HeadersUnderLimit(c, Feed(t, b)) && LineInLimit(Feed(t, b))
  {
    WaitExtends(c, s, b);
  }

  /** Under the line limit every prefix of an input is accepted, and what follows it still
      respects the limit. */
  lemma {:induction false} PrefixAccepted(c: Config, s: State, b: string)
    requires Accepting(c) && s.phase != Opening && !s.valid && HeadersUnderLimit(c, Feed(s, b))
    ensures Drive(c, s).0 && HeadersUnderLimit(c, s)
    ensures var t := Drive(c, s).1; !t.valid ==> HeadersUnderLimit(c, Feed(t, b)) && LineInLimit(Feed(t, b))
    decreases |s.buf|, s.phase.Entry?
  {
    if s.buf == "" {
    } else {
      LineOfPrefix(s, b);
      if Step(c, s).Stop? {
        WaitAccepted(c, s, b);
      } else {
        GoExtends(c, s, b);
        GoLowers(c, s);
        if !Step(c, s).next.valid { PrefixAccepted(c, Step(c, s).next, b); }
      }
    }
  }

  /** Cutting an input at any point shortens the line in front by at most its line end. */
  lemma PrefixLine(x: string, b: string)
    ensures Find(x, CRLF) < |x| ==> Find(x + b, CRLF) == Find(x, CRLF)
    ensures Find(x, CRLF) == |x| ==> Find(x + b, CRLF) >= |x| - 1
  {
    if Find(x, CRLF) < |x| {
      FindExtend(x, b, CRLF);
    } else {
      FindFirst(x, CRLF);
      FindFirst(x + b, CRLF);
      var r := Find(x + b, CRLF);
      if r + 2 <= |x| { AtExtend(x, b, r, CRLF); }
    }
  }

  /** Two calls are one: with accepting callbacks and headers under the limit, parse(a) succeeds
      and, unless the closing mark was complete in `a`, parse(b) then ends exactly as parse(a + b)
      does: same phase, unread bytes, part information, validity and concatenated output. */
  lemma SplitParse(c: Config, s: State, a: string, b: string)
    requires Accepting(c) && s.phase != Opening && !s.valid
    requires HeadersUnderLimit(c, Feed(s, a + b))
    ensures Parse(c, s, a).0
    ensures var t := Parse(c, s, a).1;
            if t.valid then Parse(c, s, a + b) == (true, t)
            else Parse(c, t, b) == Parse(c, s, a + b) && HeadersUnderLimit(c, Feed(t, b))
  {
    assert Feed(Feed(s, a), b) == Feed(s, a + b) by { assert s.buf + a + b == s.buf + (a + b); }
    PrefixAccepted(c, Feed(s, a), b);
    CutAccepted(c, Feed(s, a), b);
  }

  /** A complete header line is interpreted and consumed. */
  lemma HeaderTurn(c: Config, s: State, line: string, rest: string)
    requires s.phase.Headers? && line != "" && CR !in line && s.buf == line + CRLF + rest
    requires s.phase.unchecked ==> |line| <= HEADER_MAX
    ensures Step(c, s) == Go(s.(phase := Headers(false), buf := rest, file := ApplyHeader(c, s.file, line)))
    ensures |line| < HEADER_MAX ==> LineInLimit(s)
  {
    LineFound(line, rest);
    assert s.buf[..|line|] == line && s.buf[|line| + 2..] == rest;
  }

  lemma HeaderWaits(c: Config, s: State)
    requires s.phase == Headers(false) && CR !in s.buf
    ensures Step(c, s) == Stop(true, s.(phase := Headers(true)))
  {
    forall i | 0 <= i < |s.buf| ensures !At(s.buf, i, CRLF) { assert s.buf[i] != CR; }
    FindNone(s.buf, CRLF);
  }

  /** A line without carriage return ends at the first line end after it. */
  lemma LineFound(line: string, rest: string)
    requires CR !in line
    ensures Find(line + CRLF + rest, CRLF) == |line|
  {
    var s := line + CRLF + rest;
    assert s[|line|..|line| + 2] == CRLF;
    forall i | 0 <= i < |line| ensures !At(s, i, CRLF) {
      assert s[i] == line[i];
      if i + 2 <= |s| { assert s[i..i + 2][0] == s[i]; }
    }
    FindIs(s, CRLF, |line|);
  }

  lemma StepGrows(c: Config, s: State)
    requires s.buf != ""
    ensures var t := if Step(c, s).Go? then Step(c, s).next else Step(c, s).last;
            if s.phase.Body? then s.out <= t.out
            else t.out == s.out || (t.out[..|t.out| - 1] == s.out && t.out[|s.out|].Head?)
    ensures Step(c, s).Go? && Step(c, s).next.phase.Body? && !s.phase.Body? ==> Step(c, s).next.out != s.out
  {
  }

  /** What the callbacks have received is never taken back, and between parts the next thing
      they receive is a header. */
  lemma {:induction false} OutputGrows(c: Config, s: State)
    ensures var o := Drive(c, s).1.out;
            && s.out <= o
            && (!s.phase.Body? && |s.out| < |o| ==> o[|s.out|].Head?)
    decreases |s.buf|, s.phase.Entry?
  {
    if s.buf != "" {
      StepGrows(c, s);
      if Step(c, s).Go? {
        GoLowers(c, s);
        OutputGrows(c, Step(c, s).next);
      }
    }
  }

  /** In the body at most a delimiter's length is left unread when parse returns. */
  lemma {:induction false} BodyRetention(c: Config, s: State)
    ensures var (ok, t) := Drive(c, s); ok && t.phase.Body? ==> |t.buf| <= |c.Delimiter()|
    decreases |s.buf|, s.phase.Entry?
  {
    if s.buf != "" && Step(c, s).Go? {
      GoLowers(c, s);
      BodyRetention(c, Step(c, s).next);
    }
  }

  lemma OpeningTurn(c: Config, s: State)
    requires s.phase == Opening && s.buf != ""
    ensures var f := Find(s.buf, c.Opener());
            Step(c, s) == if f == |s.buf| then Stop(true, s.(buf := ""))
                          else Go(s.(phase := Entry, buf := s.buf[f..][|c.Opener()|..]))
  {
    FindFirst(s.buf, c.Opener());
    var f := Find(s.buf, c.Opener());
    AtDrop(s.buf, f, 0, c.Opener());
  }

  /** Before the opening line has been seen a call keeps nothing of what it was given, so an
      opening line that is cut in two is never recognised. */
  lemma OpeningDiscards(c: Config, s: State, a: string)
    requires s.phase == Opening && s.buf == ""
    ensures Parse(c, s, a) == (true, s) <==> Find(a, c.Opener()) == |a|
  {
    FeedEmpty(s, a);
    if a != "" { OpeningDrive(c, s.(buf := a)); }
  }

  lemma FeedEmpty(s: State, a: string)
    requires s.buf == ""
    ensures Feed(s, a) == s.(buf := a) && s.(buf := a).(buf := "") == s
  {
    assert "" + a == a;
  }

  lemma OpeningDrive(c: Config, t: State)
    requires t.phase == Opening && t.buf != ""
    ensures if Find(t.buf, c.Opener()) == |t.buf| then Drive(c, t) == (true, t.(buf := ""))
            else Drive(c, t).1.phase != Opening
  {
    OpeningTurn(c, t);
    if Step(c, t).Go? { NeverOpeningAgain(c, Step(c, t).next); }
  }

  lemma {:induction false} NeverOpeningAgain(c: Config, s: State)
    requires s.phase != Opening
    ensures Drive(c, s).1.phase != Opening
    decreases |s.buf|, s.phase.Entry?
  {
    if s.buf != "" && Step(c, s).Go? { NeverOpeningAgain(c, Step(c, s).next); }
  }

  /** Successive calls, given up at the first refusal. */
  function ParseAll(c: Config, s: State, pieces: seq<string>): (bool, State)
    decreases |pieces|
  {
    if pieces == [] then (true, s)
    else
      var (ok, t) := Parse(c, s, pieces[0]);
      if ok then ParseAll(c, t, pieces[1..]) else (false, t)
  }

  /** No proper prefix of `w` already completes the closing mark. */
  ghost predicate ClosesLast(c: Config, s: State, w: string) {
    forall k | 0 <= k < |w| :: !Parse(c, s, w[..k]).1.valid
  }

  /** A state that parse can return: it does nothing until bytes arrive. */
  ghost predicate Rested(c: Config, s: State) { Parse(c, s, "") == (true, s) }

  lemma ParseRests(c: Config, s: State, a: string)
    requires Accepting(c) && s.phase != Opening && !s.valid && HeadersUnderLimit(c, Feed(s, a))
    ensures Parse(c, s, a).0 && Rested(c, Parse(c, s, a).1)
  {
    assert a + "" == a;
    SplitParse(c, s, a, "");
    var t := Parse(c, s, a).1;
    if t.valid { ClosedIsEmpty(c, Feed(s, a)); }
    assert t.buf + "" == t.buf;
  }

  lemma {:induction false} ClosedIsEmpty(c: Config, s: State)
    requires !s.valid && Drive(c, s).1.valid && s.phase != Opening
    ensures Drive(c, s).1.buf == "" && Drive(c, s).1.phase == Boundary
    decreases |s.buf|, s.phase.Entry?
  {
    if s.buf != "" && Step(c, s).Go? && !Step(c, s).next.valid { ClosedIsEmpty(c, Step(c, s).next); }
  }

  lemma {:induction false} EmptyPieces(c: Config, s: State, pieces: seq<string>)
    requires Rested(c, s) && Concat(pieces) == ""
    ensures ParseAll(c, s, pieces) == (true, s)
  {
    if pieces != [] { EmptyPieces(c, s, pieces[1..]); }
  }

  lemma LimitOfPrefix(c: Config, s: State, w: string, k: nat)
    requires Accepting(c) && s.phase != Opening && !s.valid && k <= |w|
    requires HeadersUnderLimit(c, Feed(s, w))
    ensures HeadersUnderLimit(c, Feed(s, w[..k]))
  {
    assert Feed(Feed(s, w[..k]), w[k..]) == Feed(s, w) by { assert s.buf + w[..k] + w[k..] == s.buf + w; }
    PrefixAccepted(c, Feed(s, w[..k]), w[k..]);
  }

  lemma ClosesLastAfter(c: Config, s: State, p: string, r: string)
    requires Accepting(c) && s.phase != Opening && !s.valid
    requires HeadersUnderLimit(c, Feed(s, p + r)) && ClosesLast(c, s, p + r) && !Parse(c, s, p).1.valid
    ensures ClosesLast(c, Parse(c, s, p).1, r)
  {
    var t := Parse(c, s, p).1;
    forall k | 0 <= k < |r| ensures !Parse(c, t, r[..k]).1.valid { LaterPrefix(c, s, p, r, k); }
  }

  lemma LaterPrefix(c: Config, s: State, p: string, r: string, k: nat)
    requires Accepting(c) && s.phase != Opening && !s.valid && k < |r|
    requires HeadersUnderLimit(c, Feed(s, p + r)) && !Parse(c, s, p).1.valid
    requires !Parse(c, s, (p + r)[..|p| + k]).1.valid
    ensures !Parse(c, Parse(c, s, p).1, r[..k]).1.valid
  {
    assert (p + r)[..|p| + k] == p + r[..k];
    LimitOfPrefix(c, s, p + r, |p| + k);
    SplitParse(c, s, p, r[..k]);
  }

  /** Any number of calls is one call. */
  lemma {:induction false} PiecesAreOne(c: Config, s: State, pieces: seq<string>)
    requires Accepting(c) && s.phase != Opening && !s.valid && Rested(c, s)
    requires HeadersUnderLimit(c, Feed(s, Concat(pieces))) && ClosesLast(c, s, Concat(pieces))
    ensures ParseAll(c, s, pieces) == Parse(c, s, Concat(pieces))
    decreases |pieces|
  {
    if pieces != [] {
      var p, r := pieces[0], Concat(pieces[1..]);
      var w, t := p + r, Parse(c, s, p).1;
      SplitParse(c, s, p, r);
      assert w[..|p|] == p;
      LimitOfPrefix(c, s, w, |p|);
      ParseRests(c, s, p);
      if t.valid {
        assert r == "";
        EmptyPieces(c, t, pieces[1..]);
      } else {
        ClosesLastAfter(c, s, p, r);
        NeverOpeningAgain(c, Feed(s, p));
        PiecesAreOne(c, t, pieces[1..]);
      }
    }
  }
}

/** Exactly when it matters where the multipart parser's input is cut. */
module MultipartCut {
  import opened Text
  import opened Multipart
  import opened MultipartSplit

  /** The loop comes to rest in the headers, on a line that follows another one read in the same go. */
  predicate StopsAfterLine(c: Config, s: State)
    decreases |s.buf|, s.phase.Entry?
  {
    if s.buf != "" && Step(c, s).Go? then StopsAfterLine(c, Step(c, s).next) else s.phase == Headers(false)
  }

  lemma {:induction false} DriveShrinks(c: Config, s: State)
    ensures |Drive(c, s).1.buf| <= |s.buf|
    decreases |s.buf|, s.phase.Entry?
  {
    if s.buf != "" && Step(c, s).Go? { DriveShrinks(c, Step(c, s).next); }
  }

  /** Entering the headers anew matters exactly for a line over the limit. */
  lemma EnteringChecks(c: Config, s: State)
    requires s.phase == Headers(false)
    ensures Drive(c, s) == Drive(c, s.(phase := Headers(true))) <==> Find(s.buf, CRLF) <= HEADER_MAX
  {
    var t := s.(phase := Headers(true));
    if s.buf != "" {
      if Find(s.buf, CRLF) <= HEADER_MAX {
        assert Step(c, s) == Step(c, t);
      } else {
        assert Drive(c, t) == (false, t);
        if Step(c, s).Go? { DriveShrinks(c, Step(c, s).next); }
      }
    }
  }

  lemma {:induction false} CutExact(c: Config, s: State, b: string)
    requires Accepting(c) && s.phase != Opening && !s.valid && Drive(c, s).0 && !Drive(c, s).1.valid
    ensures var t := Drive(c, s).1;
            Drive(c, Feed(t, b)) == Drive(c, Feed(s, b))
            <==> !(StopsAfterLine(c, s) && Find(t.buf + b, CRLF) > HEADER_MAX)
    decreases |s.buf|, s.phase.Entry?
  {
    if s.buf != "" && Step(c, s).Go? {
      GoExtends(c, s, b);
      GoLowers(c, s);
      CutExact(c, Step(c, s).next, b);
    } else if s.phase == Headers(false) {
      EnteringChecks(c, Feed(s, b));
    } else if s.phase.Body? && s.buf != "" {
      WaitExtends(c, s, b);
    } else {
      assert Drive(c, s).1 == s;
    }
  }

  /** Out of the headers there is no way that does not announce the part. */
  lemma {:induction false} LeavesByHead(c: Config, s: State)
    requires s.phase.Entry? || s.phase.Headers?
    ensures var t := Drive(c, s).1;
            t.phase.Entry? || t.phase.Headers? || |t.out| > |s.out|
    decreases |s.buf|, s.phase.Entry?
  {
    if s.buf != "" && Step(c, s).Go? {
      var next := Step(c, s).next;
      if next.phase.Body? { OutputGrows(c, next); } else { LeavesByHead(c, next); }
    }
  }

  /** Once a line has been read, the limit is looked at again only after the part is announced. */
  lemma {:induction false} RefusedLater(c: Config, s: State)
    requires Accepting(c) && s.phase == Headers(false) && !Drive(c, s).0
    ensures |Drive(c, s).1.out| > |s.out|
    decreases |s.buf|
  {
    if s.buf != "" && Step(c, s).Go? {
      var next := Step(c, s).next;
      if next.phase.Body? { OutputGrows(c, next); } else { RefusedLater(c, next); }
    }
  }

  /** Where cutting exposes a line to the limit, the second call refuses it and one call either
      accepts or gets on to the next part first. */
  lemma {:induction false} CutLoses(c: Config, s: State, b: string)
    requires Accepting(c) && s.phase != Opening && !s.valid && Drive(c, s).0 && !Drive(c, s).1.valid
    requires StopsAfterLine(c, s) && Find(Drive(c, s).1.buf + b, CRLF) > HEADER_MAX
    ensures var t := Drive(c, s).1;
            && Drive(c, Feed(t, b)) == (false, Feed(t, b))
            && (!Drive(c, Feed(s, b)).0 ==> |Drive(c, Feed(s, b)).1.out| > |t.out|)
    decreases |s.buf|, s.phase.Entry?
  {
    if s.buf != "" && Step(c, s).Go? {
      GoExtends(c, s, b);
      GoLowers(c, s);
      CutLoses(c, Step(c, s).next, b);
    } else if !Drive(c, Feed(s, b)).0 {
      RefusedLater(c, Feed(s, b));
    }
  }

  /** A refused line of one byte over the limit that ends with the first half of a line end whose
      second half comes next. */
  predicate CutsLineEnd(t: State, b: string) {
    |t.buf| == HEADER_MAX + 1 && t.buf[HEADER_MAX] == CR && b != "" && b[0] == '\n'
  }

  lemma LineEndCompleted(x: string, b: string)
    requires Find(x, CRLF) > HEADER_MAX
    ensures Find(x + b, CRLF) <= HEADER_MAX
       <==> |x| == HEADER_MAX + 1 && x[HEADER_MAX] == CR && b != "" && b[0] == '\n'
    ensures Find(x + b, CRLF) >= HEADER_MAX
  {
    PrefixLine(x, b);
    FindFirst(x, CRLF);
    FindFirst(x + b, CRLF);
    var w, m := x + b, Find(x + b, CRLF);
    if m == HEADER_MAX {
      assert At(w, m, CRLF) && w[m..m + 2] == CRLF;
      assert w[m] == w[m..m + 2][0] && w[m + 1] == w[m..m + 2][1];
    }
    if |x| == HEADER_MAX + 1 && x[HEADER_MAX] == CR && b != "" && b[0] == '\n' {
      assert w[HEADER_MAX..HEADER_MAX + 2] == CRLF;
      assert At(w, HEADER_MAX, CRLF);
    }
  }

  /** A call that is refused, with more bytes. */
  lemma {:induction false} RefusedExact(c: Config, s: State, b: string)
    requires Accepting(c) && s.phase != Opening && !s.valid && !Drive(c, s).0
    ensures var t, whole := Drive(c, s).1, Drive(c, Feed(s, b));
            if CutsLineEnd(t, b) then !whole.0 ==> |whole.1.out| > |t.out|
            else whole == (false, Feed(t, b))
    decreases |s.buf|, s.phase.Entry?
  {
    if Step(c, s).Go? {
      GoExtends(c, s, b);
      GoLowers(c, s);
      RefusedExact(c, Step(c, s).next, b);
    } else {
      LineEndCompleted(s.buf, b);
      var f := Feed(s, b);
      if CutsLineEnd(s, b) && !Drive(c, f).0 { RefusedLater(c, Step(c, f).next); }
    }
  }

  /** After the closing mark one call drops what comes; the next call reads it, and ends as if it had
      not come exactly when it begins with another closing mark. */
  lemma ClosedAgain(c: Config, t: State, b: string)
    requires t.valid && t.phase == Boundary && t.buf == ""
    ensures Drive(c, Feed(t, b)) == (true, t) <==> b == "" || At(b, 0, CLOSE)
  {
    var f := Feed(t, b);
    assert f.buf == b;
    if |b| >= 2 && At(b, 0, CRLF) {
      LeavesByHead(c, Step(c, f).next);
      FirstByte(b, CRLF);
      if At(b, 0, CLOSE) { FirstByte(b, CLOSE); }
    }
  }

  lemma FirstByte(b: string, p: string)
    requires p != "" && At(b, 0, p)
    ensures b[0] == p[0]
  {
    assert b[0..|p|][0] == b[0];
  }

  /** Same verdict and same state, up to the unread bytes of a parser that has refused. */
  predicate SameOutcome(p: (bool, State), q: (bool, State)) {
    p.0 == q.0 && (p.0 ==> p.1 == q.1) && p.1.(buf := "") == q.1.(buf := "")
  }

  /** What a caller can see after the first call: it was refused in the middle of a line end; or the
      closing mark is complete and something else follows; or it rests on a header line that follows
      another one it has read, and that line turns out to be over the limit. */
  predicate CutMatters(c: Config, s: State, a: string, b: string) {
    var (ok, t) := Parse(c, s, a);
    if !ok then CutsLineEnd(t, b)
    else if t.valid then b != "" && !At(b, 0, CLOSE)
    else StopsAfterLine(c, Feed(s, a)) && Find(t.buf + b, CRLF) > HEADER_MAX
  }

  lemma TwoCalls(c: Config, s: State, a: string, b: string)
    ensures ParseAll(c, s, [a, b])
         == if Parse(c, s, a).0 then Parse(c, Parse(c, s, a).1, b) else (false, Parse(c, s, a).1)
  {
    var (ok, t) := Parse(c, s, a);
    assert [a, b][1..] == [b] && [b][1..] == [];
    if ok { assert ParseAll(c, t, [b]) == Parse(c, t, b); }
  }

  lemma OneCall(c: Config, s: State, a: string, b: string)
    ensures Parse(c, s, a) == Drive(c, Feed(s, a)) && Parse(c, s, a + b) == Drive(c, Feed(Feed(s, a), b))
  {
    assert s.buf + a + b == s.buf + (a + b);
  }

  lemma SplitRefused(c: Config, s: State, a: string, b: string)
    requires Accepting(c) && s.phase != Opening && !s.valid && !Parse(c, s, a).0
    ensures var t, one := Parse(c, s, a).1, Parse(c, s, a + b);
            if CutsLineEnd(t, b) then !SameOutcome((false, t), one) else one == (false, Feed(t, b))
  {
    OneCall(c, s, a, b);
    RefusedExact(c, Feed(s, a), b);
  }

  lemma SplitAccepted(c: Config, s: State, a: string, b: string)
    requires Accepting(c) && s.phase != Opening && !s.valid && Parse(c, s, a).0
    ensures var two, one := Parse(c, Parse(c, s, a).1, b), Parse(c, s, a + b);
            if CutMatters(c, s, a, b) then two != one && !SameOutcome(two, one) else two == one
  {
    OneCall(c, s, a, b);
    if Parse(c, s, a).1.valid { ClosedCut(c, Feed(s, a), b); } else { RestingCut(c, Feed(s, a), b); }
  }

  /** The exact condition: two calls and one call agree if and only if the cut does not matter. When
      the first call is refused, one call is refused in the same state with the second piece unread. */
  lemma SplitExact(c: Config, s: State, a: string, b: string)
    requires Accepting(c) && s.phase != Opening && !s.valid
    ensures SameOutcome(ParseAll(c, s, [a, b]), Parse(c, s, a + b)) <==> !CutMatters(c, s, a, b)
    ensures Parse(c, s, a).0 ==> (ParseAll(c, s, [a, b]) == Parse(c, s, a + b) <==> !CutMatters(c, s, a, b))
    ensures !Parse(c, s, a).0 ==> ParseAll(c, s, [a, b]) == Parse(c, s, a)
    ensures !Parse(c, s, a).0 && !CutMatters(c, s, a, b) ==> Parse(c, s, a + b) == (false, Feed(Parse(c, s, a).1, b))
  {
    TwoCalls(c, s, a, b);
    if Parse(c, s, a).0 { SplitAccepted(c, s, a, b); } else { SplitRefused(c, s, a, b); }
  }

  lemma ClosedCut(c: Config, s: State, b: string)
    requires Accepting(c) && s.phase != Opening && !s.valid && Drive(c, s).0 && Drive(c, s).1.valid
    ensures var t := Drive(c, s).1;
            && Drive(c, Feed(s, b)) == (true, t)
            && (Drive(c, Feed(t, b)) == (true, t) <==> b == "" || At(b, 0, CLOSE))
  {
    CutAccepted(c, s, b);
    ClosedIsEmpty(c, s);
    ClosedAgain(c, Drive(c, s).1, b);
  }

  lemma RestingCut(c: Config, s: State, b: string)
    requires Accepting(c) && s.phase != Opening && !s.valid && Drive(c, s).0 && !Drive(c, s).1.valid
    ensures var t := Drive(c, s).1;
            var two, one := Drive(c, Feed(t, b)), Drive(c, Feed(s, b));
            if StopsAfterLine(c, s) && Find(t.buf + b, CRLF) > HEADER_MAX
            then two != one && !SameOutcome(two, one) else two == one
  {
    CutExact(c, s, b);
    if StopsAfterLine(c, s) && Find(Drive(c, s).1.buf + b, CRLF) > HEADER_MAX { CutLoses(c, s, b); }
  }

  /** Such a case: a second header line over the limit passes when it arrives together
      with the first one, and is refused when the pieces part before its end. */
  lemma LimitDependsOnSplit(c: Config, line: string)
    requires |line| > HEADER_MAX && CR !in line
    ensures var s, a, b := State(Headers(true), "", NO_FILE, false, []), "x" + CRLF + line, CRLF;
            && Parse(c, s, a + b).0
            && Parse(c, s, a).0 && !Parse(c, Parse(c, s, a).1, b).0
  {
    var s, a := State(Headers(true), "", NO_FILE, false, []), "x" + CRLF + line;
    var s1 := State(Headers(false), line, ApplyHeader(c, NO_FILE, "x"), false, []);
    var t := s1.(phase := Headers(true));
    assert Parse(c, s, a) == (true, t) by {
      assert Feed(s, a).buf == "x" + CRLF + line;
      HeaderTurn(c, Feed(s, a), "x", line);
      assert Step(c, Feed(s, a)) == Go(s1);
      HeaderWaits(c, s1);
      assert Drive(c, s1) == (true, t);
    }
    assert Parse(c, s, a + CRLF).0 by {
      assert Feed(s, a + CRLF).buf == "x" + CRLF + (line + CRLF);
      HeaderTurn(c, Feed(s, a + CRLF), "x", line + CRLF);
      var s2 := Feed(s1, CRLF);
      assert s2.buf == line + CRLF + "";
      HeaderTurn(c, s2, line, "");
      assert Drive(c, s2).0;
    }
    assert !Parse(c, t, CRLF).0 by {
      assert Feed(t, CRLF).buf == line + CRLF + "";
      LineFound(line, "");
    }
  }

  lemma LineAccepted(c: Config, s: State, line: string)
    requires s == State(Headers(true), "", NO_FILE, false, []) && 0 < |line| <= HEADER_MAX && CR !in line
    ensures Parse(c, s, line + CRLF).0
  {
    var f := Feed(s, line + CRLF);
    assert f.buf == line + CRLF + "";
    HeaderTurn(c, f, line, "");
    var next := Step(c, f).next;
    assert next.buf == "" && Drive(c, next).0;
  }

  /** Another: a first header line of exactly the limit passes in one piece, and is refused when its
      line end is cut in two. */
  lemma LineEndSplit(c: Config, line: string)
    requires |line| == HEADER_MAX && CR !in line
    ensures var s, a, b := State(Headers(true), "", NO_FILE, false, []), line + "\r", "\n";
            && Parse(c, s, a + b).0
            && !Parse(c, s, a).0 && !ParseAll(c, s, [a, b]).0
  {
    var s, a := State(Headers(true), "", NO_FILE, false, []), line + "\r";
    LineAccepted(c, s, line);
    assert a + "\n" == line + CRLF && Feed(s, a).buf == a;
    forall i | 0 <= i < |a| ensures !At(a, i, CRLF) {
      if i + 2 <= |a| { assert a[i..i + 2][0] == a[i] == line[i]; }
    }
    FindNone(a, CRLF);
    assert Parse(c, s, a) == (false, Feed(s, a));
    TwoCalls(c, s, a, "\n");
  }
}

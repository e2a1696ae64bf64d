/** The incremental multipart/form-data parser: the machine it implements and the class over
    its sliding buffer. */
module Multipart {
  import opened Wrappers
  import opened Text

  const HEADER_MAX: nat := 8192
  const CLOSE := "--\r\n"
  const CONTENT_TYPE := "content-type:"

  datatype FileInfo = FileInfo(name: string, filename: string, contentType: string)

  const NO_FILE := FileInfo("", "", "")

  /** What the callbacks have received; content is recorded byte by byte, so two logs are equal
      exactly when the headers and the concatenated contents are. */
  datatype Event = Head(file: FileInfo) | Data(b: char)

  /** The boundary and the parts of the environment the parser calls out to. `disposition`
      stands for the regular expression on Content-Disposition lines. */
  datatype Config = Config(boundary: string,
                           disposition: string -> Option<(string, string)>,
                           acceptHead: FileInfo -> bool,
                           acceptData: string -> bool)
  {
    function Opener(): string { "--" + boundary + CRLF }
    function Delimiter(): string { CRLF + "--" + boundary }
  }

  /** The five values of the source's state, in order. `Headers(unchecked)` is state 2: the line
      length limit is looked at on entering the state, not between two lines read in one go. */
  datatype Phase = Opening | Entry | Headers(unchecked: bool) | Body | Boundary

  datatype State = State(phase: Phase, buf: string, file: FileInfo, valid: bool, out: seq<Event>)

  datatype Outcome = Go(next: State) | Stop(ok: bool, last: State)

  function Lower(c: char): char {
    if 'A' <= c <= 'Z' then (c as int + 32) as char else c
  }

  predicate StartsCaseless(a: string, b: string) {
    |a| >= |b| && forall i | 0 <= i < |b| :: Lower(a[i]) == Lower(b[i])
  }

  function ApplyHeader(c: Config, file: FileInfo, line: string): FileInfo {
    if StartsCaseless(line, CONTENT_TYPE) then
      file.(contentType := TrimCopy(line[|CONTENT_TYPE|..]))
    else
      match c.disposition(line)
      case Some(m) => file.(name := m.0, filename := m.1)
      case None => file
  }

  function DataEvents(s: string): seq<Event> {
    seq(|s|, i requires 0 <= i < |s| => Data(s[i]))
  }

  /** The phase a stored state number stands for between two calls. */
  function PhaseOf(n: nat): Phase {
    if n == 0 then Opening else if n == 1 then Entry else if n == 2 then Headers(true)
    else if n == 3 then Body else Boundary
  }

  function Rest(p: Phase): Phase {
    if p.Headers? then Headers(true) else p
  }

  function StepOpening(c: Config, s: State): Outcome {
    var b := s.buf[Find(s.buf, c.Opener())..];
    if |c.Opener()| > |b| then Stop(true, s.(buf := b))
    else if !At(b, 0, c.Opener()) then Stop(false, s.(buf := b))
    else Go(s.(phase := Entry, buf := b[|c.Opener()|..]))
  }

  function StepHeaders(c: Config, s: State, unchecked: bool): Outcome {
    var pos := Find(s.buf, CRLF);
    if unchecked && pos > HEADER_MAX then Stop(false, s)
    else if pos == |s.buf| then Stop(true, s.(phase := Headers(true)))
    else TakeLine(c, s, s.buf[..pos], s.buf[pos + |CRLF|..])
  }

  /** A complete line: the empty one announces the part, any other is interpreted. */
  function TakeLine(c: Config, s: State, line: string, rest: string): Outcome {
    if line != "" then Go(s.(phase := Headers(false), buf := rest, file := ApplyHeader(c, s.file, line)))
    else if c.acceptHead(s.file) then Go(s.(phase := Body, buf := rest, out := s.out + [Head(s.file)]))
    else Stop(false, s.(phase := Headers(true), valid := false, out := s.out + [Head(s.file)]))
  }

  /** Content up to a delimiter is handed over; `rest` follows the delimiter. */
  function HandLast(c: Config, s: State, data: string, rest: string): Outcome {
    var o := s.out + DataEvents(data);
    if c.acceptData(data) then Go(s.(phase := Boundary, buf := rest, out := o))
    else Stop(false, s.(valid := false, out := o))
  }

  /** Content is handed over while no delimiter is in sight; `rest` is retained. */
  function HandSome(c: Config, s: State, data: string, rest: string): Outcome {
    var o := s.out + DataEvents(data);
    if data == "" || c.acceptData(data) then Stop(true, s.(buf := rest, out := o))
    else Stop(false, s.(valid := false, out := o))
  }

  function StepBody(c: Config, s: State): Outcome { SeekDelimiter(c, s, c.Delimiter()) }

  function SeekDelimiter(c: Config, s: State, d: string): Outcome
    requires d != ""
  {
    if |d| > |s.buf| then Stop(true, s)
    else
      var (found, data, rest) := CutAt(s.buf, Find(s.buf, d), |d|);
      if found then HandLast(c, s, data, rest) else HandSome(c, s, data, rest)
  }

  /** What lies before and after a delimiter of length `width` at `pos`; when `pos` says there is
      none, all but the last `width` bytes and those. */
  function CutAt(buf: string, pos: nat, width: nat): (bool, string, string)
    requires width <= |buf| && (pos < |buf| ==> pos + width <= |buf|)
  {
    if pos < |buf| then (true, buf[..pos], buf[pos + width..])
    else (false, buf[..|buf| - width], buf[|buf| - width..])
  }

  function StepBoundary(s: State): Outcome {
    if 2 > |s.buf| then Stop(true, s)
    else if At(s.buf, 0, CRLF) then Go(s.(phase := Entry, buf := s.buf[2..]))
    else if 4 > |s.buf| then Stop(true, s)
    else if At(s.buf, 0, CLOSE) then Go(s.(valid := true, buf := ""))
    else Stop(true, s)
  }

  /** One turn of the parsing loop on a non-empty buffer. */
  function Step(c: Config, s: State): Outcome {
    match s.phase
    case Opening => StepOpening(c, s)
    case Entry => Go(s.(phase := Headers(true), file := NO_FILE))
    case Headers(unchecked) => StepHeaders(c, s, unchecked)
    case Body => StepBody(c, s)
    case Boundary => StepBoundary(s)
  }

  /** A turn that goes on uses bytes up, or leaves the entry state. */
  lemma GoLowers(c: Config, s: State)
    requires s.buf != "" && Step(c, s).Go?
    ensures var next := Step(c, s).next;
            |next.buf| < |s.buf| || (|next.buf| == |s.buf| && s.phase.Entry? && !next.phase.Entry?)
  {
    match s.phase
    case Opening => assert |c.Opener()| > 0;
    case Entry =>
    case Headers(unchecked) =>
    case Body => assert |c.Delimiter()| > 0;
    case Boundary =>
  }

  /** The loop: turns are taken while bytes are left and none asks for more or gives up. */
  function Drive(c: Config, s: State): (bool, State)
    decreases |s.buf|, s.phase.Entry?
  {
    if s.buf == "" then (true, s.(phase := Rest(s.phase)))
    else
      match Step(c, s)
      case Go(next) => GoLowers(c, s); Drive(c, next)
      case Stop(ok, last) => (ok, last)
  }

  /** One call of a callback. */
  datatype Call = HeaderCall(file: FileInfo) | ContentCall(data: string)

  /** What the next turn hands over, read off the unread bytes: the part at its empty line, or the
      content in front of a delimiter, or all that cannot belong to one. */
  function CallsNow(c: Config, s: State): seq<Call> {
    if s.phase.Headers? then (if At(s.buf, 0, CRLF) then [HeaderCall(s.file)] else [])
    else if s.phase.Body? then ContentNow(s.buf, c.Delimiter())
    else []
  }

  function ContentNow(buf: string, d: string): seq<Call>
    requires d != ""
  {
    if |buf| < |d| then []
    else if Find(buf, d) < |buf| then [ContentCall(buf[..Find(buf, d)])]
    else if |buf| > |d| then [ContentCall(buf[..|buf| - |d|])]
    else []
  }

  /** The calls of a whole run of the loop, in order. */
  function Calls(c: Config, s: State): seq<Call>
    decreases |s.buf|, s.phase.Entry?
  {
    if s.buf == "" then []
    else
      match Step(c, s)
      case Go(next) => GoLowers(c, s); CallsNow(c, s) + Calls(c, next)
      case Stop(_, _) => CallsNow(c, s)
  }

  function CallsAfter(c: Config, turn: Outcome): seq<Call> {
    if turn.Go? then Calls(c, turn.next) else []
  }

  lemma BodyTurn(c: Config, s: State, d: string, pos: nat)
    requires d == c.Delimiter() && |d| <= |s.buf| && pos == Find(s.buf, d)
    ensures pos < |s.buf| ==>
              && StepBody(c, s) == HandLast(c, s, s.buf[..pos], s.buf[pos + |d|..])
              && ContentNow(s.buf, d) == [ContentCall(s.buf[..pos])]
    ensures pos >= |s.buf| ==>
              var len := |s.buf| - |d|;
              && StepBody(c, s) == HandSome(c, s, s.buf[..len], s.buf[len..])
              && ContentNow(s.buf, d) == if len > 0 then [ContentCall(s.buf[..len])] else []
  {
  }

  lemma TurnTaken(c: Config, s: State, made: seq<Call>, more: bool, done: bool, t: State)
    requires s.buf != "" && Step(c, s) == if more then Go(t) else Stop(done, t)
    ensures Drive(c, s) == if more then Drive(c, t) else (done, t)
    ensures made + Calls(c, s) == made + CallsNow(c, s) + if more then Calls(c, t) else []
  {
    CallsTurn(c, s, made);
  }

  lemma CallsTurn(c: Config, s: State, made: seq<Call>)
    requires s.buf != ""
    ensures made + Calls(c, s) == made + CallsNow(c, s) + CallsAfter(c, Step(c, s))
  {
    Assoc(made, CallsNow(c, s), CallsAfter(c, Step(c, s)));
    assert CallsNow(c, s) + [] == CallsNow(c, s);
  }

  lemma EmptyLine(buf: string)
    requires buf != ""
    ensures Find(buf, CRLF) == 0 <==> At(buf, 0, CRLF)
  {
  }

  lemma PartCalls(c: Config, s: State, made: seq<Call>)
    requires s.phase.Headers? && s.buf != "" && Find(s.buf, CRLF) == 0
    ensures made + Calls(c, s) == made + [HeaderCall(s.file)] + CallsAfter(c, Step(c, s))
  {
    EmptyLine(s.buf);
    CallsTurn(c, s, made);
  }

  lemma LineCalls(c: Config, s: State, next: State, made: seq<Call>)
    requires s.phase.Headers? && s.buf != "" && Find(s.buf, CRLF) > 0 && Step(c, s) == Go(next)
    ensures made + Calls(c, next) == made + Calls(c, s)
  {
    EmptyLine(s.buf);
    TurnTaken(c, s, made, true, true, next);
    NothingMore(made);
  }

  lemma NothingMore(made: seq<Call>)
    ensures made + [] == made
  {
  }

  lemma NoCalls(c: Config, s: State, made: seq<Call>)
    requires s.phase.Headers? && (s.buf != "" ==> Find(s.buf, CRLF) > 0 && Step(c, s).Stop?)
    ensures made + Calls(c, s) == made
  {
    NothingMore(made);
    if s.buf != "" {
      EmptyLine(s.buf);
      CallsTurn(c, s, made);
    }
  }

  function Feed(s: State, data: string): State { s.(buf := s.buf + data) }

  /** One call of parse. */
  function Parse(c: Config, s: State, data: string): (bool, State) {
    Drive(c, Feed(s, data))
  }

  /** The parser object: `buf[bufSpos..bufEpos]` is what has been received and not yet used. */
  class MultipartFormDataParser {
    var boundary: string
    var dashBoundaryCrlf: string
    var crlfDashBoundary: string
    var state: nat
    var isValid: bool
    var file: FileInfo
    var buf: seq<char>
    var bufSpos: nat
    var bufEpos: nat
    ghost var out: seq<Event>
    ghost var calls: seq<Call>

    ghost predicate Valid()
      reads this
    {
      && bufSpos <= bufEpos <= |buf| && state <= 4
      && dashBoundaryCrlf == "--" + boundary + CRLF && crlfDashBoundary == CRLF + "--" + boundary
    }

    ghost function Unread(): string
      reads this
      requires Valid()
    {
      buf[bufSpos..bufEpos]
    }

    ghost function Abs(): State
      reads this
      requires Valid()
    {
      State(PhaseOf(state), Unread(), file, isValid, out)
    }

    constructor ()
      ensures Valid() && boundary == "" && Abs() == State(Opening, "", NO_FILE, false, [])
    {
      boundary, dashBoundaryCrlf, crlfDashBoundary := "", "--\r\n", "\r\n--";
      state, isValid, file, out := 0, false, NO_FILE, [];
      buf, bufSpos, bufEpos := "", 0, 0;
      calls := [];
    }

    method SetBoundary(b: string)
      requires Valid()
      modifies this`boundary, this`dashBoundaryCrlf, this`crlfDashBoundary
      ensures Valid() && boundary == b && Abs() == old(Abs())
    {
      boundary := b;
      dashBoundaryCrlf := "--" + boundary + CRLF;
      crlfDashBoundary := CRLF + "--" + boundary;
    }

    static method StartWith(a: seq<char>, spos: nat, epos: nat, b: string) returns (r: bool)
      requires spos <= epos <= |a|
      ensures r == At(a[spos..epos], 0, b)
    {
      if epos - spos < |b| { return false; }
      ghost var u := a[spos..epos];
      for i := 0 to |b|
        invariant forall k | 0 <= k < i :: u[k] == b[k]
      {
        if a[spos + i] != b[i] {
          assert u[0..|b|][i] == a[spos + i];
          return false;
        }
      }
      assert u[0..|b|] == b;
      return true;
    }

    static method StartWithCaseIgnore(a: string, b: string) returns (r: bool)
      ensures r == StartsCaseless(a, b)
    {
      if |a| < |b| { return false; }
      for i := 0 to |b|
        invariant forall k | 0 <= k < i :: Lower(a[k]) == Lower(b[k])
      {
        if Lower(a[i]) != Lower(b[i]) { return false; }
      }
      return true;
    }

    /** Scans for the first character of `s`, then compares, then resumes one further. */
    method BufFind(s: string) returns (pos: nat)
      requires Valid() && s != ""
      ensures pos == Find(Unread(), s)
    {
      ghost var u := Unread();
      var off := bufSpos;
      while off < bufEpos
        invariant bufSpos <= off <= bufEpos
        invariant forall i | 0 <= i < off - bufSpos :: !At(u, i, s)
      {
        var p := off;
        while p != bufEpos && buf[p] != s[0]
          invariant off <= p <= bufEpos
          invariant forall i | 0 <= i < p - bufSpos :: !At(u, i, s)
          decreases bufEpos - p
        {
          assert u[p - bufSpos] == buf[p];
          p := p + 1;
        }
        if p == bufEpos || |s| > bufEpos - p {
          FindNone(u, s);
          return bufEpos - bufSpos;
        }
        var here := StartWith(buf, p, bufEpos, s);
        assert buf[p..bufEpos] == u[p - bufSpos..];
        AtDrop(u, p - bufSpos, 0, s);
        if here {
          FindIs(u, s, p - bufSpos);
          return p - bufSpos;
        }
        off := p + 1;
      }
      FindNone(u, s);
      return bufEpos - bufSpos;
    }

    /** Moves the unread bytes to the front of the buffer, grows it if needed, and adds `data`. */
    method BufAppend(data: string)
      requires Valid()
      modifies this`buf, this`bufSpos, this`bufEpos
      ensures Valid() && Unread() == old(Unread()) + data && |buf| >= old(|buf|)
    {
      var remaining := bufEpos - bufSpos;
      ShiftDown();
      if remaining + |data| > |buf| {
        buf := buf + seq(remaining + |data| - |buf|, _ => '\0');
      }
      ghost var kept := buf[..remaining];
      for i := 0 to |data|
        invariant |buf| >= remaining + |data| && |buf| >= old(|buf|)
        invariant bufSpos == 0 && bufEpos == remaining
        invariant forall k | 0 <= k < remaining :: buf[k] == kept[k]
        invariant forall k | 0 <= k < i :: buf[remaining + k] == data[k]
      {
        buf := buf[bufEpos + i := data[i]];
      }
      assert buf[..remaining] == kept && buf[remaining..remaining + |data|] == data;
      bufEpos := bufEpos + |data|;
    }

    /** The first half of an append: unread bytes are copied down one by one. */
    method ShiftDown()
      requires Valid()
      modifies this`buf, this`bufSpos, this`bufEpos
      ensures Valid() && bufSpos == 0 && Unread() == old(Unread()) && |buf| == old(|buf|)
    {
      var remaining := bufEpos - bufSpos;
      if remaining > 0 && bufSpos > 0 {
        for i := 0 to remaining
          invariant |buf| == old(|buf|) && bufSpos == old(bufSpos) && bufEpos == old(bufEpos)
          invariant forall k | 0 <= k < i :: buf[k] == old(buf)[bufSpos + k]
          invariant forall k | bufSpos + i <= k < bufEpos :: buf[k] == old(buf)[k]
        {
          buf := buf[i := buf[bufSpos + i]];
        }
      }
      bufSpos, bufEpos := 0, remaining;
    }

    method BufErase(size: nat)
      requires Valid() && size <= bufEpos - bufSpos
      modifies this`bufSpos
      ensures Valid() && Unread() == old(Unread())[size..]
    {
      bufSpos := bufSpos + size;
    }

    method BufStartWith(s: string) returns (r: bool)
      requires Valid()
      ensures r == At(Unread(), 0, s)
    {
      r := StartWith(buf, bufSpos, bufEpos, s);
    }

    /** Interprets one header line. */
    method ParseHeaderLine(ghost c: Config, header: string,
                           disposition: string -> Option<(string, string)>)
      requires c.disposition == disposition
      modifies this`file
      ensures file == ApplyHeader(c, old(file), header)
    {
      var isType := StartWithCaseIgnore(header, CONTENT_TYPE);
      if isType {
        var value := header[|CONTENT_TYPE|..];
        var l, r := Trim(value, 0, |value|);
        file := file.(contentType := if l <= r then value[l..r] else "");
      } else {
        match disposition(header) {
          case Some(m) => file := file.(name := m.0, filename := m.1);
          case None =>
        }
      }
    }

    /** Consumes one complete header line, the turn of state 2 that stays there. */
    method TakeHeaderLine(ghost c: Config, pos: nat, disposition: string -> Option<(string, string)>)
      requires Valid() && state == 2 && 0 < pos == Find(Unread(), CRLF) < |Unread()|
      requires c.disposition == disposition
      modifies this`bufSpos, this`file
      ensures Valid() && state == 2 && |Unread()| < old(|Unread()|)
      ensures forall k: bool | k ==> pos <= HEADER_MAX ::
                Step(c, old(Abs()).(phase := Headers(k))) == Go(Abs().(phase := Headers(false)))
    {
      var header := buf[bufSpos..bufSpos + pos];
      assert header == Unread()[..pos];
      ParseHeaderLine(c, header, disposition);
      BufErase(pos + 2);
    }

    /** Consumes the empty line that ends the headers and announces the part. */
    method EndHeaders(ghost c: Config, headerCallback: FileInfo -> bool) returns (ok: bool)
      requires Valid() && state == 2 && Unread() != "" && Find(Unread(), CRLF) == 0
      requires c.acceptHead == headerCallback
      modifies this`bufSpos, this`state, this`isValid, this`out, this`calls
      ensures Valid() && (ok ==> |Unread()| < old(|Unread()|))
      ensures calls == old(calls) + [HeaderCall(old(file))]
      ensures forall k :: Step(c, old(Abs()).(phase := Headers(k))) ==
                          if ok then Go(Abs()) else Stop(false, Abs())
    {
      out, calls := out + [Head(file)], calls + [HeaderCall(file)];
      ok := headerCallback(file);
      if !ok {
        isValid := false;
        return;
      }
      BufErase(2);
      state := 3;
    }

    /** State 2: consumes header lines until the empty one or until a line is incomplete. */
    method ParseHeaders(ghost c: Config, disposition: string -> Option<(string, string)>,
                        headerCallback: FileInfo -> bool)
      returns (more: bool, ok: bool)
      requires Valid() && state == 2 && Unread() != "" && c.boundary == boundary
      requires c.disposition == disposition && c.acceptHead == headerCallback
      modifies this`bufSpos, this`state, this`isValid, this`file, this`out, this`calls
      ensures Valid() && (more ==> |Unread()| < old(|Unread()|))
      ensures Drive(c, old(Abs())) == if more then Drive(c, Abs()) else (ok, Abs())
      ensures old(calls) + Calls(c, old(Abs())) == calls + if more then Calls(c, Abs()) else []
    {
      ghost var goal, all := Drive(c, Abs()), calls + Calls(c, Abs());
      var pos := BufFind(CRLF);
      if pos > HEADER_MAX {
        NoCalls(c, Abs(), calls);
        return false, false;
      }
      ghost var here := Abs();
      while pos < bufEpos - bufSpos
        invariant Valid() && state == 2 && pos == Find(Unread(), CRLF)
        invariant here.phase.Headers? && Abs() == here.(phase := Headers(true))
        invariant here.phase.unchecked ==> pos <= HEADER_MAX && here.buf != ""
        invariant |Unread()| <= old(|Unread()|) && Drive(c, here) == goal && calls + Calls(c, here) == all
        decreases bufEpos - bufSpos
      {
        ghost var before := here;
        if pos == 0 {
          PartCalls(c, here, calls);
          ok := EndHeaders(c, headerCallback);
          return ok, ok;
        }
        TakeHeaderLine(c, pos, disposition);
        here := Abs().(phase := Headers(false));
        LineCalls(c, before, here, calls);
        pos := BufFind(CRLF);
      }
      NoCalls(c, here, calls);
      return false, true;
    }

    /** Hands `data` to the content callback; a refusal makes the body invalid. */
    method Deliver(data: string, contentCallback: string -> bool) returns (taken: bool)
      modifies this`isValid, this`out, this`calls
      ensures taken == contentCallback(data) && out == old(out) + DataEvents(data)
      ensures calls == old(calls) + [ContentCall(data)]
      ensures isValid == (old(isValid) && taken)
    {
      out, calls := out + DataEvents(data), calls + [ContentCall(data)];
      taken := contentCallback(data);
      if !taken { isValid := false; }
    }

    /** State 3: hands over content up to the delimiter, or all but a delimiter's length. */
    method ParseBody(ghost c: Config, contentCallback: string -> bool) returns (more: bool, ok: bool)
      requires Valid() && state == 3 && Unread() != "" && c.boundary == boundary
      requires c.acceptData == contentCallback
      modifies this`bufSpos, this`state, this`isValid, this`out, this`calls
      ensures Valid() && (more ==> |Unread()| < old(|Unread()|))
      ensures StepBody(c, old(Abs())) == if more then Go(Abs()) else Stop(ok, Abs())
      ensures calls == old(calls) + ContentNow(old(Unread()), c.Delimiter())
    {
      if |crlfDashBoundary| > bufEpos - bufSpos { return false, true; }
      var pos := BufFind(crlfDashBoundary);
      BodyTurn(c, Abs(), crlfDashBoundary, pos);
      if pos < bufEpos - bufSpos {
        ok := HandUpTo(c, contentCallback, pos);
        more := ok;
      } else {
        ok := HandAllBut(c, contentCallback);
        more := false;
      }
    }

    method HandUpTo(ghost c: Config, contentCallback: string -> bool, pos: nat) returns (ok: bool)
      requires Valid() && state == 3 && c.acceptData == contentCallback
      requires pos + |crlfDashBoundary| <= |Unread()|
      modifies this`bufSpos, this`state, this`isValid, this`out, this`calls
      ensures Valid() && (ok ==> |Unread()| < old(|Unread()|))
      ensures calls == old(calls) + [ContentCall(old(Unread())[..pos])]
      ensures HandLast(c, old(Abs()), old(Unread())[..pos], old(Unread())[pos + |crlfDashBoundary|..])
           == if ok then Go(Abs()) else Stop(false, Abs())
    {
      var data := buf[bufSpos..bufSpos + pos];
      assert data == Unread()[..pos];
      ok := Deliver(data, contentCallback);
      if ok {
        BufErase(pos + |crlfDashBoundary|);
        state := 4;
      }
    }

    method HandAllBut(ghost c: Config, contentCallback: string -> bool) returns (ok: bool)
      requires Valid() && state == 3 && c.acceptData == contentCallback && |crlfDashBoundary| <= |Unread()|
      modifies this`bufSpos, this`isValid, this`out, this`calls
      ensures Valid()
      ensures var len := old(|Unread()|) - |crlfDashBoundary|;
              calls == old(calls) + if len > 0 then [ContentCall(old(Unread())[..len])] else []
      ensures var len := old(|Unread()|) - |crlfDashBoundary|;
              HandSome(c, old(Abs()), old(Unread())[..len], old(Unread())[len..]) == Stop(ok, Abs())
    {
      var len := bufEpos - bufSpos - |crlfDashBoundary|;
      ok := true;
      if len > 0 {
        var data := buf[bufSpos..bufSpos + len];
        assert data == Unread()[..len];
        ok := Deliver(data, contentCallback);
        if ok { BufErase(len); }
      }
    }

    /** State 4: a line end starts the next part, the closing mark ends the body. */
    method ParseBoundary(ghost c: Config) returns (more: bool)
      requires Valid() && state == 4 && Unread() != ""
      modifies this`bufSpos, this`state, this`isValid
      ensures Valid() && (more ==> |Unread()| < old(|Unread()|))
      ensures Step(c, old(Abs())) == if more then Go(Abs()) else Stop(true, Abs())
    {
      if 2 > bufEpos - bufSpos { return false; }
      var next := BufStartWith(CRLF);
      if next {
        BufErase(2);
        state := 1;
        return true;
      }
      if 4 > bufEpos - bufSpos { return false; }
      var last := BufStartWith(CLOSE);
      if !last { return false; }
      BufErase(4);
      isValid := true;
      BufErase(bufEpos - bufSpos);
      return true;
    }

    /** State 0: looks for the opening line and throws away what stands before it. */
    method ParseOpening(ghost c: Config) returns (more: bool, ok: bool)
      requires Valid() && state == 0 && Unread() != "" && c.boundary == boundary
      modifies this`bufSpos, this`state
      ensures Valid() && (more ==> |Unread()| < old(|Unread()|))
      ensures Step(c, old(Abs())) == if more then Go(Abs()) else Stop(ok, Abs())
    {
      var pos := BufFind(dashBoundaryCrlf);
      BufErase(pos);
      if |dashBoundaryCrlf| > bufEpos - bufSpos { return false, true; }
      var here := BufStartWith(dashBoundaryCrlf);
      if !here { return false, false; }
      BufErase(|dashBoundaryCrlf|);
      state := 1;
      return true, true;
    }

    /** State 1: forgets the previous part. */
    method StartEntry(ghost c: Config)
      requires Valid() && state == 1
      modifies this`file, this`state
      ensures Valid() && state == 2
      ensures Step(c, old(Abs())) == Go(Abs()) && Unread() == old(Unread())
    {
      file := NO_FILE;
      state := 2;
    }

    /** One turn of the loop outside state 2. */
    method TakeTurn(ghost c: Config, contentCallback: string -> bool) returns (more: bool, done: bool)
      requires Valid() && Unread() != "" && state != 2 && c.boundary == boundary && c.acceptData == contentCallback
      modifies this
      ensures Valid() && boundary == old(boundary)
      ensures more ==> |Unread()| < old(|Unread()|) || (Unread() == old(Unread()) && old(state) == 1 && state != 1)
      ensures Step(c, old(Abs())) == if more then Go(Abs()) else Stop(done, Abs())
      ensures calls == old(calls) + CallsNow(c, old(Abs()))
    {
      done := true;
      if state == 0 {
        more, done := ParseOpening(c);
      } else if state == 1 {
        StartEntry(c);
        more := true;
      } else if state == 3 {
        more, done := ParseBody(c, contentCallback);
      } else {
        more := ParseBoundary(c);
      }
    }

    /** One turn, or in state 2 as many as there are complete lines. */
    method ParseTurn(ghost c: Config, disposition: string -> Option<(string, string)>,
                     contentCallback: string -> bool, headerCallback: FileInfo -> bool)
      returns (more: bool, done: bool)
      requires Valid() && Unread() != "" && c == Config(boundary, disposition, headerCallback, contentCallback)
      modifies this
      ensures Valid() && boundary == old(boundary)
      ensures more ==> |Unread()| < old(|Unread()|) || (Unread() == old(Unread()) && old(state) == 1 && state != 1)
      ensures Drive(c, old(Abs())) == if more then Drive(c, Abs()) else (done, Abs())
      ensures old(calls) + Calls(c, old(Abs())) == calls + if more then Calls(c, Abs()) else []
    {
      if state == 2 {
        more, done := ParseHeaders(c, disposition, headerCallback);
      } else {
        ghost var s, made := Abs(), calls;
        more, done := TakeTurn(c, contentCallback);
        TurnTaken(c, s, made, more, done, Abs());
      }
    }

    /** The whole of parse. */
    method ParseBytes(data: string, disposition: string -> Option<(string, string)>,
                      contentCallback: string -> bool, headerCallback: FileInfo -> bool)
      returns (ok: bool)
      requires Valid()
      modifies this
      ensures Valid() && boundary == old(boundary)
      ensures (ok, Abs()) ==
              Parse(Config(boundary, disposition, headerCallback, contentCallback), old(Abs()), data)
      ensures var c := Config(boundary, disposition, headerCallback, contentCallback);
              calls == old(calls) + Calls(c, Feed(old(Abs()), data))
    {
      ghost var c := Config(boundary, disposition, headerCallback, contentCallback);
      BufAppend(data);
      while bufEpos - bufSpos > 0
        invariant Valid() && boundary == old(boundary)
        invariant Drive(c, Abs()) == Parse(c, old(Abs()), data)
        invariant calls + Calls(c, Abs()) == old(calls) + Calls(c, Feed(old(Abs()), data))
        decreases bufEpos - bufSpos, state == 1
      {
        var more, done := ParseTurn(c, disposition, contentCallback, headerCallback);
        if !more { return done; }
      }
      return true;
    }
  }
}

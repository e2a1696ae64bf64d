/** The multipart serializer, and what the parser makes of its output. */
module MultipartRoundTrip {
  import opened Wrappers
  import opened Text
  import opened Multipart
  import opened MultipartSplit

  datatype Item = Item(name: string, content: string, filename: string, contentType: string)

  predicate BoundaryOk(boundary: string) {
    forall i | 0 <= i < |boundary| :: IsAlnum(boundary[i]) || boundary[i] == '-' || boundary[i] == '_'
  }

  const DISPOSITION := "Content-Disposition:" + (" " + ("form-data;" + (" " + "name=\"")))

  const FILE_FIELD := ";" + (" " + "filename=\"")

  function DispositionLine(item: Item): string {
    DISPOSITION + item.name + "\"" +
    (if item.filename != "" then FILE_FIELD + item.filename + "\"" else "")
  }

  function TypeLine(item: Item): string { "Content-Type: " + item.contentType }

  /** Header lines and the empty line after them. */
  function HeaderBlock(item: Item): string {
    DispositionLine(item) + CRLF +
    (if item.contentType != "" then TypeLine(item) + CRLF else "") +
    CRLF
  }

  function Parts(boundary: string, items: seq<Item>): string {
    if items == [] then ""
    else
      "--" + boundary + CRLF + HeaderBlock(items[0]) + items[0].content + CRLF +
      Parts(boundary, items[1..])
  }

  function Serialized(boundary: string, items: seq<Item>): string {
    Parts(boundary, items) + "--" + boundary + CLOSE
  }

  lemma {:induction false} PartsSnoc(boundary: string, items: seq<Item>, item: Item)
    ensures Parts(boundary, items + [item]) == Parts(boundary, items) + Parts(boundary, [item])
  {
    if items == [] {
      assert items + [item] == [item];
    } else {
      Assoc("--" + boundary + CRLF + HeaderBlock(items[0]) + items[0].content + CRLF,
            Parts(boundary, items[1..]), Parts(boundary, [item]));
      assert (items + [item])[1..] == items[1..] + [item];
      PartsSnoc(boundary, items[1..], item);
    }
  }

  method CheckBoundary(boundary: string) returns (ok: bool)
    ensures ok == BoundaryOk(boundary)
    ensures ok <==> forall i | 0 <= i < |boundary| ::
              || 'a' <= boundary[i] <= 'z' || 'A' <= boundary[i] <= 'Z' || '0' <= boundary[i] <= '9'
              || boundary[i] == '-' || boundary[i] == '_'
  {
    for i := 0 to |boundary|
      invariant forall k | 0 <= k < i ::
                  IsAlnum(boundary[k]) || boundary[k] == '-' || boundary[k] == '_'
    {
      var c := boundary[i];
      if !IsAlnum(c) && c != '-' && c != '_' { return false; }
    }
    return true;
  }

  /** The header lines of one item, appended in the order of the source. */
  method HeaderText(item: Item) returns (h: string)
    ensures h == HeaderBlock(item)
  {
    h := DISPOSITION + item.name + "\"";
    ghost var start := h;
    if item.filename != "" {
      h := h + FILE_FIELD + item.filename + "\"";
      Assoc(start, FILE_FIELD, item.filename);
      Assoc(start, FILE_FIELD + item.filename, "\"");
    } else {
      assert h + "" == h;
    }
    assert h == DispositionLine(item);
    h := h + CRLF;
    ghost var first := h;
    if item.contentType != "" {
      h := h + "Content-Type: " + item.contentType + CRLF;
      Assoc(first, "Content-Type: ", item.contentType);
      Assoc(first, "Content-Type: " + item.contentType, CRLF);
    } else {
      assert h + "" == h;
    }
    h := h + CRLF;
  }

  /** The body that Post sends for `items`, or nothing when the boundary has a forbidden character. */
  method Post(items: seq<Item>, boundary: string) returns (r: Option<string>)
    ensures r == if BoundaryOk(boundary) then Some(Serialized(boundary, items)) else None
  {
    var ok := CheckBoundary(boundary);
    if !ok { return None; }
    var body := "";
    for k := 0 to |items|
      invariant body == Parts(boundary, items[..k])
    {
      var item := items[k];
      var header := HeaderText(item);
      var part := "--" + boundary + CRLF + header + item.content + CRLF;
      body := body + part;
      assert part == Parts(boundary, [item]) by { assert part + "" == part; }
      PartsSnoc(boundary, items[..k], item);
      assert items[..k + 1] == items[..k] + [item];
    }
    assert items[..|items|] == items;
    body := body + "--" + boundary + "--\r\n";
    return Some(body);
  }

  /** The item's header fields hold no carriage return and its header lines are under the limit. */
  ghost predicate Fits(item: Item) {
    && CR !in DispositionLine(item) && CR !in TypeLine(item)
    && |DispositionLine(item)| < HEADER_MAX && |TypeLine(item)| < HEADER_MAX
  }

  /** The content does not contain the delimiter. */
  ghost predicate Unambiguous(c: Config, item: Item) {
    forall i :: !At(item.content, i, c.Delimiter())
  }

  /** What the header callback is told about an item. */
  function Announced(c: Config, item: Item): FileInfo {
    var f := ApplyHeader(c, NO_FILE, DispositionLine(item));
    if item.contentType != "" then ApplyHeader(c, f, TypeLine(item)) else f
  }

  /** Every item's header, then its content, in order. */
  function Delivered(c: Config, items: seq<Item>): seq<Event> {
    if items == [] then []
    else [Head(Announced(c, items[0]))] + DataEvents(items[0].content) + Delivered(c, items[1..])
  }

  /** The serialized body between the opening line and the closing mark. */
  function Inner(c: Config, items: seq<Item>): string
    requires items != []
  {
    HeaderBlock(items[0]) + items[0].content + c.Delimiter() +
    (if |items| > 1 then CRLF + Inner(c, items[1..]) else "")
  }

  lemma {:induction false} SerializedInner(c: Config, items: seq<Item>)
    requires items != []
    ensures Parts(c.boundary, items) + "--" + c.boundary == c.Opener() + Inner(c, items)
  {
    var rest, dashed := items[1..], "--" + c.boundary;
    var x := HeaderBlock(items[0]) + items[0].content;
    var p := Parts(c.boundary, rest);
    Regroup(dashed, CRLF, HeaderBlock(items[0]), items[0].content, p);
    Assoc(Parts(c.boundary, items), "--", c.boundary);
    Assoc(p, "--", c.boundary);
    Assoc(CRLF, "--", c.boundary);
    assert c.Delimiter() == CRLF + dashed && c.Opener() == dashed + CRLF;
    assert Parts(c.boundary, items) + "--" + c.boundary == dashed + CRLF + x + CRLF + p + dashed;
    if |items| > 1 {
      SerializedInner(c, rest);
      assert p + dashed == dashed + CRLF + Inner(c, rest);
      RegroupMore(dashed, CRLF, x, p, Inner(c, rest));
    } else {
      assert rest == [] && p == "";
      RegroupLast(dashed, CRLF, x);
    }
  }

  lemma Regroup(d: string, e: string, h: string, x: string, p: string)
    ensures d + e + h + x + e + p == d + e + (h + x) + e + p
  {
  }

  lemma RegroupMore(d: string, e: string, x: string, p: string, inner: string)
    requires p + d == d + e + inner
    ensures d + e + x + e + p + d == d + e + (x + (e + d) + (e + inner))
  {
    assert d + e + x + e + p + d == d + e + x + e + (p + d);
  }

  lemma RegroupLast(d: string, e: string, x: string)
    ensures d + e + x + e + "" + d == d + e + (x + (e + d) + "")
  {
  }

  /** A delimiter whose first character does not recur in it cannot overlap itself, so after
      content without it the first occurrence is the one that was written. */
  lemma DelimiterFound(x: string, d: string, w: string)
    requires d != "" && (forall i | 0 < i < |d| :: d[i] != d[0]) && (forall i :: !At(x, i, d))
    ensures Find(x + d + w, d) == |x|
  {
    var s := x + d + w;
    assert s[|x|..|x| + |d|] == d;
    forall i | 0 <= i < |x| ensures !At(s, i, d) {
      if i + |d| <= |x| {
        assert s == x + (d + w);
        AtExtend(x, d + w, i, d);
      } else {
        assert s[i..i + |d|][|x| - i] == s[|x|] == d[0];
      }
    }
    FindIs(s, d, |x|);
  }

  lemma DelimiterRigid(c: Config)
    requires BoundaryOk(c.boundary)
    ensures forall i | 0 < i < |c.Delimiter()| :: c.Delimiter()[i] != c.Delimiter()[0]
  {
  }

  lemma NestHeaders(first: string, more: string, rest: string)
    ensures first + more + CRLF + rest == first + (more + CRLF + rest)
  {
  }

  lemma TurnRun(c: Config, s: State, t: State)
    requires s.buf != "" && LineInLimit(s) && Step(c, s) == Go(t)
    ensures SameRun(c, s, t)
  {
  }

  lemma LineRun(c: Config, s: State, line: string, rest: string)
    requires s.phase.Headers? && line != "" && CR !in line && s.buf == line + CRLF + rest && |line| < HEADER_MAX
    ensures SameRun(c, s, s.(phase := Headers(false), buf := rest, file := ApplyHeader(c, s.file, line)))
  {
    HeaderTurn(c, s, line, rest);
    TurnRun(c, s, s.(phase := Headers(false), buf := rest, file := ApplyHeader(c, s.file, line)));
  }

  lemma EmptyLineRun(c: Config, s: State, rest: string)
    requires Accepting(c) && s.phase.Headers? && s.buf == CRLF + rest
    ensures SameRun(c, s, s.(phase := Body, buf := rest, out := s.out + [Head(s.file)]))
  {
    LineFound("", rest);
    assert "" + CRLF + rest == CRLF + rest && (CRLF + rest)[2..] == rest;
    TurnRun(c, s, s.(phase := Body, buf := rest, out := s.out + [Head(s.file)]));
  }

  /** From the start of a part to its announcement. */
  lemma HeaderRun(c: Config, s: State, item: Item, rest: string)
    requires Accepting(c) && Fits(item) && s.phase == Entry && s.buf == HeaderBlock(item) + rest
    ensures SameRun(c, s, State(Body, rest, Announced(c, item), s.valid, s.out + [Head(Announced(c, item))]))
  {
    var l1, l2 := DispositionLine(item), TypeLine(item);
    var more := if item.contentType != "" then l2 + CRLF else "";
    NestHeaders(l1 + CRLF, more, rest);
    var s1 := s.(phase := Headers(true), file := NO_FILE);
    TurnRun(c, s, s1);
    LineRun(c, s1, l1, more + CRLF + rest);
    var s2 := s1.(phase := Headers(false), buf := more + CRLF + rest, file := ApplyHeader(c, NO_FILE, l1));
    var s3 := s2.(buf := CRLF + rest, file := Announced(c, item));
    if item.contentType != "" {
      Assoc(more, CRLF, rest);
      LineRun(c, s2, l2, CRLF + rest);
    } else {
      assert more + CRLF + rest == CRLF + rest;
      assert s2 == s3;
    }
    EmptyLineRun(c, s3, rest);
  }

  /** From the announcement of a part to the delimiter after its content. */
  lemma ContentRun(c: Config, s: State, content: string, w: string)
    requires Accepting(c) && BoundaryOk(c.boundary) && s.phase == Body && s.buf == content + c.Delimiter() + w
    requires forall i :: !At(content, i, c.Delimiter())
    ensures SameRun(c, s, State(Boundary, w, s.file, s.valid, s.out + DataEvents(content)))
  {
    var d := c.Delimiter();
    DelimiterRigid(c);
    DelimiterFound(content, d, w);
    assert s.buf[..|content|] == content && s.buf[|content| + |d|..] == w;
  }

  lemma {:induction false} InnerRun(c: Config, s: State, items: seq<Item>, w: string)
    requires Accepting(c) && BoundaryOk(c.boundary) && items != []
    requires forall item | item in items :: Fits(item) && Unambiguous(c, item)
    requires s.phase == Entry && s.buf == Inner(c, items) + w
    ensures SameRun(c, s, State(Boundary, w, Announced(c, items[|items| - 1]), s.valid,
                                s.out + Delivered(c, items)))
    decreases |items|
  {
    var item, f, rest := items[0], Announced(c, items[0]), items[1..];
    var tail := if |items| > 1 then CRLF + Inner(c, rest) else "";
    Nest(HeaderBlock(item), item.content, c.Delimiter(), tail, w);
    PartRun(c, s, item, tail + w);
    EventsNest(s.out, [Head(f)], DataEvents(item.content), Delivered(c, rest));
    var s2 := State(Boundary, tail + w, f, s.valid, s.out + [Head(f)] + DataEvents(item.content));
    if |items| > 1 {
      Assoc(CRLF, Inner(c, rest), w);
      NextPart(c, s2, Inner(c, rest) + w);
      InnerRun(c, s2.(phase := Entry, buf := Inner(c, rest) + w), rest, w);
    } else {
      assert tail + w == w && rest == [] && Delivered(c, rest) == [];
      assert s2.out == s.out + Delivered(c, items);
    }
  }

  lemma Nest(h: string, x: string, d: string, tail: string, w: string)
    ensures h + x + d + tail + w == h + (x + d + (tail + w))
  {
  }

  lemma EventsNest(o: seq<Event>, h: seq<Event>, d: seq<Event>, more: seq<Event>)
    ensures o + (h + d + more) == o + h + d + more
    ensures more == [] ==> o + h + d == o + (h + d + more)
  {
  }

  lemma PartRun(c: Config, s: State, item: Item, w: string)
    requires Accepting(c) && BoundaryOk(c.boundary) && Fits(item) && Unambiguous(c, item)
    requires s.phase == Entry && s.buf == HeaderBlock(item) + (item.content + c.Delimiter() + w)
    ensures var f := Announced(c, item);
            SameRun(c, s, State(Boundary, w, f, s.valid, s.out + [Head(f)] + DataEvents(item.content)))
  {
    var f, rest := Announced(c, item), item.content + c.Delimiter() + w;
    HeaderRun(c, s, item, rest);
    ContentRun(c, State(Body, rest, f, s.valid, s.out + [Head(f)]), item.content, w);
  }

  lemma NextPart(c: Config, s: State, w: string)
    requires s.phase == Boundary && s.buf == CRLF + w
    ensures SameRun(c, s, s.(phase := Entry, buf := w))
  {
    assert s.buf[0..2] == CRLF && s.buf[2..] == w;
  }

  const INITIAL := State(Opening, "", NO_FILE, false, [])
  const OPENED := State(Entry, "", NO_FILE, false, [])

  ghost predicate Printable(c: Config, items: seq<Item>) {
    BoundaryOk(c.boundary) && items != [] && forall item | item in items :: Fits(item)
  }

  ghost predicate AllUnambiguous(c: Config, items: seq<Item>) {
    forall item | item in items :: Unambiguous(c, item)
  }

  function Finished(c: Config, items: seq<Item>): State
    requires items != []
  {
    State(Boundary, "", Announced(c, items[|items| - 1]), true, Delivered(c, items))
  }

  lemma InnerParse(c: Config, items: seq<Item>, w: string)
    requires Accepting(c) && Printable(c, items) && AllUnambiguous(c, items)
    ensures SameRun(c, Feed(OPENED, Inner(c, items) + w), Finished(c, items).(buf := w, valid := false))
  {
    var s := Inner(c, items) + w;
    FromOpened(s, Delivered(c, items));
    InnerRun(c, Feed(OPENED, s), items, w);
  }

  lemma FromOpened(s: string, more: seq<Event>)
    ensures Feed(OPENED, s) == State(Entry, s, NO_FILE, false, []) && OPENED.out + more == more
  {
    assert "" + s == s;
  }

  /** A beginning of the closing mark waits for the rest of it. */
  lemma PartialClose(c: Config, s: State, k: nat)
    requires s.phase == Boundary && k < |CLOSE| && s.buf == CLOSE[..k]
    ensures Drive(c, s) == (true, s)
  {
    if 2 <= k { assert s.buf[0..2][0] == '-'; }
  }

  lemma FullClose(c: Config, s: State)
    requires s.phase == Boundary && s.buf == CLOSE
    ensures Drive(c, s) == (true, s.(buf := "", valid := true)) && HeadersUnderLimit(c, s)
  {
    assert s.buf[0..2][0] == '-' && s.buf[0..4] == CLOSE;
  }

  lemma SerializedClosesLast(c: Config, items: seq<Item>)
    requires Accepting(c) && Printable(c, items) && AllUnambiguous(c, items)
    ensures ClosesLast(c, OPENED, Inner(c, items) + CLOSE)
  {
    var inner := Inner(c, items);
    InnerParse(c, items, "");
    assert inner + "" == inner;
    forall k | 0 <= k < |inner + CLOSE| ensures !Parse(c, OPENED, (inner + CLOSE)[..k]).1.valid {
      PrefixOfTwo(inner, CLOSE, k);
      if k <= |inner| {
        SplitParse(c, OPENED, inner[..k], inner[k..]);
      } else {
        var j := k - |inner|;
        InnerParse(c, items, CLOSE[..j]);
        PartialClose(c, Finished(c, items).(buf := CLOSE[..j], valid := false), j);
      }
    }
  }

  lemma PrefixOfTwo(x: string, y: string, k: nat)
    requires k <= |x + y|
    ensures k <= |x| ==> (x + y)[..k] == x[..k] && x[..k] + x[k..] == x
    ensures k > |x| ==> (x + y)[..k] == x + y[..k - |x|]
  {
  }

  /** The opening line is consumed and the rest is parsed from the first part on. */
  lemma OpeningRun(c: Config, x: string)
    ensures Parse(c, INITIAL, c.Opener() + x) == Parse(c, OPENED, x)
  {
    var s := Feed(INITIAL, c.Opener() + x);
    assert s.buf[0..|c.Opener()|] == c.Opener() && s.buf[|c.Opener()|..] == x && s.buf[0..] == s.buf;
    assert Step(c, s) == Go(Feed(OPENED, x));
  }

  function Shortened(c: Config, pieces: seq<string>): seq<string>
    requires pieces != [] && |pieces[0]| >= |c.Opener()|
  {
    [pieces[0][|c.Opener()|..]] + pieces[1..]
  }

  lemma FirstPiece(c: Config, pieces: seq<string>, w: string)
    requires pieces != [] && Concat(pieces) == c.Opener() + w && |pieces[0]| >= |c.Opener()|
    ensures Concat(Shortened(c, pieces)) == w
    ensures ParseAll(c, INITIAL, pieces) == ParseAll(c, OPENED, Shortened(c, pieces))
  {
    var o, p, rest := c.Opener(), pieces[0], Concat(pieces[1..]);
    var x := p[|o|..];
    assert (p + rest)[..|o|] == p[..|o|] && (o + w)[..|o|] == o;
    assert p == o + x;
    OpeningRun(c, x);
    assert Shortened(c, pieces)[1..] == pieces[1..];
    assert (p + rest)[|o|..] == x + rest && (o + w)[|o|..] == w;
  }

  /** Parsing undoes serializing, however the body is cut, provided the first piece holds the
      opening line: each part is announced with its header fields, its content follows, the parts
      come in order, and the parser ends valid with nothing left over. */
  lemma RoundTrip(c: Config, items: seq<Item>, pieces: seq<string>)
    requires Accepting(c) && Printable(c, items) && AllUnambiguous(c, items)
    requires pieces != [] && Concat(pieces) == Serialized(c.boundary, items)
    requires |pieces[0]| >= |c.Opener()|
    ensures ParseAll(c, INITIAL, pieces) == (true, Finished(c, items))
  {
    var w := Inner(c, items) + CLOSE;
    SerializedInner(c, items);
    Assoc(c.Opener(), Inner(c, items), CLOSE);
    FirstPiece(c, pieces, w);
    InnerParse(c, items, CLOSE);
    FullClose(c, Finished(c, items).(buf := CLOSE, valid := false));
    SerializedClosesLast(c, items);
    PiecesAreOne(c, OPENED, Shortened(c, pieces));
  }

  /** Content that contains the delimiter is cut short there. */
  lemma Truncated(c: Config, s: State, content: string, w: string)
    requires Accepting(c) && s.phase == Body && s.buf == content + c.Delimiter() + w
    requires exists i :: At(content, i, c.Delimiter())
    ensures forall more :: Drive(c, s).1.out != s.out + DataEvents(content) + more
  {
    var d := c.Delimiter();
    FoundInside(content, d, w);
    var p := Find(content + d + w, d);
    var next := FoundTurn(c, s, p);
    OutputGrows(c, next);
    CutShort(s.out, content, p, next.out, Drive(c, next).1.out);
  }

  lemma FoundInside(content: string, d: string, w: string)
    requires d != "" && exists i :: At(content, i, d)
    ensures Find(content + d + w, d) < |content|
  {
    var s := content + d + w;
    var i :| At(content, i, d);
    assert s == content + (d + w);
    AtExtend(content, d + w, i, d);
    FindFirst(s, d);
  }

  /** What is followed by a header where content should be is not the whole content. */
  lemma CutShort(before: seq<Event>, content: string, p: nat, cut: seq<Event>, all: seq<Event>)
    requires p < |content| && |cut| == |before| + p && cut <= all
    requires |cut| < |all| ==> all[|cut|].Head?
    ensures forall more :: all != before + DataEvents(content) + more
  {
    forall more ensures all != before + DataEvents(content) + more {
      assert (before + DataEvents(content) + more)[|before| + p] == Data(content[p]);
    }
  }

  lemma FoundTurn(c: Config, s: State, p: nat) returns (next: State)
    requires Accepting(c) && s.phase == Body && p == Find(s.buf, c.Delimiter()) < |s.buf|
    ensures Drive(c, s) == Drive(c, next) && next.phase == Boundary
    ensures next.out == s.out + DataEvents(s.buf[..p]) && |next.out| == |s.out| + p
  {
    next := Step(c, s).next;
  }

  /** Every item's content behind some header. */
  function DeliveredAs(heads: seq<FileInfo>, items: seq<Item>): seq<Event>
    requires |heads| == |items|
    decreases |items|
  {
    if items == [] then []
    else [Head(heads[0])] + DataEvents(items[0].content) + DeliveredAs(heads[1..], items[1..])
  }

  lemma HeadDiffers(o: seq<Event>, f: FileInfo, g: FileInfo, more: seq<Event>, all: seq<Event>)
    requires f != g && o + [Head(f)] <= all
    ensures all != o + ([Head(g)] + more)
  {
    assert all[|o|] == Head(f) && (o + ([Head(g)] + more))[|o|] == Head(g);
  }

  /** If some content holds the delimiter the contents do not arrive, whatever the headers. */
  lemma {:induction false} AmbiguousRun(c: Config, s: State, items: seq<Item>, w: string, heads: seq<FileInfo>)
    requires Accepting(c) && Printable(c, items) && !AllUnambiguous(c, items) && |heads| == |items|
    requires s.phase == Entry && s.buf == Inner(c, items) + w
    ensures Drive(c, s).1.out != s.out + DeliveredAs(heads, items)
    decreases |items|
  {
    var item, f, rest := items[0], Announced(c, items[0]), items[1..];
    var tail := if |items| > 1 then CRLF + Inner(c, rest) else "";
    Nest(HeaderBlock(item), item.content, c.Delimiter(), tail, w);
    var body := item.content + c.Delimiter() + (tail + w);
    var t := State(Body, body, f, s.valid, s.out + [Head(f)]);
    HeaderRun(c, s, item, body);
    if heads[0] != f {
      OutputGrows(c, t);
      Assoc([Head(heads[0])], DataEvents(item.content), DeliveredAs(heads[1..], rest));
      HeadDiffers(s.out, f, heads[0], DataEvents(item.content) + DeliveredAs(heads[1..], rest), Drive(c, t).1.out);
    } else {
      EventsNest(s.out, [Head(f)], DataEvents(item.content), DeliveredAs(heads[1..], rest));
      if Unambiguous(c, item) {
        ContentRun(c, t, item.content, tail + w);
        var s2 := State(Boundary, tail + w, f, s.valid, s.out + [Head(f)] + DataEvents(item.content));
        Assoc(CRLF, Inner(c, rest), w);
        NextPart(c, s2, Inner(c, rest) + w);
        AmbiguousRun(c, s2.(phase := Entry, buf := Inner(c, rest) + w), rest, w, heads[1..]);
      } else {
        Truncated(c, t, item.content, tail + w);
      }
    }
  }

  /** The condition is exact: what is delivered is what was serialized if and only if no content
      contains the delimiter. */
  lemma RoundTripExact(c: Config, items: seq<Item>)
    requires Accepting(c) && Printable(c, items)
    ensures AllUnambiguous(c, items)
       <==> Parse(c, INITIAL, Serialized(c.boundary, items)).1.out == Delivered(c, items)
  {
    var body := Serialized(c.boundary, items);
    if AllUnambiguous(c, items) {
      assert Concat([body]) == body + "" == body;
      SerializedInner(c, items);
      RoundTrip(c, items, [body]);
    } else {
      DeliveredHeads(c, items);
      AmbiguousLost(c, items, Heads(c, items));
    }
  }

  lemma AmbiguousLost(c: Config, items: seq<Item>, heads: seq<FileInfo>)
    requires Accepting(c) && Printable(c, items) && !AllUnambiguous(c, items) && |heads| == |items|
    ensures Parse(c, INITIAL, Serialized(c.boundary, items)).1.out != DeliveredAs(heads, items)
  {
    SerializedInner(c, items);
    Assoc(c.Opener(), Inner(c, items), CLOSE);
    OpeningRun(c, Inner(c, items) + CLOSE);
    AmbiguousRun(c, Feed(OPENED, Inner(c, items) + CLOSE), items, CLOSE, heads);
    assert [] + DeliveredAs(heads, items) == DeliveredAs(heads, items);
  }

  function Heads(c: Config, items: seq<Item>): seq<FileInfo> {
    if items == [] then [] else [Announced(c, items[0])] + Heads(c, items[1..])
  }

  lemma {:induction false} DeliveredHeads(c: Config, items: seq<Item>)
    ensures |Heads(c, items)| == |items| && DeliveredAs(Heads(c, items), items) == Delivered(c, items)
  {
    if items != [] {
      DeliveredHeads(c, items[1..]);
      assert Heads(c, items)[1..] == Heads(c, items[1..]);
    }
  }

  /** A header line that is neither a content type nor matched by the expression might as well not be
      there. */
  lemma UnknownLineIgnored(c: Config, s: State, line: string, rest: string)
    requires s.phase.Headers? && line != "" && CR !in line && s.buf == line + CRLF + rest
    requires s.phase.unchecked ==> |line| <= HEADER_MAX
    requires !StartsCaseless(line, CONTENT_TYPE) && c.disposition(line) == None
    ensures Drive(c, s) == Drive(c, s.(phase := Headers(false), buf := rest))
  {
    HeaderTurn(c, s, line, rest);
  }

  function NamesOf(read: Option<(string, string)>): (string, string) {
    match read case Some(m) => m case None => ("", "")
  }

  /** The announced content type is the item's own exactly when it has no blanks at its ends to be trimmed
      away; name and filename are whatever the expression on the line yields, empty if that is nothing. */
  lemma AnnouncedFields(c: Config, item: Item)
    ensures var f := Announced(c, item);
            && (f.contentType == item.contentType <==> Untrimmable(item.contentType))
            && (f.name, f.filename) == NamesOf(c.disposition(DispositionLine(item)))
  {
    var l1, l2 := DispositionLine(item), TypeLine(item);
    assert l1[8] == 'D';
    assert !StartsCaseless(l1, CONTENT_TYPE) by { assert Lower(l1[8]) != Lower(CONTENT_TYPE[8]); }
    assert StartsCaseless(l2, CONTENT_TYPE);
    assert l2[|CONTENT_TYPE|..] == " " + item.contentType;
    TrimAdded(item.contentType);
  }
}

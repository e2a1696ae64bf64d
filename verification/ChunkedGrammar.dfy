/** The grammar of the bodies that the chunked reader accepts. */
module ChunkedGrammar {
  import opened Text
  import opened Hex
  import opened Stream
  import opened Chunked

  /** A line with its newline. */
  ghost predicate FullLine(line: string) {
    line != "" && line[|line| - 1] == '\n' && forall i | 0 <= i < |line| - 1 :: line[i] != '\n'
  }

  /** strtoul reads `n` off the line. */
  predicate SaysSize(line: string, n: nat) { Strtoul16(CStr(line)) == Number(n) }

  /** To the C library the line is a bare line end. */
  predicate IsLineEnd(line: string) { CStr(line) == CRLF }

  /** A chunk in full: its size line, its data, and the line end after them. */
  datatype Part = Part(size: string, data: string, end: string)

  ghost predicate PartOk(p: Part) {
    && FullLine(p.size) && SaysSize(p.size, |p.data|) && 0 < |p.data| < ULONG_MAX
    && FullLine(p.end) && IsLineEnd(p.end)
  }

  ghost predicate PartsOk(parts: seq<Part>) { forall i | 0 <= i < |parts| :: PartOk(parts[i]) }

  function Written(parts: seq<Part>): string {
    if parts == [] then "" else parts[0].size + parts[0].data + parts[0].end + Written(parts[1..])
  }

  function Carried(parts: seq<Part>): string {
    if parts == [] then "" else parts[0].data + Carried(parts[1..])
  }

  /** What ends a body: a size line saying 0 and a line end, or a last chunk that is followed by a line
      that is no line end. Only that last line may be cut short by the end of the bytes. */
  datatype Ending = Ending(size: string, data: string, line: string)

  ghost predicate EndingOk(e: Ending, rest: string) {
    && FullLine(e.size) && SaysSize(e.size, |e.data|) && |e.data| < ULONG_MAX
    && e.line != "" && IsLine(e.line, rest)
    && (e.data == "" <==> IsLineEnd(e.line))
  }

  function EndingText(e: Ending): string { e.size + e.data + e.line }

  /** The whole text, by its grammar. */
  ghost predicate IsBody(p: string, parts: seq<Part>, e: Ending, rest: string) {
    PartsOk(parts) && EndingOk(e, rest) && p == Written(parts) + (EndingText(e) + rest)
  }

  lemma LineIs(line: string, rest: string)
    requires line != "" && IsLine(line, rest)
    ensures var p := line + rest; p != "" && p[..LineLen(p)] == line && p[LineLen(p)..] == rest
  {
    LineEnds(line + rest, line, rest);
    assert |line| == LineLen(line + rest);
  }

  lemma FullLineIs(line: string, rest: string)
    requires FullLine(line)
    ensures IsLine(line, rest)
  {
  }

  lemma Cut(a: string, b: string)
    ensures (a + b)[..|a|] == a && (a + b)[|a|..] == b
  {
  }

  lemma SizeRead(size: string, q: string)
    requires FullLine(size)
    ensures Decode(size + q) == DecodeFrom(size, q)
  {
    FullLineIs(size, q);
    LineIs(size, q);
  }

  /** Behind the data of a chunk. */
  lemma DataRead(data: string, line: string, rest: string)
    requires data != "" && line != "" && IsLine(line, rest)
    ensures DecodeData(|data|, data + (line + rest))
         == if IsLineEnd(line) then Decode(rest).After(data) else Decoded(true, data, rest)
  {
    Cut(data, line + rest);
    LineIs(line, rest);
    assert data + "" == data;
  }

  /** A chunk in front of more bytes. */
  lemma PartDecodes(p: Part, more: string)
    requires PartOk(p)
    ensures Decode(p.size + (p.data + (p.end + more))) == Decode(more).After(p.data)
  {
    FullLineIs(p.end, more);
    HeadRead(p.size, p.data, p.end, more);
  }

  lemma EndingDecodes(e: Ending, rest: string)
    requires EndingOk(e, rest)
    ensures Decode(e.size + (e.data + (e.line + rest))) == Decoded(true, e.data, rest)
  {
    HeadRead(e.size, e.data, e.line, rest);
  }

  lemma Regroup(a: string, b: string, c: string, d: string)
    ensures a + b + c + d == a + (b + (c + d))
  {
  }

  lemma {:induction false} BodyDecodes(p: string, parts: seq<Part>, e: Ending, rest: string)
    requires IsBody(p, parts, e, rest)
    ensures Decode(p) == Decoded(true, Carried(parts) + e.data, rest)
    decreases |parts|
  {
    if parts == [] {
      Regroup(e.size, e.data, e.line, rest);
      EndingDecodes(e, rest);
      Alone(p, EndingText(e) + rest, e.data);
    } else {
      var more := Written(parts[1..]) + (EndingText(e) + rest);
      TakeFirst(p, parts, EndingText(e) + rest);
      PartDecodes(parts[0], more);
      BodyDecodes(more, parts[1..], e, rest);
      Assoc(parts[0].data, Carried(parts[1..]), e.data);
    }
  }

  lemma Alone(p: string, text: string, data: string)
    requires p == "" + text
    ensures p == text && "" + data == data
  {
  }

  lemma TakeFirst(p: string, parts: seq<Part>, tail: string)
    requires parts != [] && p == Written(parts) + tail
    ensures p == parts[0].size + (parts[0].data + (parts[0].end + (Written(parts[1..]) + tail)))
  {
    var first := parts[0];
    Assoc(first.size + first.data + first.end, Written(parts[1..]), tail);
    Regroup(first.size, first.data, first.end, Written(parts[1..]) + tail);
  }

  /** The first line of some bytes. */
  lemma LineOf(p: string) returns (line: string, rest: string)
    requires p != ""
    ensures line == p[..LineLen(p)] && rest == p[LineLen(p)..] && p == line + rest
    ensures line != "" && IsLine(line, rest) && (rest != "" ==> FullLine(line))
  {
    line, rest := p[..LineLen(p)], p[LineLen(p)..];
    FindFirst(p, "\n");
    forall k | 0 <= k < |line| - 1 ensures line[k] != '\n' {
      assert !At(p, k, "\n");
      assert p[k..k + 1] == [p[k]];
    }
    if rest != "" { assert p[|line| - 1..|line|] == "\n"; }
  }

  /** What the size line and the number of bytes behind it must be. */
  lemma SizeAccepted(size: string, q: string)
    requires DecodeFrom(size, q).ok
    ensures Strtoul16(CStr(size)).Number? && Strtoul16(CStr(size)).value < ULONG_MAX
    ensures Strtoul16(CStr(size)).value < |q|
  {
    var m := Strtoul16(CStr(size));
    assert m.Number? && m.value != ULONG_MAX;
    if m.value > 0 { assert DecodeData(m.value, q).ok; }
  }

  lemma EndRead(size: string, line: string, rest: string)
    requires SaysSize(size, 0) && line != "" && IsLine(line, rest)
    ensures DecodeFrom(size, line + rest) == Decoded(IsLineEnd(line), "", rest)
  {
    LineIs(line, rest);
  }

  /** The first size line, its data, and the line after them. */
  lemma CutHead(p: string) returns (size: string, data: string, line: string, rest: string)
    requires Decode(p).ok
    ensures p == size + (data + (line + rest)) && FullLine(size) && SaysSize(size, |data|) && |data| < ULONG_MAX
    ensures line != "" && IsLine(line, rest) && (rest != "" ==> FullLine(line))
  {
    var q;
    size, q := LineOf(p);
    SizeAccepted(size, q);
    var n := Strtoul16(CStr(size)).value;
    data := q[..n];
    line, rest := LineOf(q[n..]);
    assert q == data + (line + rest);
  }

  lemma HeadRead(size: string, data: string, line: string, rest: string)
    requires FullLine(size) && SaysSize(size, |data|) && |data| < ULONG_MAX && line != "" && IsLine(line, rest)
    ensures Decode(size + (data + (line + rest)))
         == if data == "" then Decoded(IsLineEnd(line), "", rest)
            else if IsLineEnd(line) then Decode(rest).After(data)
            else Decoded(true, data, rest)
  {
    SizeRead(size, data + (line + rest));
    if data == "" {
      Alone("" + (line + rest), line + rest, "");
      EndRead(size, line, rest);
    } else {
      DataRead(data, line, rest);
    }
  }

  /** What was accepted is of that form. */
  lemma {:induction false} DecodedIsBody(p: string) returns (parts: seq<Part>, e: Ending)
    requires Decode(p).ok
    ensures IsBody(p, parts, e, Decode(p).rest)
    decreases |p|
  {
    var size, data, line, rest := CutHead(p);
    HeadRead(size, data, line, rest);
    if data != "" && IsLineEnd(line) {
      parts, e := DecodedIsBody(rest);
      PutFirst(Part(size, data, line), parts, e, rest, Decode(rest).rest);
      parts := [Part(size, data, line)] + parts;
    } else {
      parts, e := [], Ending(size, data, line);
      Regroup(size, data, line, rest);
      Alone("" + (EndingText(e) + rest), EndingText(e) + rest, "");
    }
  }

  lemma PutFirst(first: Part, parts: seq<Part>, e: Ending, more: string, rest: string)
    requires PartOk(first) && IsBody(more, parts, e, rest)
    ensures IsBody(first.size + (first.data + (first.end + more)), [first] + parts, e, rest)
  {
    assert ([first] + parts)[1..] == parts;
    Regroup(first.size, first.data, first.end, more);
    Assoc(first.size + first.data + first.end, Written(parts), EndingText(e) + rest);
  }

  /** The reader accepts exactly the texts of the grammar, and delivers what they carry. */
  lemma AcceptsExactly(p: string, payload: string, rest: string)
    ensures Decode(p) == Decoded(true, payload, rest)
       <==> exists parts, e :: IsBody(p, parts, e, rest) && payload == Carried(parts) + e.data
  {
    if Decode(p) == Decoded(true, payload, rest) {
      var parts, e := DecodedIsBody(p);
      BodyDecodes(p, parts, e, rest);
    }
    forall parts, e | IsBody(p, parts, e, rest) ensures Decode(p) == Decoded(true, Carried(parts) + e.data, rest) {
      BodyDecodes(p, parts, e, rest);
    }
  }

  /** The C library sees a line up to its first NUL. */
  lemma {:induction false} CStrCut(a: string, b: string)
    requires '\0' !in a
    ensures CStr(a + (['\0'] + b)) == a
  {
    if a != "" {
      assert (a + (['\0'] + b))[1..] == a[1..] + (['\0'] + b);
      CStrCut(a[1..], b);
    } else {
      assert a + (['\0'] + b) == ['\0'] + b;
    }
  }
}

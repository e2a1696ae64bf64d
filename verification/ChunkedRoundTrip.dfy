/** The chunked writer, and the reader as its inverse. */
module ChunkedRoundTrip {
  import opened Text
  import opened Hex
  import opened Stream
  import opened Chunked

  const DONE_MARKER := "0\r\n\r\n"

  function Chunk(piece: string): string { ToHex(|piece|) + CRLF + piece + CRLF }

  /** The sending direction: send may take any positive part of what it is given, or fail. */
  class OutStream {
    ghost var sent: string
    ghost var failures: nat

    constructor ()
      ensures sent == "" && failures == 0
    {
      sent, failures := "", 0;
    }

    method Send(data: string) returns (n: int)
      requires data != ""
      modifies this
      ensures n < 0 ==> sent == old(sent) && failures == old(failures) + 1
      ensures n >= 0 ==> 1 <= n <= |data| && sent == old(sent) + data[..n] && failures == old(failures)
    {
      if * {
        failures := failures + 1;
        return -1;
      }
      n :| 1 <= n <= |data|;
      sent := sent + data[..n];
    }

    method WriteData(d: string) returns (ok: bool)
      modifies this
      ensures failures >= old(failures) && (ok <==> failures == old(failures))
      ensures ok ==> sent == old(sent) + d
    {
      var offset := 0;
      while offset < |d|
        invariant offset <= |d| && failures == old(failures) && sent == old(sent) + d[..offset]
      {
        var n := Send(d[offset..]);
        if n < 0 { return false; }
        assert d[..offset + n] == d[..offset] + d[offset..][..n];
        offset := offset + n;
      }
      assert d[..offset] == d;
      return true;
    }
  }

  /** What the content provider does with the sink: hand over a piece or declare the end. */
  datatype Act = Write(piece: string) | Done

  /** One call of the content provider: what it does in turn, and whether it wants to go on. */
  datatype Call = Call(acts: seq<Act>, goesOn: bool)

  /** The bytes some actions send, and whether data are available after them. */
  function Acted(acts: seq<Act>, available: bool): (string, bool)
    decreases |acts|
  {
    if acts == [] then ("", available)
    else
      match acts[0]
      case Write(piece) =>
        var (more, after) := Acted(acts[1..], piece != "");
        (ChunkOf(piece) + more, after)
      case Done =>
        var (more, after) := Acted(acts[1..], false);
        (DONE_MARKER + more, after)
  }

  function ChunkOf(piece: string): string { if piece == "" then "" else Chunk(piece) }

  /** The bytes sent and the result for a provider that does as `script` says from its `i`-th call
      on; `stopped` tells before which calls the server is shutting down. */
  function Produced(script: seq<Call>, stopped: nat -> bool, i: nat): (string, bool)
    decreases |script|
  {
    if stopped(i) then ("", true)
    else if script == [] then ("", false)
    else
      var (bytes, available) := Acted(script[0].acts, true);
      if !script[0].goesOn then (bytes, false)
      else if !available then (bytes, true)
      else
        var (more, ok) := Produced(script[1..], stopped, i + 1);
        (bytes + more, ok)
  }

  /** The sink handed to the content provider. */
  class DataSink {
    const strm: OutStream
    var dataAvailable: bool
    var ok: bool

    constructor (strm: OutStream)
      ensures this.strm == strm && dataAvailable && ok
    {
      this.strm := strm;
      dataAvailable, ok := true, true;
    }

    method Put(d: string) returns (r: bool)
      modifies this`dataAvailable, this`ok, strm
      ensures r == ok && strm.failures >= old(strm.failures)
      ensures ok == (old(ok) && strm.failures == old(strm.failures))
      ensures !old(ok) ==> strm.sent == old(strm.sent) && strm.failures == old(strm.failures)
      ensures old(ok) ==> dataAvailable == (d != "")
      ensures ok ==> strm.sent == old(strm.sent) + ChunkOf(d)
    {
      if ok {
        dataAvailable := d != "";
        if d != "" {
          var size := FromIToHex(|d|);
          ok := strm.WriteData(size + "\r\n" + d + "\r\n");
        } else {
          assert strm.sent == strm.sent + "";
        }
      }
      return ok;
    }

    method Finish()
      modifies this`dataAvailable, this`ok, strm
      ensures strm.failures >= old(strm.failures)
      ensures ok == (old(ok) && strm.failures == old(strm.failures))
      ensures !old(ok) ==> strm.sent == old(strm.sent) && strm.failures == old(strm.failures)
      ensures old(ok) ==> !dataAvailable
      ensures ok ==> strm.sent == old(strm.sent) + DONE_MARKER
    {
      if !ok { return; }
      dataAvailable := false;
      ok := strm.WriteData(DONE_MARKER);
    }
  }

  /** The provider's side of one call. */
  method Provide(sink: DataSink, acts: seq<Act>)
    requires sink.ok
    modifies sink, sink.strm
    ensures sink.strm.failures >= old(sink.strm.failures)
    ensures sink.ok == (sink.strm.failures == old(sink.strm.failures))
    ensures sink.ok ==>
              && sink.strm.sent == old(sink.strm.sent) + Acted(acts, old(sink.dataAvailable)).0
              && sink.dataAvailable == Acted(acts, old(sink.dataAvailable)).1
  {
    ghost var goal := Acted(acts, sink.dataAvailable);
    for i := 0 to |acts|
      invariant sink.strm.failures >= old(sink.strm.failures)
      invariant sink.ok == (sink.strm.failures == old(sink.strm.failures))
      invariant sink.ok ==>
                  var (more, after) := Acted(acts[i..], sink.dataAvailable);
                  sink.strm.sent + more == old(sink.strm.sent) + goal.0 && after == goal.1
    {
      ghost var was, more := sink.strm.sent, Acted(acts[i..], sink.dataAvailable).0;
      assert acts[i..][1..] == acts[i + 1..];
      match acts[i] {
        case Write(piece) =>
          var _ := sink.Put(piece);
          if sink.ok { Assoc(was, ChunkOf(piece), Acted(acts[i + 1..], piece != "").0); }
        case Done =>
          sink.Finish();
          if sink.ok { Assoc(was, DONE_MARKER, Acted(acts[i + 1..], false).0); }
      }
    }
    assert sink.ok ==> sink.strm.sent + "" == sink.strm.sent;
  }

  /** The provider loop of the writer, without compression. */
  method WriteContentChunked(strm: OutStream, script: seq<Call>, stopped: nat -> bool) returns (success: bool)
    modifies strm
    ensures strm.failures >= old(strm.failures) && (strm.failures > old(strm.failures) ==> !success)
    ensures strm.failures == old(strm.failures) ==>
              var (bytes, ok) := Produced(script, stopped, 0);
              strm.sent == old(strm.sent) + bytes && success == ok
  {
    var sink := new DataSink(strm);
    var i := 0;
    ghost var goal, left := old(strm.sent) + Produced(script, stopped, 0).0, Produced(script, stopped, 0);
    assert script[0..] == script;
    while sink.dataAvailable && !stopped(i)
      invariant sink.strm == strm && fresh(sink) && sink.ok && i <= |script|
      invariant strm.failures == old(strm.failures)
      invariant left == if sink.dataAvailable then Produced(script[i..], stopped, i) else ("", true)
      invariant strm.sent + left.0 == goal && left.1 == Produced(script, stopped, 0).1
      decreases |script| - i
    {
      if i == |script| {
        assert strm.sent + "" == strm.sent;
        return false;
      }
      ghost var was := strm.sent;
      var call := script[i];
      assert script[i..][0] == call && script[i..][1..] == script[i + 1..];
      Provide(sink, call.acts);
      if !call.goesOn { return false; }
      if !sink.ok { return false; }
      left := if sink.dataAvailable then Produced(script[i + 1..], stopped, i + 1) else ("", true);
      Assoc(was, Acted(call.acts, true).0, left.0);
      assert strm.sent + "" == strm.sent;
      i := i + 1;
    }
    assert left == ("", true) && strm.sent + "" == strm.sent;
    return true;
  }

  lemma {:induction false} CStrPlain(s: string)
    requires '\0' !in s
    ensures CStr(s) == s
  {
    if s != "" {
      CStrPlain(s[1..]);
      assert s == [s[0]] + s[1..];
    }
  }

  /** A line that ends with CRLF and has no earlier newline is taken whole. */
  lemma LineTaken(text: string, rest: string)
    requires '\n' !in text
    ensures var p := text + CRLF + rest;
            p[..LineLen(p)] == text + CRLF && p[LineLen(p)..] == rest
  {
    var p, line := text + CRLF + rest, text + CRLF;
    assert forall k | 0 <= k < |line| - 1 :: line[k] == if k < |text| then text[k] else CR;
    LineEnds(p, line, rest);
    assert |line| == LineLen(p) || |p| < |line|;
  }

  lemma HexPlain(s: string)
    requires AllHex(s)
    ensures '\n' !in s && '\0' !in s + CRLF
  {
    forall c | c in s + CRLF ensures c != '\0' {
      var i :| 0 <= i < |s + CRLF| && (s + CRLF)[i] == c;
    }
  }

  /** The reader on a size line in front of other bytes. */
  lemma DecodeSize(n: nat, p: string)
    requires n < ULONG_MAX
    ensures Decode(ToHex(n) + CRLF + p) == DecodeFrom(ToHex(n) + CRLF, p)
    ensures Strtoul16(CStr(ToHex(n) + CRLF)) == Number(n)
  {
    HexPlain(ToHex(n));
    LineTaken(ToHex(n), p);
    CStrPlain(ToHex(n) + CRLF);
    ReadsHex(n, CRLF);
  }

  /** A written chunk is read back, and reading goes on behind it. */
  lemma DecodeChunk(piece: string, more: string)
    requires 0 < |piece| < ULONG_MAX
    ensures Decode(Chunk(piece) + more) == Decode(more).After(piece)
  {
    var h, p := ToHex(|piece|), piece + CRLF + more;
    assert Chunk(piece) + more == h + CRLF + p;
    DecodeSize(|piece|, p);
    DecodeBody(h + CRLF, piece, more);
  }

  /** Behind a size line: the chunk's bytes, the line end after them, and what follows. */
  lemma DecodeBody(line: string, piece: string, more: string)
    requires 0 < |piece| < ULONG_MAX && Strtoul16(CStr(line)) == Number(|piece|)
    ensures DecodeFrom(line, piece + CRLF + more) == Decode(more).After(piece)
  {
    var p, q := piece + CRLF + more, "" + CRLF + more;
    assert p[..|piece|] == piece && p[|piece|..] == q;
    LineTaken("", more);
    CStrPlain("" + CRLF);
  }

  /** The chunks of some pieces; an empty piece has none. */
  function Chunks(pieces: seq<string>): string {
    if pieces == [] then "" else ChunkOf(pieces[0]) + Chunks(pieces[1..])
  }

  lemma DecodeDone(tail: string)
    ensures Decode(DONE_MARKER + tail) == Decoded(true, "", tail)
  {
    var p := CRLF + tail;
    assert DONE_MARKER + tail == ToHex(0) + CRLF + p by {
      assert DONE_MARKER == ToHex(0) + CRLF + CRLF;
      Shift("", ToHex(0) + CRLF, CRLF, tail);
    }
    DecodeSize(0, p);
    DecodeEnd(ToHex(0) + CRLF, tail);
  }

  lemma DecodeEnd(line: string, tail: string)
    requires Strtoul16(CStr(line)) == Number(0)
    ensures DecodeFrom(line, CRLF + tail) == Decoded(true, "", tail)
  {
    assert "" + CRLF + tail == CRLF + tail && "" + CRLF == CRLF;
    LineTaken("", tail);
    CStrPlain(CRLF);
  }

  predicate Sizes(pieces: seq<string>) { forall i | 0 <= i < |pieces| :: |pieces[i]| < ULONG_MAX }

  lemma DecodeMaybeChunk(piece: string, rest: string)
    requires |piece| < ULONG_MAX
    ensures Decode(ChunkOf(piece) + rest) == Decode(rest).After(piece)
  {
    if piece != "" {
      DecodeChunk(piece, rest);
    } else {
      assert "" + rest == rest && "" + Decode(rest).payload == Decode(rest).payload;
    }
  }

  /** Chunks in front of other bytes are taken off. */
  lemma {:induction false} DecodeChunks(pieces: seq<string>, more: string)
    requires Sizes(pieces)
    ensures Decode(Chunks(pieces) + more) == Decode(more).After(Concat(pieces))
  {
    if pieces == [] {
      assert "" + more == more && "" + Decode(more).payload == Decode(more).payload;
    } else {
      var piece, rest := pieces[0], Chunks(pieces[1..]) + more;
      DecodeChunks(pieces[1..], more);
      Assoc(ChunkOf(piece), Chunks(pieces[1..]), more);
      DecodeMaybeChunk(piece, rest);
      AfterAfter(Decode(more), piece, Concat(pieces[1..]));
    }
  }

  /** Decoding inverts encoding: any payload bytes, any cutting into pieces, any bytes of a next
      message behind the end marker. */
  lemma RoundTrip(pieces: seq<string>, tail: string)
    requires Sizes(pieces)
    ensures Decode(Chunks(pieces) + (DONE_MARKER + tail)) == Decoded(true, Concat(pieces), tail)
  {
    DecodeChunks(pieces, DONE_MARKER + tail);
    DecodeDone(tail);
    assert Concat(pieces) + "" == Concat(pieces);
  }

  function Writes(pieces: seq<string>): seq<Act> {
    if pieces == [] then [] else [Write(pieces[0])] + Writes(pieces[1..])
  }

  lemma {:induction false} ActedWrites(pieces: seq<string>, available: bool)
    ensures Acted(Writes(pieces), available)
         == (Chunks(pieces), if pieces == [] then available else pieces[|pieces| - 1] != "")
    ensures Acted(Writes(pieces) + [Done], available) == (Chunks(pieces) + DONE_MARKER, false)
  {
    if pieces == [] {
      assert Writes(pieces) + [Done] == [Done] && [Done][1..] == [];
      assert Acted([Done], available) == (DONE_MARKER + "", false);
      assert DONE_MARKER + "" == "" + DONE_MARKER == DONE_MARKER;
    } else {
      var acts := Writes(pieces);
      assert acts[1..] == Writes(pieces[1..]) && (acts + [Done])[1..] == Writes(pieces[1..]) + [Done];
      ActedWrites(pieces[1..], pieces[0] != "");
      Assoc(ChunkOf(pieces[0]), Chunks(pieces[1..]), DONE_MARKER);
    }
  }

  /** A provider that hands over some pieces in every call and declares the end after the last ones. */
  function Script(groups: seq<seq<string>>, last: seq<string>): seq<Call> {
    if groups == [] then [Call(Writes(last) + [Done], true)]
    else [Call(Writes(groups[0]), true)] + Script(groups[1..], last)
  }

  function Payload(groups: seq<seq<string>>, last: seq<string>): string {
    if groups == [] then Concat(last) else Concat(groups[0]) + Payload(groups[1..], last)
  }

  /** No call before the last one ends on an empty piece. */
  predicate EndsFilled(groups: seq<seq<string>>) {
    forall i | 0 <= i < |groups| :: groups[i] == [] || groups[i][|groups[i]| - 1] != ""
  }

  lemma EndsFilledCons(groups: seq<seq<string>>)
    requires groups != []
    ensures EndsFilled(groups)
       <==> (groups[0] == [] || groups[0][|groups[0]| - 1] != "") && EndsFilled(groups[1..])
  {
    assert groups == [groups[0]] + groups[1..];
  }

  /** Writer and reader together: the receiver gets exactly the pieces that were written, with
      success, if and only if no call before the last one ends on an empty piece, which the writer
      takes for the end of the data. */
  lemma {:induction false} WriterReader(groups: seq<seq<string>>, last: seq<string>, i: nat)
    requires (forall k | 0 <= k < |groups| :: Sizes(groups[k])) && Sizes(last)
    ensures var (bytes, ok) := Produced(Script(groups, last), _ => false, i);
            && ok && (Decode(bytes).ok <==> EndsFilled(groups))
            && (Decode(bytes) == Decoded(true, Payload(groups, last), "") <==> EndsFilled(groups))
    decreases |groups|
  {
    var script := Script(groups, last);
    if groups == [] {
      ActedWrites(last, true);
      RoundTrip(last, "");
      assert DONE_MARKER + "" == DONE_MARKER;
    } else {
      var g, more := groups[0], Produced(Script(groups[1..], last), _ => false, i + 1).0;
      assert script[0] == Call(Writes(g), true) && script[1..] == Script(groups[1..], last);
      ActedWrites(g, true);
      EndsFilledCons(groups);
      if g == [] || g[|g| - 1] != "" {
        WriterReader(groups[1..], last, i + 1);
        DecodeChunks(g, more);
      } else {
        assert Chunks(g) + "" == Chunks(g);
        DecodeChunks(g, "");
      }
    }
  }

  /** Success consumes something. */
  lemma {:induction false} DecodeConsumes(p: string)
    ensures Decode(p).ok ==> |Decode(p).rest| < |p|
    decreases |p|
  {
    if p != "" {
      var line, more := p[..LineLen(p)], p[LineLen(p)..];
      LineIsSomething(p);
      match Strtoul16(CStr(line))
      case NoDigits =>
      case Number(n) => if 0 < n < ULONG_MAX { DataConsumes(n, more); }
    }
  }

  lemma {:induction false} DataConsumes(n: nat, p: string)
    requires n > 0
    ensures DecodeData(n, p).ok ==> |DecodeData(n, p).rest| < |p|
    decreases |p|
  {
    if |p| > n {
      var q := p[n..];
      LineIsSomething(q);
      DecodeConsumes(q[LineLen(q)..]);
    }
  }

  lemma LineIsSomething(p: string)
    ensures p != "" ==> LineLen(p) > 0
  {
  }

  /** One chunk in front of any bytes: the reader goes on behind the line end after the data, fails
      without a line, and stops with success on any other line. */
  lemma DecodeStray(piece: string, stray: string)
    requires 0 < |piece| < ULONG_MAX
    ensures Decode(ToHex(|piece|) + CRLF + (piece + stray))
         == if stray == "" then Decoded(false, piece, "")
            else if CStr(stray[..LineLen(stray)]) != CRLF then Decoded(true, piece, stray[LineLen(stray)..])
            else Decode(stray[LineLen(stray)..]).After(piece)
  {
    var p := piece + stray;
    DecodeSize(|piece|, p);
    assert p[..|piece|] == piece && p[|piece|..] == stray;
    assert piece + "" == piece;
  }

  /** Not every malformed body is refused: behind any number of chunks, one whose data is followed by
      `stray` ends the body with success, and what is behind the line unread, if and only if `stray`
      begins with a line that is not a line end. */
  lemma StrayBytesAccepted(pieces: seq<string>, piece: string, stray: string)
    requires Sizes(pieces) && 0 < |piece| < ULONG_MAX
    ensures var body := Chunks(pieces) + (ToHex(|piece|) + CRLF + (piece + stray));
            Decode(body) == Decoded(true, Concat(pieces) + piece, stray[LineLen(stray)..])
            <==> stray != "" && CStr(stray[..LineLen(stray)]) != CRLF
  {
    DecodeStray(piece, stray);
    DecodeChunks(pieces, ToHex(|piece|) + CRLF + (piece + stray));
    DecodeConsumes(stray[LineLen(stray)..]);
  }

  /** Actions are done one after the other. */
  lemma {:induction false} ActedJoin(a: seq<Act>, b: seq<Act>, available: bool)
    ensures var (first, open) := Acted(a, available);
            Acted(a + b, available) == (first + Acted(b, open).0, Acted(b, open).1)
    decreases |a|
  {
    if a == [] {
      assert a + b == b && "" + Acted(b, available).0 == Acted(b, available).0;
    } else {
      var open := a[0].Write? && a[0].piece != "";
      var text := if a[0].Write? then ChunkOf(a[0].piece) else DONE_MARKER;
      assert (a + b)[1..] == a[1..] + b && (a + b)[0] == a[0];
      ActedJoin(a[1..], b, open);
      Assoc(text, Acted(a[1..], open).0, Acted(b, Acted(a[1..], open).1).0);
    }
  }

  /** More data are expected after these actions, the last of which decides. */
  predicate LeavesOpen(acts: seq<Act>) {
    acts == [] || (acts[|acts| - 1].Write? && acts[|acts| - 1].piece != "")
  }

  lemma {:induction false} LastActDecides(acts: seq<Act>, available: bool)
    ensures Acted(acts, available).1 == if acts == [] then available else LeavesOpen(acts)
    decreases |acts|
  {
    if acts != [] {
      assert |acts| > 1 ==> acts[1..][|acts| - 2] == acts[|acts| - 1];
      LastActDecides(acts[1..], acts[0].Write? && acts[0].piece != "");
    }
  }

  predicate GoesOn(call: Call) { call.goesOn && LeavesOpen(call.acts) }

  /** The first `k` calls of the provider were made, went on and left the data open; then the server is
      shutting down, or the next call goes on and declares the end. */
  ghost predicate DoneAfter(script: seq<Call>, stopped: nat -> bool, i: nat, k: nat) {
    && k <= |script| && (forall n: nat | i <= n < i + k :: !stopped(n)) && (forall j | 0 <= j < k :: GoesOn(script[j]))
    && (stopped(i + k) || (k < |script| && script[k].goesOn && !LeavesOpen(script[k].acts)))
  }

  /** The writer reports success if and only if the data came to an end, or the server to shutting down,
      before the provider gave up. */
  lemma {:induction false} WriterSucceeds(script: seq<Call>, stopped: nat -> bool, i: nat)
    ensures Produced(script, stopped, i).1 <==> exists k: nat :: DoneAfter(script, stopped, i, k)
    decreases |script|
  {
    if !stopped(i) && script != [] && GoesOn(script[0]) {
      LastActDecides(script[0].acts, true);
      WriterSucceeds(script[1..], stopped, i + 1);
      DoneLater(script, stopped, i, script[1..], i + 1);
    } else {
      if script != [] { LastActDecides(script[0].acts, true); }
      DoneAtOnce(script, stopped, i);
    }
  }

  lemma DoneAtOnce(script: seq<Call>, stopped: nat -> bool, i: nat)
    requires stopped(i) || script == [] || !GoesOn(script[0])
    ensures (exists k: nat :: DoneAfter(script, stopped, i, k))
       <==> stopped(i) || (script != [] && script[0].goesOn && !LeavesOpen(script[0].acts))
  {
    if stopped(i) || (script != [] && script[0].goesOn && !LeavesOpen(script[0].acts)) {
      assert DoneAfter(script, stopped, i, 0);
    }
  }

  lemma DoneLater(script: seq<Call>, stopped: nat -> bool, i: nat, later: seq<Call>, next: nat)
    requires script != [] && !stopped(i) && GoesOn(script[0]) && later == script[1..] && next == i + 1
    ensures (exists k: nat :: DoneAfter(script, stopped, i, k)) <==> exists k: nat :: DoneAfter(later, stopped, next, k)
  {
    if k: nat :| DoneAfter(script, stopped, i, k) {
      assert k > 0;
      OneLater(script, stopped, i, k - 1);
    }
    if k: nat :| DoneAfter(later, stopped, next, k) { OneLater(script, stopped, i, k); }
  }

  lemma OneLater(script: seq<Call>, stopped: nat -> bool, i: nat, k: nat)
    requires script != [] && !stopped(i) && GoesOn(script[0])
    ensures DoneAfter(script, stopped, i, k + 1) <==> DoneAfter(script[1..], stopped, i + 1, k)
  {
    var later := script[1..];
    assert i + 1 + k == i + (k + 1) && forall j | 0 <= j < |later| :: later[j] == script[j + 1];
    if DoneAfter(later, stopped, i + 1, k) {
      forall j | 0 <= j < k + 1 ensures GoesOn(script[j]) { if j > 0 { assert GoesOn(later[j - 1]); } }
    }
  }
}

/** Chunked transfer coding: the reader over a buffered socket and the writer. */
module Chunked {
  import opened Text
  import opened Hex
  import opened Stream

  const RECV_BUFSIZ: nat := 4096

  /** A string up to its first NUL, which is what the C library sees of it. */
  function CStr(s: string): string {
    if s == "" || s[0] == '\0' then "" else [s[0]] + CStr(s[1..])
  }

  /** Result of decoding, the payload handed over, and the bytes not consumed. */
  datatype Decoded = Decoded(ok: bool, payload: string, rest: string)
  {
    function After(data: string): Decoded { this.(payload := data + payload) }
  }

  /** The reader's loop on whole byte strings; `line` is the size line in front of `p`. */
  function DecodeFrom(line: string, p: string): Decoded
    decreases |p|, 1
  {
    match Strtoul16(CStr(line))
    case NoDigits => Decoded(false, "", p)
    case Number(n) =>
      if n == ULONG_MAX then Decoded(false, "", p)
      else if n == 0 then
        Decoded(p != "" && CStr(p[..LineLen(p)]) == CRLF, "", p[LineLen(p)..])
      else DecodeData(n, p)
  }

  /** A chunk of size `n` and what follows it. */
  function DecodeData(n: nat, p: string): Decoded
    requires n > 0
    decreases |p|, 0
  {
    if |p| < n then Decoded(false, p, "")
    else
      var q := p[n..];
      var r := q[LineLen(q)..];
      if q == "" then Decoded(false, p[..n], "")
      else if CStr(q[..LineLen(q)]) != CRLF then Decoded(true, p[..n], r)
      else if r == "" then Decoded(false, p[..n], "")
      else DecodeFrom(r[..LineLen(r)], r[LineLen(r)..]).After(p[..n])
  }

  function Decode(p: string): Decoded {
    if p == "" then Decoded(false, "", "") else DecodeFrom(p[..LineLen(p)], p[LineLen(p)..])
  }

  /** The callback that receives the payload; it may refuse. */
  class Receiver {
    ghost var got: string
    ghost var refusals: nat

    constructor ()
      ensures got == "" && refusals == 0
    {
      got, refusals := "", 0;
    }

    method Take(data: string) returns (ok: bool)
      modifies this
      ensures got == old(got) + data && refusals == old(refusals) + (if ok then 0 else 1)
    {
      ok :| true;
      got := got + data;
      if !ok { refusals := refusals + 1; }
    }
  }

  function Min(a: nat, b: nat): nat { if a <= b then a else b }

  /** Hands over exactly the next `len` bytes, in whatever pieces they arrive. */
  /** `got` has been extended by a beginning of `what`. */
  ghost predicate Extended(before: string, got: string, what: string) {
    before <= got && got[|before|..] <= what
  }

  lemma ExtendedBy(before: string, what: string, k: nat, data: string)
    requires k <= |what| && data <= what[k..]
    ensures Extended(before, before + what[..k] + data, what)
  {
    assert what[..k] + data == what[..k + |data|];
    assert (before + what[..k] + data)[|before|..] == what[..k] + data;
  }

  method ReadContentWithLength(strm: SocketStream, len: nat, out: Receiver) returns (ok: bool)
    requires strm.Valid()
    modifies strm`incoming, strm`delivered, strm`failures, strm`off, strm`contentSize, strm.readBuff, out
    ensures strm.Valid() && strm.failures >= old(strm.failures) && out.refusals >= old(out.refusals)
    ensures strm.failures > old(strm.failures) || out.refusals > old(out.refusals) ==> !ok
    ensures strm.failures == old(strm.failures) && out.refusals == old(out.refusals) ==>
              var p := old(strm.Pending());
              var k := Min(len, |p|);
              && ok == (len <= |p|) && out.got == old(out.got) + p[..k] && strm.Pending() == p[k..]
    ensures out.refusals <= old(out.refusals) + 1
    ensures var p := old(strm.Pending()); Extended(old(out.got), out.got, p[..Min(len, |p|)])
  {
    ghost var p := strm.Pending();
    var r: nat := 0;
    while r < len
      invariant r <= len && r <= |p| && strm.Valid()
      invariant strm.failures == old(strm.failures) && out.refusals == old(out.refusals)
      invariant out.got == old(out.got) + p[..r] && strm.Pending() == p[r..]
    {
      var n, data := strm.Read(Min(len - r, RECV_BUFSIZ));
      Handed(old(out.got), p, len, r, data, strm.Pending());
      if n <= 0 { return false; }
      var taken := out.Take(data);
      if !taken { return false; }
      Advance(old(out.got), p, r, data, strm.Pending());
      r := r + n;
    }
    assert Extended(old(out.got), out.got, p[..Min(len, |p|)]);
    return true;
  }

  lemma Handed(before: string, p: string, len: nat, r: nat, data: string, rest: string)
    requires r <= len && r <= |p| && p[r..] == data + rest && |data| <= len - r
    ensures Extended(before, before + p[..r] + data, p[..Min(len, |p|)])
    ensures Extended(before, before + p[..r], p[..Min(len, |p|)])
  {
    var what := p[..Min(len, |p|)];
    assert |p| - r == |data| + |rest| && what[..r] == p[..r];
    assert data == p[r..][..|data|] == what[r..][..|data|];
    ExtendedBy(before, what, r, data);
    ExtendedBy(before, what, r, "");
    assert before + p[..r] + "" == before + p[..r];
  }

  lemma Advance(got: string, p: string, r: nat, data: string, rest: string)
    requires r <= |p| && p[r..] == data + rest
    ensures r + |data| <= |p| && p[r + |data|..] == rest && got + p[..r] + data == got + p[..r + |data|]
  {
    assert p[..r + |data|] == p[..r] + data by {
      assert p == p[..r] + p[r..];
    }
    assert p[r + |data|..] == p[r..][|data|..];
  }

  /** How one turn of the reader's loop ends. */
  datatype Turn = More | Stop(ok: bool)

  /** The decoder's verdict on a position, given how a turn taken there ended. */
  ghost predicate TurnDecodes(before: Decoded, turn: Turn, data: string, line: string, rest: string) {
    match turn
    case More => before == DecodeFrom(line, rest).After(data)
    case Stop(ok) => before == Decoded(ok, data, rest)
  }

  ghost predicate Undisturbed(failures: nat, strm: SocketStream, refusals: nat, out: Receiver)
    reads strm, out
  {
    strm.failures == failures && out.refusals == refusals
  }

  lemma DataHanded(n: nat, p: string)
    requires n > 0
    ensures p[..Min(n, |p|)] <= DecodeData(n, p).payload
  {
  }

  /** The data of one chunk and the lines after it. */
  method ReadData(reader: LineReader, n: nat, out: Receiver) returns (turn: Turn)
    requires reader.Valid() && n > 0
    modifies reader`used, reader`growable, reader.fixed, out
    modifies reader.strm`incoming, reader.strm`delivered, reader.strm`failures, reader.strm`off,
             reader.strm`contentSize, reader.strm.readBuff
    ensures reader.Valid()
    ensures reader.strm.failures >= old(reader.strm.failures) && out.refusals >= old(out.refusals)
    ensures !Undisturbed(old(reader.strm.failures), reader.strm, old(out.refusals), out) ==> turn == Stop(false)
    ensures Undisturbed(old(reader.strm.failures), reader.strm, old(out.refusals), out) ==>
              && old(out.got) <= out.got
              && TurnDecodes(DecodeData(n, old(reader.strm.Pending())), turn,
                             out.got[|old(out.got)|..], reader.Line(), reader.strm.Pending())
    ensures turn == More ==> |reader.strm.Pending()| < old(|reader.strm.Pending()|)
    ensures out.refusals <= old(out.refusals) + 1
    ensures Extended(old(out.got), out.got, DecodeData(n, old(reader.strm.Pending())).payload)
  {
    turn := Stop(false);
    DataHanded(n, reader.strm.Pending());
    var ok := ReadContentWithLength(reader.strm, n, out);
    if ok { ok := reader.GetLine(); }
    if ok {
      if CStr(reader.Line()) != CRLF {
        turn := Stop(true);
      } else {
        ok := reader.GetLine();
        turn := if ok then More else Stop(false);
      }
    }
  }

  /** One chunk: its size line has been read, its data and the lines after it are taken. */
  method ReadChunk(reader: LineReader, out: Receiver) returns (turn: Turn)
    requires reader.Valid()
    modifies reader`used, reader`growable, reader.fixed, out
    modifies reader.strm`incoming, reader.strm`delivered, reader.strm`failures, reader.strm`off,
             reader.strm`contentSize, reader.strm.readBuff
    ensures reader.Valid()
    ensures reader.strm.failures >= old(reader.strm.failures) && out.refusals >= old(out.refusals)
    ensures !Undisturbed(old(reader.strm.failures), reader.strm, old(out.refusals), out) ==> turn == Stop(false)
    ensures Undisturbed(old(reader.strm.failures), reader.strm, old(out.refusals), out) ==>
              && old(out.got) <= out.got
              && TurnDecodes(DecodeFrom(old(reader.Line()), old(reader.strm.Pending())), turn,
                             out.got[|old(out.got)|..], reader.Line(), reader.strm.Pending())
    ensures turn == More ==> |reader.strm.Pending()| < old(|reader.strm.Pending()|)
    ensures out.refusals <= old(out.refusals) + 1
    ensures Extended(old(out.got), out.got, DecodeFrom(old(reader.Line()), old(reader.strm.Pending())).payload)
  {
    var number := Strtoul16(CStr(reader.Line()));
    turn := Stop(false);
    if number.Number? && number.value != ULONG_MAX {
      if number.value == 0 {
        var ok := reader.GetLine();
        turn := Stop(ok && CStr(reader.Line()) == CRLF);
      } else {
        turn := ReadData(reader, number.value, out);
      }
    }
  }

  lemma AfterAfter(d: Decoded, x: string, y: string)
    ensures d.After(y).After(x) == d.After(x + y)
  {
    assert x + (y + d.payload) == x + y + d.payload;
  }

  lemma Grows(a: string, b: string, c: string)
    requires a <= b <= c
    ensures c[|a|..] == b[|a|..] + c[|b|..]
  {
  }

  /** A turn taken in the middle of a body, disturbed or not. */
  lemma TurnAdvances(goal: Decoded, base: string, before: string, got: string, line: string, p: string,
                     turn: Turn, nextLine: string, rest: string, quiet: bool)
    requires base <= before && TurnDecodes(goal, More, before[|base|..], line, p)
    requires Extended(before, got, DecodeFrom(line, p).payload)
    requires quiet ==> TurnDecodes(DecodeFrom(line, p), turn, got[|before|..], nextLine, rest)
    ensures Extended(base, got, goal.payload)
    ensures quiet ==> TurnDecodes(goal, turn, got[|base|..], nextLine, rest)
  {
    Grows(base, before, got);
    if quiet && turn == More { AfterAfter(DecodeFrom(nextLine, rest), before[|base|..], got[|before|..]); }
  }

  /** In any case what is handed over is a beginning of what Decode gives, and a refusal is the end. The
      reader computes Decode of all the bytes pending, whatever sizes recv returns, unless the
      connection fails or the callback refuses, and then it reports failure. */
  method ReadContentChunked(strm: SocketStream, out: Receiver) returns (ok: bool)
    requires strm.Valid()
    modifies strm`incoming, strm`delivered, strm`failures, strm`off, strm`contentSize, strm.readBuff, out
    ensures strm.Valid()
    ensures !Undisturbed(old(strm.failures), strm, old(out.refusals), out) ==> !ok
    ensures Undisturbed(old(strm.failures), strm, old(out.refusals), out) ==>
              && old(out.got) <= out.got
              && Decode(old(strm.Pending())) == Decoded(ok, out.got[|old(out.got)|..], strm.Pending())
    ensures out.refusals <= old(out.refusals) + 1
    ensures Extended(old(out.got), out.got, Decode(old(strm.Pending())).payload)
  {
    ghost var goal, base := Decode(strm.Pending()), out.got;
    var buf := new char[16];
    var reader := new LineReader(strm, buf);
    ok := reader.GetLine();
    if !ok { return; }
    var turn := More;
    while turn == More
      invariant reader.Valid() && fresh(reader) && fresh(reader.fixed) && reader.strm == strm
      invariant strm.failures >= old(strm.failures) && out.refusals >= old(out.refusals)
      invariant !Undisturbed(old(strm.failures), strm, old(out.refusals), out) ==> turn == Stop(false)
      invariant Undisturbed(old(strm.failures), strm, old(out.refusals), out) ==>
                  base <= out.got && TurnDecodes(goal, turn, out.got[|base|..], reader.Line(), strm.Pending())
      invariant out.refusals <= old(out.refusals) + 1 && Extended(base, out.got, goal.payload)
      decreases turn == More, |strm.Pending()|
    {
      ghost var before, line, p := out.got, reader.Line(), strm.Pending();
      turn := ReadChunk(reader, out);
      TurnAdvances(goal, base, before, out.got, line, p, turn, reader.Line(), strm.Pending(),
                   Undisturbed(old(strm.failures), strm, old(out.refusals), out));
    }
    return turn.ok;
  }
}

/** Base64: the grouping encoder with line feeds, its buffer size, and the decoder. */
module Base64 {
  import opened Wrappers

  type Byte = bv8

  const LF: Byte := 10
  const PAD: Byte := 61   // '='
  const BAD: Byte := 0x80

  /** The alphabet A-Z a-z 0-9 + / in ASCII. */
  function Symbol(i: Byte): Byte {
    if i < 26 then i + 65 else if i < 52 then i + 71 else if i < 62 then i - 4 else if i == 62 then 43 else 47
  }

  /** The decoder's table: positions in the alphabet, 0 for the padding sign, 0x80 elsewhere. */
  function Dtable(c: Byte): Byte {
    if 65 <= c <= 90 then c - 65
    else if 97 <= c <= 122 then c - 71
    else if 48 <= c <= 57 then c + 4
    else if c == 43 then 62
    else if c == 47 then 63
    else if c == PAD then 0
    else BAD
  }

  function Letters(first: char, n: nat): string
    requires first as int + n <= 128
  {
    seq(n, i requires 0 <= i < n => (first as int + i) as char)
  }

  /** The table of section 5.2 of RFC 1341. */
  const TABLE: string := Letters('A', 26) + Letters('a', 26) + Letters('0', 10) + "+/"

  lemma TableAt(i: nat)
    requires i < 64
    ensures |TABLE| == 64
    ensures TABLE[i] as int == if i < 26 then i + 65 else if i < 52 then i + 71 else if i < 62 then i - 4
                               else if i == 62 then 43 else 47
  {
  }

  /** The alphabet is that table. */
  lemma SymbolIs(i: Byte)
    requires i < 64
    ensures |TABLE| == 64 && Symbol(i) as int == TABLE[i as int] as int
  {
    TableAt(i as int);
  }

  /** The decoder skips everything but the alphabet and the padding sign, and knows a symbol's place. */
  lemma DtableIs(c: Byte)
    ensures Dtable(c) == BAD <==> c as char !in TABLE && c as char != '='
    ensures forall i | 0 <= i < |TABLE| && TABLE[i] == c as char :: Dtable(c) as int == i
  {
    forall i: nat | i < |TABLE| && TABLE[i] == c as char ensures Dtable(c) as int == i && Dtable(c) != BAD {
      TableAt(i);
    }
    if Dtable(c) != BAD && c != PAD { TableHas(c); }
  }

  lemma TableHas(c: Byte)
    requires Dtable(c) != BAD && c != PAD
    ensures c as char in TABLE
  {
    var i := Dtable(c) as int;
    TableAt(i);
    assert TABLE[i] == c as char;
  }

  lemma SymbolDecodes(i: Byte)
    requires i < 64
    ensures Dtable(Symbol(i)) == i && Symbol(i) != PAD && Symbol(i) != LF
  {
  }

  function Quad(a: Byte, b: Byte, c: Byte): seq<Byte> {
    [Symbol(a >> 2), Symbol(((a & 0x03) << 4) | (b >> 4)), Symbol(((b & 0x0f) << 2) | (c >> 6)), Symbol(c & 0x3f)]
  }

  function Tail(rest: seq<Byte>): seq<Byte>
    requires 1 <= |rest| <= 2
  {
    [Symbol(rest[0] >> 2)] +
    (if |rest| == 1 then [Symbol((rest[0] & 0x03) << 4), PAD]
     else [Symbol(((rest[0] & 0x03) << 4) | (rest[1] >> 4)), Symbol((rest[1] & 0x0f) << 2)]) +
    [PAD]
  }

  /** The encoding without line feeds. */
  function Plain(src: seq<Byte>): seq<Byte> {
    if src == [] then []
    else if |src| < 3 then Tail(src)
    else Quad(src[0], src[1], src[2]) + Plain(src[3..])
  }

  /** The encoding from a point where the current line already holds `lineLen` characters. */
  function Lines(src: seq<Byte>, lineLen: nat): seq<Byte> {
    if |src| >= 3 then
      Quad(src[0], src[1], src[2]) +
      (if lineLen + 4 >= 72 then [LF] + Lines(src[3..], 0) else Lines(src[3..], lineLen + 4))
    else if src != [] then Tail(src) + [LF]
    else if lineLen > 0 then [LF]
    else []
  }

  /** Number of bytes written before the final NUL: four per group, one per begun line. */
  function WrittenSize(n: nat, lineLen: nat): nat {
    4 * ((n + 2) / 3) + ((n + 2) / 3 + lineLen / 4 + 17) / 18
  }

  lemma {:induction false} LinesSize(src: seq<Byte>, lineLen: nat)
    requires lineLen < 72 && lineLen % 4 == 0
    ensures |Lines(src, lineLen)| == WrittenSize(|src|, lineLen)
  {
    SizeStep(|src|, lineLen);
    if |src| >= 3 {
      LinesSize(src[3..], if lineLen + 4 >= 72 then 0 else lineLen + 4);
    }
  }

  lemma SizeStep(n: nat, lineLen: nat)
    requires lineLen < 72 && lineLen % 4 == 0
    ensures n == 0 ==> WrittenSize(n, lineLen) == if lineLen > 0 then 1 else 0
    ensures 0 < n < 3 ==> WrittenSize(n, lineLen) == 5
    ensures n >= 3 ==>
      WrittenSize(n, lineLen)
      == if lineLen == 68 then 5 + WrittenSize(n - 3, 0) else 4 + WrittenSize(n - 3, lineLen + 4)
  {
    var m := lineLen / 4;
    assert lineLen == 4 * m && (lineLen + 4) / 4 == m + 1;
    if n >= 3 {
      assert (n + 2) / 3 == (n - 3 + 2) / 3 + 1;
    }
  }

  const SIZE: nat := 0x1_0000_0000_0000_0000

  /** The buffer size in size_t arithmetic. */
  function BufferSize(len: nat): nat {
    var o := ((len * 4) % SIZE / 3 + 4) % SIZE;
    var p := (o + o / 72) % SIZE;
    (p + 1) % SIZE
  }

  /** The overflow check is exact: it fires if and only if the multiplication wraps, and otherwise
      nothing else does. */
  lemma OverflowCheckExact(len: nat)
    requires len < SIZE
    ensures BufferSize(len) < len <==> len * 4 >= SIZE
    ensures len * 4 < SIZE ==> BufferSize(len) == (len * 4 / 3 + 4) + (len * 4 / 3 + 4) / 72 + 1
  {
    var w := (len * 4) % SIZE;
    assert w == len * 4 || w == len * 4 - SIZE || w == len * 4 - 2 * SIZE || w == len * 4 - 3 * SIZE;
    SmallSize(w);
  }

  lemma SmallSize(w: nat)
    requires w < SIZE
    ensures var o := (w / 3 + 4) % SIZE; ((o + o / 72) % SIZE + 1) % SIZE == w / 3 + 4 + (w / 3 + 4) / 72 + 1
  {
    var o := w / 3 + 4;
    assert 3 * o <= SIZE + 12 && 72 * (o / 72) <= o;
    assert o + o / 72 + 1 < SIZE;
  }

  /** All that is written, the NUL included, fits the buffer; there is no room to spare exactly
      when one byte is left over and the last line is not full. */
  lemma BufferBound(len: nat)
    requires len * 4 < SIZE
    ensures WrittenSize(len, 0) + 1 <= BufferSize(len)
    ensures WrittenSize(len, 0) + 1 == BufferSize(len) <==> len % 3 == 1 && len / 3 % 18 != 17
  {
    OverflowCheckExact(len);
    var k, r := len / 3, len % 3;
    assert len == 3 * k + r;
    if r == 0 {
      assert len * 4 / 3 + 4 == 4 * (k + 1) && (len + 2) / 3 == k;
      QuarterLine(k + 1, 0);
    } else {
      assert len * 4 / 3 + 4 == 4 * (k + 1) + r && (len + 2) / 3 == k + 1;
      QuarterLine(k + 1, r);
    }
    NextLine(k);
  }

  lemma QuarterLine(a: nat, b: nat)
    requires b < 4
    ensures (4 * a + b) / 72 == a / 18
  {
    assert 4 * a + b == 72 * (a / 18) + (4 * (a % 18) + b);
  }

  lemma NextLine(k: nat)
    ensures (k + 1) / 18 == k / 18 + if k % 18 == 17 then 1 else 0
    ensures (k + 17) / 18 <= (k + 1) / 18 + 1 && (k + 18) / 18 == k / 18 + 1
  {
  }

  lemma JoinTwo(a: seq<Byte>, b: seq<Byte>, c: seq<Byte>)
    ensures a + (b + c) == a + b + c
  {
  }

  method OutputSize(len: nat) returns (olen: nat)
    requires len < SIZE
    ensures olen < len <==> len * 4 >= SIZE
    ensures olen >= len ==> WrittenSize(len, 0) + 1 <= olen
  {
    olen := ((len * 4) % SIZE / 3 + 4) % SIZE;
    olen := (olen + olen / 72) % SIZE;
    olen := (olen + 1) % SIZE;
    OverflowCheckExact(len);
    if len * 4 < SIZE { BufferBound(len); }
  }

  method PutByte(out: array<Byte>, pos: nat, b: Byte)
    requires pos < out.Length
    modifies out
    ensures out[..pos + 1] == old(out[..pos]) + [b]
  {
    out[pos] := b;
  }

  method PutQuad(out: array<Byte>, pos: nat, a: Byte, b: Byte, c: Byte)
    requires pos + 4 <= out.Length
    modifies out
    ensures out[..pos + 4] == old(out[..pos]) + Quad(a, b, c)
  {
    out[pos] := Symbol(a >> 2);
    out[pos + 1] := Symbol(((a & 0x03) << 4) | (b >> 4));
    out[pos + 2] := Symbol(((b & 0x0f) << 2) | (c >> 6));
    out[pos + 3] := Symbol(c & 0x3f);
  }

  method PutTail(out: array<Byte>, pos: nat, rest: seq<Byte>)
    requires 1 <= |rest| <= 2 && pos + 4 <= out.Length
    modifies out
    ensures out[..pos + 4] == old(out[..pos]) + Tail(rest)
  {
    out[pos] := Symbol(rest[0] >> 2);
    if |rest| == 1 {
      out[pos + 1] := Symbol((rest[0] & 0x03) << 4);
      out[pos + 2] := PAD;
    } else {
      out[pos + 1] := Symbol(((rest[0] & 0x03) << 4) | (rest[1] >> 4));
      out[pos + 2] := Symbol((rest[1] & 0x0f) << 2);
    }
    out[pos + 3] := PAD;
  }

  /** base64.h's encoder. None stands for the empty string returned on overflow; the buffer has
      exactly the computed size. */
  method EncodeGrouped(src: seq<Byte>) returns (str: Option<seq<Byte>>)
    requires |src| < SIZE
    ensures str == if |src| * 4 >= SIZE then None else Some(Lines(src, 0))
  {
    var len := |src|;
    var olen := OutputSize(len);
    if olen < len { return None; }
    LinesSize(src, 0);
    var out := new Byte[olen];
    var i, pos, lineLen := 0, 0, 0;
    ghost var goal := Lines(src, 0);
    while len - i >= 3
      invariant i <= len && pos <= |goal| && lineLen < 72
      invariant out[..pos] + Lines(src[i..], lineLen) == goal
    {
      ghost var rest, before := src[i..], out[..pos];
      assert rest[3..] == src[i + 3..];
      ghost var quad := Quad(src[i], src[i + 1], src[i + 2]);
      PutQuad(out, pos, src[i], src[i + 1], src[i + 2]);
      pos, i, lineLen := pos + 4, i + 3, lineLen + 4;
      if lineLen >= 72 {
        JoinTwo(before, quad, [LF] + Lines(src[i..], 0));
        JoinTwo(before + quad, [LF], Lines(src[i..], 0));
        PutByte(out, pos, LF);
        pos, lineLen := pos + 1, 0;
      } else {
        JoinTwo(before, quad, Lines(src[i..], lineLen));
      }
    }
    pos := PutEnd(out, pos, src[i..], lineLen);
    assert out[..pos] == goal;
    out[pos] := 0;
    return Some(out[..pos]);
  }

  /** The bytes left over, and the feed of a line that is not empty. */
  method PutEnd(out: array<Byte>, pos: nat, rest: seq<Byte>, lineLen: nat) returns (end: nat)
    requires |rest| < 3 && pos + |Lines(rest, lineLen)| <= out.Length
    modifies out
    ensures end == pos + |Lines(rest, lineLen)| && out[..end] == old(out[..pos]) + Lines(rest, lineLen)
  {
    end := pos;
    var len := lineLen;
    ghost var body := out[..pos];
    if |rest| > 0 {
      assert Lines(rest, lineLen) == Tail(rest) + [LF];
      JoinTwo(body, Tail(rest), [LF]);
      PutTail(out, end, rest);
      end, len := end + 4, len + 4;
    }
    if len > 0 {
      PutByte(out, end, LF);
      end := end + 1;
    }
  }

  /** The bytes of `s` that the decoder does not skip. */
  function Strip(s: seq<Byte>): seq<Byte> {
    if s == [] then [] else (if Dtable(s[0]) == BAD then [] else [s[0]]) + Strip(s[1..])
  }

  /** Three bytes from the values of the four characters of a block. */
  function Merge(a: Byte, b: Byte, c: Byte, d: Byte): seq<Byte> {
    [(a << 2) | (b >> 4), (b << 4) | (c >> 2), (c << 6) | d]
  }

  function Bytes(a: Byte, b: Byte, c: Byte, d: Byte): seq<Byte> {
    Merge(Dtable(a), Dtable(b), Dtable(c), Dtable(d))
  }

  function Pads(a: Byte, b: Byte, c: Byte, d: Byte): nat {
    (if a == PAD then 1 else 0) + (if b == PAD then 1 else 0) +
    (if c == PAD then 1 else 0) + (if d == PAD then 1 else 0)
  }

  /** Blocks of four up to the first padded one; None for more than two padding signs in it. */
  function Blocks(s: seq<Byte>): Option<seq<Byte>> {
    if |s| < 4 then Some([])
    else
      var three := Bytes(s[0], s[1], s[2], s[3]);
      match Pads(s[0], s[1], s[2], s[3])
      case 0 => (match Blocks(s[4..]) case None => None case Some(more) => Some(three + more))
      case 1 => Some(three[..2])
      case 2 => Some(three[..1])
      case _ => None
  }

  /** base64_decode; the empty result also stands for malformed input. */
  function Decode(src: seq<Byte>): seq<Byte> {
    var s := Strip(src);
    if |s| == 0 || |s| % 4 != 0 then []
    else match Blocks(s) case None => [] case Some(out) => out
  }

  lemma {:induction false} StripJoin(a: seq<Byte>, b: seq<Byte>)
    ensures Strip(a + b) == Strip(a) + Strip(b)
  {
    if a == [] {
      assert a + b == b;
    } else {
      assert (a + b)[1..] == a[1..] + b;
      StripJoin(a[1..], b);
    }
  }

  lemma {:induction false} StripJunk(junk: seq<Byte>)
    requires forall c | c in junk :: Dtable(c) == BAD
    ensures Strip(junk) == []
  {
    if junk != [] {
      assert junk[0] in junk;
      StripJunk(junk[1..]);
    }
  }

  /** Bytes outside the alphabet and other than the padding sign, put anywhere into any input, do not
      change the result. */
  lemma JunkIgnored(a: seq<Byte>, junk: seq<Byte>, b: seq<Byte>)
    requires forall c | c in junk :: c as char !in TABLE && c as char != '='
    ensures Decode(a + junk + b) == Decode(a + b)
  {
    forall c | c in junk ensures Dtable(c) == BAD { DtableIs(c); }
    StripJoin(a + junk, b);
    StripJoin(a, junk);
    StripJunk(junk);
    StripJoin(a, b);
    assert Strip(a) + [] == Strip(a);
  }

  lemma QuadDecodes(a: Byte, b: Byte, c: Byte)
    ensures var q := Quad(a, b, c); Bytes(q[0], q[1], q[2], q[3]) == [a, b, c]
    ensures forall i | 0 <= i < 4 :: Dtable(Quad(a, b, c)[i]) != BAD && Quad(a, b, c)[i] != PAD
  {
    SymbolDecodes(a >> 2);
    SymbolDecodes(((a & 0x03) << 4) | (b >> 4));
    SymbolDecodes(((b & 0x0f) << 2) | (c >> 6));
    SymbolDecodes(c & 0x3f);
    Shifts(a, b, c);
  }

  lemma Shifts(a: Byte, b: Byte, c: Byte)
    ensures ((a >> 2) << 2) | ((((a & 0x03) << 4) | (b >> 4)) >> 4) == a
    ensures ((((a & 0x03) << 4) | (b >> 4)) << 4) | ((((b & 0x0f) << 2) | (c >> 6)) >> 2) == b
    ensures ((((b & 0x0f) << 2) | (c >> 6)) << 6) | (c & 0x3f) == c
  {
  }

  lemma TailShifts(a: Byte, b: Byte)
    ensures ((a >> 2) << 2) | (((a & 0x03) << 4) >> 4) == a
    ensures ((a >> 2) << 2) | ((((a & 0x03) << 4) | (b >> 4)) >> 4) == a
    ensures ((((a & 0x03) << 4) | (b >> 4)) << 4) | (((b & 0x0f) << 2) >> 2) == b
  {
  }

  lemma OnePadded(t: seq<Byte>, x: Byte, y: Byte, z: Byte)
    requires |t| == 4 && t[0] == Symbol(x) && t[1] == Symbol(y) && t[2] == Symbol(z) && t[3] == PAD
    requires x < 64 && y < 64 && z < 64
    ensures Blocks(t) == Some(Merge(x, y, z, 0)[..2]) && forall i | 0 <= i < 4 :: Dtable(t[i]) != BAD
  {
    SymbolDecodes(x);
    SymbolDecodes(y);
    SymbolDecodes(z);
  }

  lemma TwoPadded(t: seq<Byte>, x: Byte, y: Byte)
    requires |t| == 4 && t[0] == Symbol(x) && t[1] == Symbol(y) && t[2] == PAD && t[3] == PAD
    requires x < 64 && y < 64
    ensures Blocks(t) == Some(Merge(x, y, 0, 0)[..1]) && forall i | 0 <= i < 4 :: Dtable(t[i]) != BAD
  {
    SymbolDecodes(x);
    SymbolDecodes(y);
  }

  lemma OneDecodes(a: Byte)
    ensures Blocks(Tail([a])) == Some([a])
    ensures forall i | 0 <= i < 4 :: Dtable(Tail([a])[i]) != BAD
  {
    TailShifts(a, 0);
    assert Merge(a >> 2, (a & 0x03) << 4, 0, 0)[..1] == [a];
    TwoPadded(Tail([a]), a >> 2, (a & 0x03) << 4);
  }

  lemma TwoDecode(a: Byte, b: Byte)
    ensures Blocks(Tail([a, b])) == Some([a, b])
    ensures forall i | 0 <= i < 4 :: Dtable(Tail([a, b])[i]) != BAD
  {
    TailShifts(a, b);
    assert Merge(a >> 2, ((a & 0x03) << 4) | (b >> 4), (b & 0x0f) << 2, 0)[..2] == [a, b];
    OnePadded(Tail([a, b]), a >> 2, ((a & 0x03) << 4) | (b >> 4), (b & 0x0f) << 2);
  }

  lemma TailDecodes(rest: seq<Byte>)
    requires 1 <= |rest| <= 2
    ensures Blocks(Tail(rest)) == Some(rest)
    ensures forall i | 0 <= i < 4 :: Dtable(Tail(rest)[i]) != BAD
  {
    if |rest| == 1 {
      assert rest == [rest[0]];
      OneDecodes(rest[0]);
    } else {
      assert rest == [rest[0], rest[1]];
      TwoDecode(rest[0], rest[1]);
    }
  }

  lemma {:induction false} PlainDecodes(src: seq<Byte>)
    ensures Blocks(Plain(src)) == Some(src) && |Plain(src)| % 4 == 0
  {
    if src == [] {
    } else if |src| < 3 {
      TailDecodes(src);
    } else {
      var q, more := Quad(src[0], src[1], src[2]), src[3..];
      QuadDecodes(src[0], src[1], src[2]);
      PlainDecodes(more);
      BlockDecodes(q, Plain(more), more);
      assert [src[0], src[1], src[2]] + more == src;
    }
  }

  lemma BlockDecodes(q: seq<Byte>, more: seq<Byte>, out: seq<Byte>)
    requires |q| == 4 && Pads(q[0], q[1], q[2], q[3]) == 0 && Blocks(more) == Some(out)
    ensures Blocks(q + more) == Some(Bytes(q[0], q[1], q[2], q[3]) + out)
  {
    assert (q + more)[4..] == more;
  }

  lemma {:induction false} PlainIsClean(src: seq<Byte>)
    ensures Strip(Plain(src)) == Plain(src)
  {
    if src == [] {
    } else if |src| < 3 {
      TailDecodes(src);
      StripGood(Tail(src));
    } else {
      QuadDecodes(src[0], src[1], src[2]);
      StripGood(Quad(src[0], src[1], src[2]));
      StripJoin(Quad(src[0], src[1], src[2]), Plain(src[3..]));
      PlainIsClean(src[3..]);
    }
  }

  lemma {:induction false} StripGood(s: seq<Byte>)
    requires forall i | 0 <= i < |s| :: Dtable(s[i]) != BAD
    ensures Strip(s) == s
  {
    if s != [] {
      StripGood(s[1..]);
      assert s == [s[0]] + s[1..];
    }
  }

  /** The line feeds are the only thing that Lines adds to Plain. */
  lemma {:induction false} LinesStrip(src: seq<Byte>, lineLen: nat)
    ensures Strip(Lines(src, lineLen)) == Plain(src)
  {
    if |src| >= 3 {
      var q, more := Quad(src[0], src[1], src[2]), src[3..];
      QuadDecodes(src[0], src[1], src[2]);
      StripGood(q);
      if lineLen + 4 >= 72 {
        LinesStrip(more, 0);
        StripFeed(Lines(more, 0));
        StripJoin(q, [LF] + Lines(more, 0));
      } else {
        LinesStrip(more, lineLen + 4);
        StripJoin(q, Lines(more, lineLen + 4));
      }
    } else if src != [] {
      TailDecodes(src);
      StripGood(Tail(src));
      StripFeed([]);
      StripJoin(Tail(src), [LF]);
    } else {
      StripFeed([]);
    }
  }

  lemma StripFeed(s: seq<Byte>)
    ensures Strip([LF] + s) == Strip(s) && Strip([LF]) == []
  {
    StripJunk([LF]);
    StripJoin([LF], s);
  }

  lemma DecodeIs(src: seq<Byte>, p: seq<Byte>, out: seq<Byte>)
    requires Strip(src) == p && |p| % 4 == 0 && Blocks(p) == Some(out)
    ensures Decode(src) == out
  {
  }

  /** Decoding undoes encoding, for every byte string. */
  lemma {:induction false} RoundTrip(src: seq<Byte>)
    ensures Decode(Lines(src, 0)) == src && Decode(Plain(src)) == src
  {
    LinesStrip(src, 0);
    PlainIsClean(src);
    PlainDecodes(src);
    DecodeIs(Lines(src, 0), Plain(src), src);
    DecodeIs(Plain(src), Plain(src), src);
  }

  function Prepend(o: seq<Byte>, r: Option<seq<Byte>>): Option<seq<Byte>> {
    match r case None => None case Some(x) => Some(o + x)
  }

  lemma StripSnoc(src: seq<Byte>, i: nat)
    requires i < |src|
    ensures Strip(src[..i + 1]) == Strip(src[..i]) + (if Dtable(src[i]) == BAD then [] else [src[i]])
    ensures |Strip(src[..i + 1])| <= |Strip(src)| && Strip(src)[..|Strip(src[..i + 1])|] == Strip(src[..i + 1])
  {
    assert src[..i + 1] == src[..i] + [src[i]];
    StripJoin(src[..i], [src[i]]);
    assert src == src[..i + 1] + src[i + 1..];
    StripJoin(src[..i + 1], src[i + 1..]);
  }

  /** The first pass: counts the bytes that are not skipped. */
  method CountGood(src: seq<Byte>) returns (count: nat)
    ensures count == |Strip(src)|
  {
    count := 0;
    for i := 0 to |src|
      invariant count == |Strip(src[..i])|
    {
      StripSnoc(src, i);
      if Dtable(src[i]) != BAD { count := count + 1; }
    }
    assert src[..|src|] == src;
  }

  /** Writes the three bytes of a full block. */
  method PutBlock(out: array<Byte>, pos: nat, block: array<Byte>)
    requires block.Length == 4 && pos + 3 <= out.Length && block != out
    modifies out
    ensures out[..pos + 3] == old(out[..pos]) + Merge(block[0], block[1], block[2], block[3])
  {
    out[pos] := (block[0] << 2) | (block[1] >> 4);
    out[pos + 1] := (block[1] << 4) | (block[2] >> 2);
    out[pos + 2] := (block[2] << 6) | block[3];
  }

  /** Where the second pass stands: what is out, the characters of the unfinished block, and
      whether padding has ended the input, well or badly. */
  datatype Pass = Pass(out: seq<Byte>, block: seq<Byte>, stopped: bool, failed: bool)

  function Push(p: Pass, c: Byte): Pass
    requires |p.block| < 4
  {
    if p.stopped || Dtable(c) == BAD then p
    else if |p.block| < 3 then p.(block := p.block + [c])
    else Complete(p, p.block[0], p.block[1], p.block[2], c)
  }

  function Complete(p: Pass, a: Byte, b: Byte, c: Byte, d: Byte): (r: Pass)
    ensures r.block == []
  {
    var o := p.out + Bytes(a, b, c, d);
    match Pads(a, b, c, d)
    case 0 => Pass(o, [], false, false)
    case 1 => Pass(o[..|o| - 1], [], true, false)
    case 2 => Pass(o[..|o| - 2], [], true, false)
    case _ => Pass([], [], true, true)
  }

  function Run(p: Pass, src: seq<Byte>): Pass
    requires |p.block| < 4
    decreases |src|
  {
    if src == [] then p else Run(Push(p, src[0]), src[1..])
  }

  lemma {:induction false} RunStopped(p: Pass, src: seq<Byte>)
    requires |p.block| < 4 && p.stopped
    ensures Run(p, src) == p
    decreases |src|
  {
    if src != [] { RunStopped(p, src[1..]); }
  }

  lemma CompleteIs(p: Pass, a: Byte, b: Byte, c: Byte, d: Byte, more: seq<Byte>)
    ensures var r := Complete(p, a, b, c, d);
            var whole := Blocks([a, b, c, d] + more);
            if r.stopped then (if r.failed then whole == None else Some(r.out) == Prepend(p.out, whole))
            else Prepend(p.out, whole) == Prepend(r.out, Blocks(more)) && !r.failed
  {
    var three := Bytes(a, b, c, d);
    BlocksOf(a, b, c, d, more);
    CutLast(p.out, three);
    if Blocks(more).Some? { JoinTwo(p.out, three, Blocks(more).value); }
  }

  lemma BlocksOf(a: Byte, b: Byte, c: Byte, d: Byte, more: seq<Byte>)
    ensures Blocks([a, b, c, d] + more) == match Pads(a, b, c, d)
              case 0 => Prepend(Bytes(a, b, c, d), Blocks(more))
              case 1 => Some(Bytes(a, b, c, d)[..2])
              case 2 => Some(Bytes(a, b, c, d)[..1])
              case _ => None
  {
    var s := [a, b, c, d] + more;
    assert s[4..] == more && s[0] == a && s[1] == b && s[2] == c && s[3] == d;
  }

  lemma CutLast(o: seq<Byte>, three: seq<Byte>)
    requires |three| == 3
    ensures var w := o + three; w[..|w| - 1] == o + three[..2] && w[..|w| - 2] == o + three[..1]
  {
  }

  /** `r` is the end of a pass that started with `p` and met the characters `s`. */
  ghost predicate EndsAs(p: Pass, s: seq<Byte>, r: Pass) {
    var whole := Prepend(p.out, Blocks(p.block + s));
    if r.failed then whole == None else whole == Some(r.out)
  }

  lemma EndsFull(p: Pass, c: Byte, more: seq<Byte>, r: Pass)
    requires |p.block| == 3 && !p.failed
    requires var q := Complete(p, p.block[0], p.block[1], p.block[2], c);
             if q.stopped then r == q else EndsAs(q, more, r)
    ensures EndsAs(p, [c] + more, r)
  {
    var four := [p.block[0], p.block[1], p.block[2], c];
    assert p.block + ([c] + more) == four + more;
    assert [] + more == more;
    CompleteIs(p, p.block[0], p.block[1], p.block[2], c, more);
  }

  /** The second pass computes Blocks of what it does not skip. */
  lemma {:induction false} RunIsBlocks(p: Pass, src: seq<Byte>)
    requires |p.block| < 4 && !p.stopped && !p.failed && (|p.block| + |Strip(src)|) % 4 == 0
    ensures EndsAs(p, Strip(src), Run(p, src))
    decreases |src|
  {
    if src == [] {
      assert p.block + [] == [] && p.out + [] == p.out;
    } else if Dtable(src[0]) == BAD {
      assert Strip(src) == Strip(src[1..]) by { assert [] + Strip(src[1..]) == Strip(src[1..]); }
      RunIsBlocks(p, src[1..]);
    } else {
      var q, more := Push(p, src[0]), Strip(src[1..]);
      assert Strip(src) == [src[0]] + more;
      if |p.block| < 3 {
        JoinTwo(p.block, [src[0]], more);
        RunIsBlocks(q, src[1..]);
      } else {
        if q.stopped { RunStopped(q, src[1..]); } else { RunIsBlocks(q, src[1..]); }
        EndsFull(p, src[0], more, Run(q, src[1..]));
      }
    }
  }

  /** The arrays and counters of the second pass hold `p`. */
  ghost predicate Holds(p: Pass, out: seq<Byte>, pos: nat, block: seq<Byte>, count: nat, pad: nat) {
    && pos <= |out| && out[..pos] == p.out && |block| == 4 && count == |p.block| < 4
    && (forall k | 0 <= k < count :: block[k] == Dtable(p.block[k]))
    && pad == CountPads(p.block)
  }

  function CountPads(s: seq<Byte>): nat {
    if s == [] then 0 else CountPads(s[..|s| - 1]) + if s[|s| - 1] == PAD then 1 else 0
  }

  const FRESH := Pass([], [], false, false)

  lemma PassDecodes(src: seq<Byte>)
    requires |Strip(src)| > 0 && |Strip(src)| % 4 == 0
    ensures Decode(src) == if Run(FRESH, src).failed then [] else Run(FRESH, src).out
  {
    RunIsBlocks(FRESH, src);
    var s := Strip(src);
    assert [] + s == s;
    if Blocks(s).Some? { assert [] + Blocks(s).value == Blocks(s).value; }
  }

  lemma PushHolds(p: Pass, c: Byte, out: seq<Byte>, pos: nat, block: seq<Byte>, count: nat, pad: nat)
    requires count == |p.block| + 1 <= 3 && pos <= |out| && out[..pos] == p.out && |block| == 4
    requires forall k | 0 <= k < count - 1 :: block[k] == Dtable(p.block[k])
    requires block[count - 1] == Dtable(c) && pad == CountPads(p.block) + (if c == PAD then 1 else 0)
    ensures Holds(p.(block := p.block + [c]), out, pos, block, count, pad)
  {
    assert (p.block + [c])[..count - 1] == p.block;
  }

  lemma CountThree(a: Byte, b: Byte, c: Byte)
    ensures CountPads([a, b, c])
         == (if a == PAD then 1 else 0) + (if b == PAD then 1 else 0) + (if c == PAD then 1 else 0)
  {
    assert [a, b, c] == [a, b] + [c] && [a, b] == [a] + [b] && [a] == [] + [a];
    PadsSnoc([a, b], c);
    PadsSnoc([a], b);
    PadsSnoc([], a);
  }

  lemma PadsSnoc(s: seq<Byte>, c: Byte)
    ensures CountPads(s + [c]) == CountPads(s) + if c == PAD then 1 else 0
  {
    assert (s + [c])[..|s|] == s;
  }

  lemma CompleteHolds(p: Pass, c: Byte, out: seq<Byte>, pos: nat, block: seq<Byte>, pad: nat)
    requires |p.block| == 3 && |block| == 4 && 3 <= pos <= |out|
    requires forall k | 0 <= k < 3 :: block[k] == Dtable(p.block[k])
    requires block[3] == Dtable(c) && pad == CountPads(p.block) + (if c == PAD then 1 else 0)
    requires out[..pos] == p.out + Merge(block[0], block[1], block[2], block[3])
    ensures var q := Complete(p, p.block[0], p.block[1], p.block[2], c);
            && pad == Pads(p.block[0], p.block[1], p.block[2], c)
            && (pad == 0 ==> !q.stopped && out[..pos] == q.out)
            && (pad > 0 ==> q.stopped && (pad <= 2 ==> !q.failed && out[..pos - pad] == q.out))
            && (pad > 2 ==> q.failed)
  {
    CountThree(p.block[0], p.block[1], p.block[2]);
    assert p.block == [p.block[0], p.block[1], p.block[2]];
    var w := out[..pos];
    assert out[..pos - 1] == w[..pos - 1] && out[..pos - 2] == w[..pos - 2];
  }

  /** base64.h's decoder: a counting pass, then a pass that fills blocks of four. */
  method DecodeBlocks(src: seq<Byte>) returns (str: seq<Byte>)
    ensures str == Decode(src)
  {
    var total := CountGood(src);
    if total == 0 || total % 4 != 0 { return []; }
    var olen := total / 4 * 3;
    var out := new Byte[olen];
    var block := new Byte[4](_ => 0);
    var count, pos, pad, i := 0, 0, 0, 0;
    ghost var p := FRESH;
    PassDecodes(src);
    ghost var goal := Run(p, src);
    while i < |src|
      invariant i <= |src| && !p.stopped && !p.failed && Holds(p, out[..], pos, block[..], count, pad)
      invariant Run(p, src[i..]) == goal
      invariant 4 * pos + 3 * (count + |Strip(src[i..])|) == 3 * total
    {
      assert src[i..][1..] == src[i + 1..];
      var c := src[i];
      ghost var before := p;
      p := Push(p, c);
      var tmp := Dtable(c);
      i := i + 1;
      if tmp != BAD {
        if c == PAD { pad := pad + 1; }
        block[count] := tmp;
        count := count + 1;
        if count == 4 {
          PutBlock(out, pos, block);
          pos := pos + 3;
          count := 0;
          CompleteHolds(before, c, out[..], pos, block[..], pad);
          if pad > 0 {
            RunStopped(p, src[i..]);
            if pad > 2 { return []; }
            pos := pos - pad;
            break;
          }
        } else {
          PushHolds(before, c, out[..], pos, block[..], count, pad);
        }
      }
    }
    return out[..pos];
  }
}

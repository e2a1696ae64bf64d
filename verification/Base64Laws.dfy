/** Where the encoder puts its line feeds, and what the decoder makes of more than one encoding. */
module Base64Laws {
  import opened Wrappers
  import opened Base64

  ghost predicate NoFeeds(q: seq<Byte>) { forall k | 0 <= k < |q| :: q[k] != LF }

  /** Line feeds stand behind every 72 characters of a line and at the end, and nowhere else. */
  ghost predicate FeedsRight(w: seq<Byte>, lineLen: nat) {
    forall i | 0 <= i < |w| :: w[i] == LF <==> (lineLen + i) % 73 == 72 || i == |w| - 1
  }

  lemma FeedsFull(q: seq<Byte>, w: seq<Byte>)
    requires |q| == 4 && NoFeeds(q) && FeedsRight(w, 0)
    ensures FeedsRight(q + ([LF] + w), 68)
  {
    var all := q + ([LF] + w);
    forall i | 0 <= i < |all| ensures all[i] == LF <==> (68 + i) % 73 == 72 || i == |all| - 1 {
      if i < 4 {
        assert all[i] == q[i];
      } else if i >= 5 {
        assert all[i] == w[i - 5] && (68 + i) % 73 == (i - 5) % 73;
      }
    }
  }

  lemma FeedsMore(q: seq<Byte>, w: seq<Byte>, lineLen: nat)
    requires |q| == 4 && NoFeeds(q) && w != [] && lineLen + 4 < 72 && FeedsRight(w, lineLen + 4)
    ensures FeedsRight(q + w, lineLen)
  {
    var all := q + w;
    forall i | 0 <= i < |all| ensures all[i] == LF <==> (lineLen + i) % 73 == 72 || i == |all| - 1 {
      if i < 4 { assert all[i] == q[i]; } else { assert all[i] == w[i - 4]; }
    }
  }

  lemma QuadHasNone(a: Byte, b: Byte, c: Byte)
    ensures |Quad(a, b, c)| == 4 && NoFeeds(Quad(a, b, c))
  {
    QuadDecodes(a, b, c);
  }

  lemma LastLine(src: seq<Byte>, lineLen: nat)
    requires |src| < 3 && lineLen < 72 && lineLen % 4 == 0
    ensures FeedsRight(Lines(src, lineLen), lineLen)
  {
    if src != [] {
      TailDecodes(src);
      var t := Tail(src);
      assert |t| == 4 && NoFeeds(t) && Lines(src, lineLen) == t + [LF];
    }
  }

  lemma LinesStep(src: seq<Byte>, lineLen: nat)
    requires |src| >= 3
    ensures Lines(src, lineLen) == Quad(src[0], src[1], src[2]) +
              if lineLen + 4 >= 72 then [LF] + Lines(src[3..], 0) else Lines(src[3..], lineLen + 4)
  {
  }

  lemma {:induction false} LineFeedsAt(src: seq<Byte>, lineLen: nat)
    requires lineLen < 72 && lineLen % 4 == 0
    ensures FeedsRight(Lines(src, lineLen), lineLen)
    decreases |src|
  {
    if |src| < 3 {
      LastLine(src, lineLen);
    } else {
      var next := if lineLen + 4 >= 72 then 0 else lineLen + 4;
      LineFeedsAt(src[3..], next);
      LinesSize(src[3..], next);
      QuadHasNone(src[0], src[1], src[2]);
      LinesStep(src, lineLen);
      FeedsStep(Quad(src[0], src[1], src[2]), Lines(src[3..], next), lineLen, next);
    }
  }

  lemma FeedsStep(q: seq<Byte>, w: seq<Byte>, lineLen: nat, next: nat)
    requires |q| == 4 && NoFeeds(q) && lineLen < 72 && lineLen % 4 == 0 && FeedsRight(w, next)
    requires next == (if lineLen + 4 >= 72 then 0 else lineLen + 4) && (next > 0 ==> w != [])
    ensures FeedsRight(q + if lineLen + 4 >= 72 then [LF] + w else w, lineLen)
  {
    if lineLen + 4 >= 72 { FeedsFull(q, w); } else { FeedsMore(q, w, lineLen); }
  }

  lemma BlockFirst(q: seq<Byte>, more: seq<Byte>)
    requires |q| == 4
    ensures var pads := Pads(q[0], q[1], q[2], q[3]);
            Blocks(q + more) == if pads == 0 then Prepend(Bytes(q[0], q[1], q[2], q[3]), Blocks(more)) else Blocks(q)
  {
    assert (q + more)[4..] == more;
  }

  lemma PrependTwice(a: seq<Byte>, b: seq<Byte>, r: Option<seq<Byte>>)
    ensures Prepend(a, Prepend(b, r)) == Prepend(a + b, r)
  {
    if r.Some? { JoinTwo(a, b, r.value); }
  }

  lemma TailThen(src: seq<Byte>, more: seq<Byte>)
    requires 1 <= |src| <= 2
    ensures Blocks(Tail(src) + more) == Some(src) && |Tail(src)| == 4
  {
    TailDecodes(src);
    BlockFirst(Tail(src), more);
    assert Tail(src)[3] == PAD;
  }

  lemma NothingThen(more: seq<Byte>)
    ensures Blocks([] + more) == Prepend([], Blocks(more))
  {
    assert [] + more == more;
    if Blocks(more).Some? { assert [] + Blocks(more).value == Blocks(more).value; }
  }

  lemma QuadThen(a: Byte, b: Byte, c: Byte, more: seq<Byte>)
    ensures Blocks(Quad(a, b, c) + more) == Prepend([a, b, c], Blocks(more))
  {
    QuadDecodes(a, b, c);
    BlockFirst(Quad(a, b, c), more);
  }

  /** The blocks of an encoding in front of others: without padding both are decoded, behind padding
      nothing is. */
  lemma {:induction false} PlainThen(src: seq<Byte>, more: seq<Byte>)
    ensures Blocks(Plain(src) + more) == if |src| % 3 == 0 then Prepend(src, Blocks(more)) else Some(src)
    decreases |src|
  {
    if src == [] {
      NothingThen(more);
    } else if |src| < 3 {
      TailThen(src, more);
    } else {
      PlainThen(src[3..], more);
      QuadThen(src[0], src[1], src[2], Plain(src[3..]) + more);
      StepThen(Quad(src[0], src[1], src[2]), Plain(src[3..]), more, src, Blocks(more));
    }
  }

  lemma StepThen(q: seq<Byte>, plain: seq<Byte>, more: seq<Byte>, src: seq<Byte>, r: Option<seq<Byte>>)
    requires |src| >= 3
    ensures q + plain + more == q + (plain + more)
    ensures Prepend([src[0], src[1], src[2]], Prepend(src[3..], r)) == Prepend(src, r)
    ensures [src[0], src[1], src[2]] + src[3..] == src
  {
    JoinTwo(q, plain, more);
    assert [src[0], src[1], src[2]] + src[3..] == src;
    PrependTwice([src[0], src[1], src[2]], src[3..], r);
  }

  lemma DecodeJoined(x: seq<Byte>, y: seq<Byte>, p: seq<Byte>, q: seq<Byte>, out: seq<Byte>)
    requires Strip(x) == p && Strip(y) == q && |p| % 4 == 0 && |q| % 4 == 0 && Blocks(p + q) == Some(out)
    ensures Decode(x + y) == out
  {
    StripBoth(x, y, p, q, p + q);
    DecodeIs(x + y, p + q, out);
  }

  lemma StripBoth(x: seq<Byte>, y: seq<Byte>, p: seq<Byte>, q: seq<Byte>, r: seq<Byte>)
    requires Strip(x) == p && Strip(y) == q && |p| % 4 == 0 && |q| % 4 == 0 && r == p + q
    ensures Strip(x + y) == r && |r| % 4 == 0
  {
    StripJoin(x, y);
    assert |r| == |p| + |q|;
  }

  /** Decoding two encodings one behind the other gives the bytes of both, or of the first one only if
      that ends in padding. */
  lemma Concatenated(a: seq<Byte>, b: seq<Byte>)
    ensures Decode(Lines(a, 0) + Lines(b, 0)) == if |a| % 3 == 0 then a + b else a
  {
    LinesStrip(a, 0);
    LinesStrip(b, 0);
    PlainDecodes(a);
    PlainDecodes(b);
    PlainThen(a, Plain(b));
    DecodeJoined(Lines(a, 0), Lines(b, 0), Plain(a), Plain(b), if |a| % 3 == 0 then a + b else a);
  }

  /** What is behind padding does not matter, as long as it does not break a block. */
  lemma BehindPadding(a: seq<Byte>, more: seq<Byte>)
    requires |a| % 3 != 0 && |Strip(more)| % 4 == 0
    ensures Decode(Lines(a, 0) + more) == a
  {
    LinesStrip(a, 0);
    PlainDecodes(a);
    PlainThen(a, Strip(more));
    DecodeJoined(Lines(a, 0), more, Plain(a), Strip(more), a);
  }

  /** A block with more than two padding signs, reached by the decoder, makes the whole input bad. */
  lemma TooMuchPadding(a: seq<Byte>, q: seq<Byte>, more: seq<Byte>)
    requires |a| % 3 == 0 && |q| == 4 && (forall k | 0 <= k < 4 :: Dtable(q[k]) != BAD)
    requires Pads(q[0], q[1], q[2], q[3]) > 2
    ensures Decode(Lines(a, 0) + (q + more)) == []
  {
    LinesStrip(a, 0);
    StripGood(q);
    StripJoin(q, more);
    StripJoin(Lines(a, 0), q + more);
    BlockFirst(q, Strip(more));
    PlainThen(a, q + Strip(more));
  }
}

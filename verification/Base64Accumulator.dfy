/** httplib's base64_encode: a bit accumulator that shifts bytes in and sextets out. */
module Base64Accumulator {
  import opened Base64

  function Symbols(values: seq<Byte>): seq<Byte> {
    seq(|values|, i requires 0 <= i < |values| => Symbol(values[i]))
  }

  /** How the four sextets of a group are cut out of a byte and its predecessor. The lemmas on the
      order of the sextets hold for any cutting; CUT is the one of the encoding. */
  datatype Cutter = Cutter(s1: Byte -> Byte, s2: (Byte, Byte) -> Byte, s3: (Byte, Byte) -> Byte, s4: Byte -> Byte)

  const CUT := Cutter(c => c >> 2,
                      (p, c) => ((p & 0x03) << 4) | (c >> 4),
                      (p, c) => ((p & 0x0f) << 2) | (c >> 6),
                      c => c & 0x3f)

  function Group(k: Cutter, a: Byte, b: Byte, c: Byte): seq<Byte> {
    [k.s1(a), k.s2(a, b), k.s3(b, c), k.s4(c)]
  }

  /** The sextets the accumulator has been able to emit for `src`. */
  function Emitted(k: Cutter, src: seq<Byte>): seq<Byte> {
    if |src| >= 3 then Group(k, src[0], src[1], src[2]) + Emitted(k, src[3..])
    else if |src| == 2 then [k.s1(src[0]), k.s2(src[0], src[1])]
    else if |src| == 1 then [k.s1(src[0])]
    else []
  }

  /** The sextets that the next byte `c` adds after `p`, depending on the place in the group. */
  function Next(k: Cutter, place: nat, p: Byte, c: Byte): seq<Byte>
    requires place < 3
  {
    if place == 0 then [k.s1(c)] else if place == 1 then [k.s2(p, c)] else [k.s3(p, c), k.s4(c)]
  }

  /** The sextet that the end of the input adds after the last byte `p`, if any. */
  function Closing(k: Cutter, place: nat, p: Byte): seq<Byte>
    requires place < 3
  {
    if place == 0 then [] else if place == 1 then [k.s2(p, 0)] else [k.s3(p, 0)]
  }

  function Padding(place: nat): seq<Byte>
    requires place < 3
  {
    if place == 0 then [] else if place == 1 then [PAD, PAD] else [PAD]
  }

  function Last(src: seq<Byte>): Byte { if src == [] then 0 else src[|src| - 1] }

  /** All of the accumulating encoder's output. */
  function Accumulated(k: Cutter, src: seq<Byte>): seq<Byte> {
    Symbols(Emitted(k, src) + Closing(k, |src| % 3, Last(src))) + Padding(|src| % 3)
  }

  lemma SnocSmall(k: Cutter, src: seq<Byte>, c: Byte)
    requires |src| < 3
    ensures Emitted(k, src + [c]) == Emitted(k, src) + Next(k, |src|, Last(src), c)
  {
    var s := src + [c];
    if |src| == 2 {
      assert s[0] == src[0] && s[1] == src[1] && s[2] == c && s[3..] == [];
      assert Emitted(k, s) == Group(k, src[0], src[1], c) + [];
    } else if |src| == 1 {
      assert s[0] == src[0] && s[1] == c;
    }
  }

  lemma {:induction false} EmittedSnoc(k: Cutter, src: seq<Byte>, c: Byte)
    ensures Emitted(k, src + [c]) == Emitted(k, src) + Next(k, |src| % 3, Last(src), c)
    decreases |src|
  {
    if |src| >= 3 {
      var s, rest := src + [c], src[3..];
      assert s[3..] == rest + [c] && s[0] == src[0] && s[1] == src[1] && s[2] == src[2];
      EmittedSnoc(k, rest, c);
      assert Next(k, |rest| % 3, Last(rest), c) == Next(k, |src| % 3, Last(src), c);
      JoinTwo(Group(k, src[0], src[1], src[2]), Emitted(k, rest), Next(k, |src| % 3, Last(src), c));
    } else {
      SnocSmall(k, src, c);
    }
  }

  lemma SymbolsJoin(a: seq<Byte>, b: seq<Byte>)
    ensures Symbols(a + b) == Symbols(a) + Symbols(b)
  {
  }

  lemma {:induction false} EmittedSize(k: Cutter, src: seq<Byte>)
    ensures |Emitted(k, src)| % 4 == |src| % 3
    decreases |src|
  {
    if |src| >= 3 { EmittedSize(k, src[3..]); }
  }

  lemma QuadSymbols(a: Byte, b: Byte, c: Byte)
    ensures Quad(a, b, c) == Symbols(Group(CUT, a, b, c))
  {
  }

  lemma CutBeforeEnd(p: Byte)
    ensures CUT.s2(p, 0) == (p & 0x03) << 4 && CUT.s3(p, 0) == (p & 0x0f) << 2
  {
  }

  lemma OneLeft(k: Cutter, a: Byte)
    ensures Accumulated(k, [a]) == [Symbol(k.s1(a)), Symbol(k.s2(a, 0)), PAD, PAD]
  {
  }

  lemma TwoLeft(k: Cutter, a: Byte, b: Byte)
    ensures Accumulated(k, [a, b]) == [Symbol(k.s1(a)), Symbol(k.s2(a, b)), Symbol(k.s3(b, 0)), PAD]
  {
  }

  lemma TailSymbols(rest: seq<Byte>)
    requires 1 <= |rest| <= 2
    ensures Tail(rest) == Accumulated(CUT, rest)
  {
    if |rest| == 1 {
      assert rest == [rest[0]];
      OneLeft(CUT, rest[0]);
      CutBeforeEnd(rest[0]);
    } else {
      assert rest == [rest[0], rest[1]];
      TwoLeft(CUT, rest[0], rest[1]);
      CutBeforeEnd(rest[1]);
    }
  }

  lemma AccumulatedStep(k: Cutter, src: seq<Byte>)
    requires |src| >= 3
    ensures Accumulated(k, src) == Symbols(Group(k, src[0], src[1], src[2])) + Accumulated(k, src[3..])
  {
    var rest, q := src[3..], Group(k, src[0], src[1], src[2]);
    var place, closing := |rest| % 3, Closing(k, |rest| % 3, Last(rest));
    assert |src| % 3 == place && (place > 0 ==> Last(rest) == Last(src));
    JoinTwo(q, Emitted(k, rest), closing);
    SymbolsJoin(q, Emitted(k, rest) + closing);
    JoinTwo(Symbols(q), Symbols(Emitted(k, rest) + closing), Padding(place));
  }

  lemma {:induction false} AccumulatedPlain(src: seq<Byte>)
    ensures Accumulated(CUT, src) == Plain(src)
    decreases |src|
  {
    if |src| >= 3 {
      AccumulatedPlain(src[3..]);
      QuadSymbols(src[0], src[1], src[2]);
      AccumulatedStep(CUT, src);
    } else if src != [] {
      TailSymbols(src);
    }
  }

  /** The two encoders agree: the accumulating one computes the grouping one's output without its
      line feeds, and the decoder inverts it as well. */
  lemma EncodersAgree(src: seq<Byte>)
    ensures Accumulated(CUT, src) == Strip(Lines(src, 0)) && Decode(Accumulated(CUT, src)) == src
  {
    AccumulatedPlain(src);
    LinesStrip(src, 0);
    RoundTrip(src);
  }

  /** The low byte of the accumulator. */
  ghost predicate Holds(val: bv32, p: Byte) { val & 0xFF == p as bv32 }

  function Shifted(val: bv32, c: Byte): bv32 { (val << 8) + (c as bv32) }

  lemma LowBitsEnd(val: bv32, p: Byte)
    requires Holds(val, p)
    ensures (((val << 8) >> 4) & 0x3F) as Byte == CUT.s2(p, 0)
    ensures (((val << 8) >> 6) & 0x3F) as Byte == CUT.s3(p, 0)
  {
  }

  function Sextet(val: bv32, valb: int): Byte
    requires 0 <= valb <= 6
  {
    ((val >> valb) & 0x3F) as Byte
  }

  /** The inner loop's output for an accumulator with `valb` + 6 bits waiting. */
  function Sextets(val: bv32, valb: int): seq<Byte>
    requires 0 <= valb <= 6
  {
    [Sextet(val, valb)] + if valb == 6 then [Sextet(val, 0)] else []
  }

  lemma LowByte(val: bv32, c: Byte)
    ensures Holds(Shifted(val, c), c)
  {
  }

  lemma FirstSextet(val: bv32, c: Byte)
    ensures Sextet(Shifted(val, c), 2) == CUT.s1(c)
  {
  }

  lemma SecondSextet(val: bv32, p: Byte, c: Byte)
    requires Holds(val, p)
    ensures Sextet(Shifted(val, c), 4) == CUT.s2(p, c)
  {
  }

  lemma LastSextets(val: bv32, p: Byte, c: Byte)
    requires Holds(val, p)
    ensures Sextet(Shifted(val, c), 6) == CUT.s3(p, c) && Sextet(Shifted(val, c), 0) == CUT.s4(c)
  {
  }

  /** Only the byte that came last matters for what the accumulator emits next; whatever is above
      it, and whatever has been shifted out at the top, does not. */
  lemma SextetsAreNext(val: bv32, place: nat, p: Byte, c: Byte)
    requires place < 3 && Holds(val, p)
    ensures Sextets(Shifted(val, c), 2 * place + 2) == Next(CUT, place, p, c)
  {
    if place == 0 {
      FirstSextet(val, c);
    } else if place == 1 {
      SecondSextet(val, p, c);
    } else {
      LastSextets(val, p, c);
    }
  }

  /** The inner loop. */
  method Drain(out: seq<Byte>, val: bv32, valb: int) returns (more: seq<Byte>, left: int)
    requires valb == 2 || valb == 4 || valb == 6
    ensures more == out + Symbols(Sextets(val, valb))
    ensures left == if valb == 6 then -6 else valb - 6
  {
    more, left := out, valb;
    while left >= 0
      invariant -6 <= left <= 6
      invariant || (left == valb && more == out)
                || (left == valb - 6 && more == out + [Symbol(Sextet(val, valb))])
                || (valb == 6 && left == -6 && more == out + Symbols(Sextets(val, valb)))
    {
      more := more + [Symbol(Sextet(val, left))];
      left := left - 6;
    }
  }

  method PadOut(out: seq<Byte>, ghost place: nat) returns (padded: seq<Byte>)
    requires place < 3 && |out| % 4 == (if place == 0 then 0 else place + 1)
    ensures padded == out + Padding(place)
  {
    padded := out;
    while |padded| % 4 != 0
      invariant || padded == out || (place >= 1 && padded == out + [PAD])
                || (place == 1 && padded == out + [PAD, PAD])
      decreases |out| + 2 - |padded|
    {
      padded := padded + [PAD];
    }
  }

  lemma TakeByte(input: seq<Byte>, i: nat, val: bv32)
    requires i < |input| && Holds(val, Last(input[..i]))
    ensures Holds(Shifted(val, input[i]), Last(input[..i + 1]))
    ensures Symbols(Emitted(CUT, input[..i + 1]))
         == Symbols(Emitted(CUT, input[..i])) + Symbols(Sextets(Shifted(val, input[i]), 2 * (i % 3) + 2))
  {
    var before := input[..i];
    assert input[..i + 1] == before + [input[i]];
    EmittedSnoc(CUT, before, input[i]);
    LowByte(val, input[i]);
    SextetsAreNext(val, i % 3, Last(before), input[i]);
    SymbolsJoin(Emitted(CUT, before), Next(CUT, i % 3, Last(before), input[i]));
  }

  /** `val` stands for the low 32 bits of the accumulator. */
  method Encode(input: seq<Byte>) returns (out: seq<Byte>)
    ensures out == Plain(input)
  {
    out := [];
    var val: bv32 := 0;
    var valb := -6;
    for i := 0 to |input|
      invariant out == Symbols(Emitted(CUT, input[..i])) && valb == 2 * (i % 3) - 6
      invariant Holds(val, Last(input[..i]))
    {
      TakeByte(input, i, val);
      val := (val << 8) + (input[i] as bv32);
      valb := valb + 8;
      out, valb := Drain(out, val, valb);
    }
    assert input[..|input|] == input;
    out := Finish(input, out, val, valb);
  }

  /** After the loop: the bits that are left, and the padding. */
  method Finish(ghost input: seq<Byte>, shown: seq<Byte>, val: bv32, valb: int) returns (out: seq<Byte>)
    requires shown == Symbols(Emitted(CUT, input)) && Holds(val, Last(input)) && valb == 2 * (|input| % 3) - 6
    ensures out == Plain(input)
  {
    Ending(input, val);
    out := shown;
    if valb > -6 {
      out := out + [Symbol((((val << 8) >> (valb + 8)) & 0x3F) as Byte)];
    }
    out := PadOut(out, |input| % 3);
  }

  lemma Ending(input: seq<Byte>, val: bv32)
    requires Holds(val, Last(input))
    ensures var place := |input| % 3;
            var shown := Symbols(Emitted(CUT, input)) + (
              if place == 0 then [] else [Symbol((((val << 8) >> (2 * place + 2)) & 0x3F) as Byte)]);
            shown + Padding(place) == Plain(input) && |shown| % 4 == (if place == 0 then 0 else place + 1)
  {
    var place, p := |input| % 3, Last(input);
    var shown := Symbols(Emitted(CUT, input)) + Symbols(Closing(CUT, place, p));
    EmittedSize(CUT, input);
    AccumulatedPlain(input);
    SymbolsJoin(Emitted(CUT, input), Closing(CUT, place, p));
    LowBitsEnd(val, p);
    assert shown + Padding(place) == Plain(input);
    assert Symbols(Closing(CUT, place, p))
        == if place == 0 then [] else [Symbol((((val << 8) >> (2 * place + 2)) & 0x3F) as Byte)];
  }
}

/** What decoding makes of any text, piece by piece, and the bytes of a Unicode escape. */
module QueryDecoding {
  import opened Wrappers
  import opened Text
  import opened Hex
  import opened Query

  /** Nothing that begins in front of `b` reaches into it. */
  predicate Separate(b: string) { b == "" || (!IsHex(b[0]) && b[0] != 'u') }

  lemma {:induction false} FromHexFront(a: string, b: string, i: nat, cnt: nat, acc: nat)
    requires Separate(b) && i <= |a|
    ensures FromHex(a + b, i, cnt, acc) == FromHex(a, i, cnt, acc)
    decreases cnt
  {
    if cnt > 0 && i < |a| && IsHex(a[i]) { FromHexFront(a, b, i + 1, cnt - 1, acc * 16 + HexVal(a[i])); }
  }

  lemma DecodeAtFront(a: string, b: string, i: nat, plus: bool)
    requires Separate(b) && i < |a|
    ensures DecodeAt(a + b, i, plus) == DecodeAt(a, i, plus)
    ensures DecodeAt(a, i, plus).1 <= |a|
  {
    FromHexFront(a, b, i + 1, 2, 0);
    if i + 2 <= |a| { FromHexFront(a, b, i + 2, 4, 0); }
    DecodeAtIs(a, i, plus);
    if i + 1 == |a| && b != "" { assert (a + b)[i + 1] == b[0]; }
  }

  lemma {:induction false} DecodeFront(a: string, b: string, i: nat, plus: bool)
    requires Separate(b) && i <= |a|
    ensures DecodeFrom(a + b, i, plus) == DecodeFrom(a, i, plus) + DecodeFrom(a + b, |a|, plus)
    decreases |a| - i
  {
    if i < |a| {
      var (out, next) := DecodeAt(a, i, plus);
      DecodeAtFront(a, b, i, plus);
      DecodeFront(a, b, next, plus);
      DecodeStep(a + b, i, out, next, plus);
      DecodeStep(a, i, out, next, plus);
      Assoc(out, DecodeFrom(a, next, plus), DecodeFrom(a + b, |a|, plus));
    } else {
      assert DecodeFrom(a, i, plus) == "";
    }
  }

  lemma {:induction false} FromHexBack(a: string, b: string, i: nat, cnt: nat, acc: nat)
    ensures FromHex(a + b, |a| + i, cnt, acc) == FromHex(b, i, cnt, acc)
    decreases cnt
  {
    if cnt > 0 && i < |b| && IsHex(b[i]) { FromHexBack(a, b, i + 1, cnt - 1, acc * 16 + HexVal(b[i])); }
  }

  lemma DecodeAtBack(a: string, b: string, i: nat, plus: bool)
    requires i < |b|
    ensures DecodeAt(a + b, |a| + i, plus) == (DecodeAt(b, i, plus).0, |a| + DecodeAt(b, i, plus).1)
    ensures DecodeAt(b, i, plus).1 <= |b|
  {
    var s := a + b;
    FromHexBack(a, b, i + 1, 2, 0);
    FromHexBack(a, b, i + 2, 4, 0);
    assert s[|a| + i] == b[i] && (i + 1 < |b| ==> s[|a| + i + 1] == b[i + 1]);
    DecodeAtIs(b, i, plus);
  }

  lemma {:induction false} DecodeBack(a: string, b: string, i: nat, plus: bool)
    requires i <= |b|
    ensures DecodeFrom(a + b, |a| + i, plus) == DecodeFrom(b, i, plus)
    decreases |b| - i
  {
    if i < |b| {
      var (out, next) := DecodeAt(b, i, plus);
      DecodeAtBack(a, b, i, plus);
      DecodeBack(a, b, next, plus);
      DecodeStep(a + b, |a| + i, out, |a| + next, plus);
      DecodeStep(b, i, out, next, plus);
    }
  }

  /** A text may be cut in front of any character that cannot be inside an escape. */
  lemma DecodeCut(a: string, b: string, plus: bool)
    requires Separate(b)
    ensures DecodeFrom(a + b, 0, plus) == DecodeFrom(a, 0, plus) + DecodeFrom(b, 0, plus)
  {
    DecodeFront(a, b, 0, plus);
    DecodeBack(a, b, 0, plus);
  }

  /** A character that cannot belong to an escape is decoded by itself, and what is around it does not
      matter: a plus sign to a blank or itself, any other to itself. */
  lemma DecodeAround(a: string, ch: char, b: string, plus: bool)
    requires !IsHex(ch) && ch != 'u' && ch != '%'
    ensures DecodeFrom(a + ([ch] + b), 0, plus)
         == DecodeFrom(a, 0, plus) + ([if plus && ch == '+' then ' ' else ch] + DecodeFrom(b, 0, plus))
  {
    var s := [ch] + b;
    DecodeCut(a, s, plus);
    DecodeAtIs(s, 0, plus);
    DecodeStep(s, 0, [if plus && ch == '+' then ' ' else ch], 1, plus);
    DecodeBack([ch], b, 0, plus);
  }

  /** %XX stands for the byte of that value. */
  lemma DecodeEscape(a: string, x: char, y: char, b: string, plus: bool)
    requires IsHex(x) && IsHex(y)
    ensures DecodeFrom(a + (['%', x, y] + b), 0, plus)
         == DecodeFrom(a, 0, plus) + ([(16 * HexVal(x) + HexVal(y)) as char] + DecodeFrom(b, 0, plus))
  {
    var s, v := ['%', x, y] + b, 16 * HexVal(x) + HexVal(y);
    DecodeCut(a, s, plus);
    TwoHex(s, x, y);
    DecodeStep(s, 0, [v as char], 3, plus);
    DecodeBack(['%', x, y], b, 0, plus);
  }

  lemma TwoHex(s: string, x: char, y: char)
    requires |s| >= 3 && IsHex(x) && IsHex(y) && s[1] == x && s[2] == y
    ensures x != 'u' && FromHex(s, 1, 2, 0) == Some(16 * HexVal(x) + HexVal(y))
  {
    assert FromHex(s, 2, 1, HexVal(x)) == FromHex(s, 3, 0, 16 * HexVal(x) + HexVal(y));
  }

  /** A continuation byte carries six bits. */
  predicate Continues(ch: char) { 0x80 <= ch as int < 0xC0 }

  function Six(ch: char): nat
    requires Continues(ch)
  {
    ch as int - 0x80
  }

  /** `b` is the encoding of `code` by section 3 of RFC 3629: the shortest form, no surrogates. */
  predicate IsUtf8(code: nat, b: string) {
    && !(0xD800 <= code < 0xE000)
    && match |b|
       case 1 => b[0] as int == code < 0x80
       case 2 =>
         && 0xC0 <= b[0] as int < 0xE0 && Continues(b[1])
         && code == (b[0] as int - 0xC0) * 0x40 + Six(b[1]) >= 0x80
       case 3 =>
         && 0xE0 <= b[0] as int < 0xF0 && Continues(b[1]) && Continues(b[2])
         && code == ((b[0] as int - 0xE0) * 0x40 + Six(b[1])) * 0x40 + Six(b[2]) >= 0x800
       case 4 =>
         && 0xF0 <= b[0] as int < 0xF5 && Continues(b[1]) && Continues(b[2]) && Continues(b[3])
         && code == (((b[0] as int - 0xF0) * 0x40 + Six(b[1])) * 0x40 + Six(b[2])) * 0x40 + Six(b[3])
         && 0x10000 <= code < 0x110000
       case _ => false
  }

  /** to_utf8 writes that encoding, and nothing for a code point that has none. */
  lemma Utf8Is(code: nat)
    ensures if code < 0x110000 && !(0xD800 <= code < 0xE000) then IsUtf8(code, ToUtf8(code)) else ToUtf8(code) == ""
  {
    if 0x800 <= code { Sixes(code); }
  }

  lemma Sixes(code: nat)
    ensures code == (code / 0x1000 * 0x40 + code / 0x40 % 0x40) * 0x40 + code % 0x40
    ensures code / 0x1000 == code / 0x40000 * 0x40 + code / 0x1000 % 0x40
  {
    assert code == code / 0x40 * 0x40 + code % 0x40;
    assert code / 0x40 == code / 0x40 / 0x40 * 0x40 + code / 0x40 % 0x40 && code / 0x40 / 0x40 == code / 0x1000;
    assert code / 0x1000 / 0x40 == code / 0x40000;
  }

  /** A code point has one encoding only. */
  lemma Utf8Unique(code: nat, b: string, d: string)
    requires IsUtf8(code, b) && IsUtf8(code, d)
    ensures b == d
  {
    Utf8Length(code, b);
    Utf8Length(code, d);
    match |b| {
      case 2 => SameDigits(b[0] as int - 0xC0, Six(b[1]), d[0] as int - 0xC0, Six(d[1]));
      case 3 =>
        var x, y := b[0] as int - 0xE0, d[0] as int - 0xE0;
        SameDigits(x * 0x40 + Six(b[1]), Six(b[2]), y * 0x40 + Six(d[1]), Six(d[2]));
        SameDigits(x, Six(b[1]), y, Six(d[1]));
      case 4 =>
        var x, y := b[0] as int - 0xF0, d[0] as int - 0xF0;
        var x1, y1 := x * 0x40 + Six(b[1]), y * 0x40 + Six(d[1]);
        SameDigits(x1 * 0x40 + Six(b[2]), Six(b[3]), y1 * 0x40 + Six(d[2]), Six(d[3]));
        SameDigits(x1, Six(b[2]), y1, Six(d[2]));
        SameDigits(x, Six(b[1]), y, Six(d[1]));
      case _ =>
    }
  }

  lemma SameDigits(p: int, x: nat, q: int, y: nat)
    requires x < 0x40 && y < 0x40
    ensures p * 0x40 + x == q * 0x40 + y <==> p == q && x == y
  {
  }

  lemma Utf8Length(code: nat, b: string)
    requires IsUtf8(code, b)
    ensures |b| == if code < 0x80 then 1 else if code < 0x800 then 2 else if code < 0x10000 then 3 else 4
  {
  }

  function FourDigits(x: char, y: char, z: char, w: char): nat
    requires IsHex(x) && IsHex(y) && IsHex(z) && IsHex(w)
  {
    HexVal(x) * 0x1000 + HexVal(y) * 0x100 + HexVal(z) * 0x10 + HexVal(w)
  }

  /** %uXXXX stands for the encoding of that code point, and for nothing if it is a surrogate. */
  lemma DecodeUnicode(a: string, x: char, y: char, z: char, w: char, b: string, plus: bool)
    requires IsHex(x) && IsHex(y) && IsHex(z) && IsHex(w)
    ensures var code := FourDigits(x, y, z, w);
            exists bytes ::
              && (if 0xD800 <= code < 0xE000 then bytes == "" else IsUtf8(code, bytes))
              && DecodeFrom(a + (['%', 'u', x, y, z, w] + b), 0, plus)
                 == DecodeFrom(a, 0, plus) + (bytes + DecodeFrom(b, 0, plus))
  {
    var s, code := ['%', 'u', x, y, z, w] + b, FourDigits(x, y, z, w);
    DecodeCut(a, s, plus);
    FourHex(s, x, y, z, w);
    Utf8Is(code);
    DecodeStep(s, 0, ToUtf8(code), 6, plus);
    DecodeBack(['%', 'u', x, y, z, w], b, 0, plus);
  }

  lemma FourHex(s: string, x: char, y: char, z: char, w: char)
    requires IsHex(x) && IsHex(y) && IsHex(z) && IsHex(w)
    requires |s| >= 6 && s[2] == x && s[3] == y && s[4] == z && s[5] == w
    ensures FromHex(s, 2, 4, 0) == Some(FourDigits(x, y, z, w))
  {
    var p := HexVal(x) * 16 + HexVal(y);
    assert FromHex(s, 2, 4, 0) == FromHex(s, 3, 3, HexVal(x)) == FromHex(s, 4, 2, p);
    assert FromHex(s, 4, 2, p) == FromHex(s, 5, 1, p * 16 + HexVal(z));
    assert FromHex(s, 5, 1, p * 16 + HexVal(z)) == FromHex(s, 6, 0, (p * 16 + HexVal(z)) * 16 + HexVal(w));
  }

  /** A path is decoded without plus conversion: it stays as it is if and only if it has no escape. */
  lemma PathKept(path: string)
    ensures DecodeFrom(path, 0, false) == path <==> forall i | 0 <= i < |path| :: !EscapeAt(path, i)
  {
    DecodeKeeps(path, 0, false);
    assert path[0..] == path;
  }

  /** Letters, digits and nine marks need no encoding. */
  predicate Kept(ch: char) {
    'a' <= ch <= 'z' || 'A' <= ch <= 'Z' || '0' <= ch <= '9' || ch in "-_.!~*'()"
  }

  lemma EncodedByteIs(ch: char)
    requires ch as int < 256
    ensures if Kept(ch) then EncodeByte(ch) == [ch]
            else exists x, y :: x in "0123456789ABCDEF" && y in "0123456789ABCDEF" && EncodeByte(ch) == ['%', x, y]
  {
    var x, y := UpperDigit(ch as int / 16), UpperDigit(ch as int % 16);
    UpperIs(ch as int / 16);
    UpperIs(ch as int % 16);
    if !Kept(ch) { assert EncodeByte(ch) == ['%', x, y]; }
  }

  lemma UpperIs(v: nat)
    requires v < 16
    ensures UpperDigit(v) in "0123456789ABCDEF"
  {
    assert UpperDigit(v) == "0123456789ABCDEF"[v];
  }

  /** Encoding keeps a text if and only if it is made of those. */
  lemma {:induction false} EncodingKeeps(s: string)
    requires IsBytes(s)
    ensures |Encode(s)| >= |s| && (Encode(s) == s <==> forall i | 0 <= i < |s| :: Kept(s[i]))
  {
    if s != "" {
      var e, rest := EncodeByte(s[0]), s[1..];
      EncodingKeeps(rest);
      EncodedByteIs(s[0]);
      assert s == [s[0]] + rest;
      if Kept(s[0]) {
        assert Encode(s) == [s[0]] + Encode(rest) && Encode(s)[1..] == Encode(rest);
        assert (forall i | 0 <= i < |s| :: Kept(s[i])) <==> forall i | 0 <= i < |rest| :: Kept(rest[i]);
      } else {
        assert |Encode(s)| == 3 + |Encode(rest)|;
      }
    }
  }
}

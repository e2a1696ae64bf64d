/** Percent-encoding of query strings. */
module Query {
  import opened Wrappers
  import opened Text
  import opened Hex

  /** Characters stand for bytes. */
  predicate IsBytes(s: string) { forall i | 0 <= i < |s| :: s[i] as int < 256 }

  /** The characters encode_query_param leaves alone. */
  predicate Unreserved(c: char) {
    IsAlnum(c) || c == '-' || c == '_' || c == '.' || c == '!' || c == '~' || c == '*' || c == '\'' ||
    c == '(' || c == ')'
  }

  function UpperDigit(v: nat): (c: char)
    requires v < 16
    ensures IsHex(c) && HexVal(c) == v && Unreserved(c) && c != 'u'
  {
    if v < 10 then (v + '0' as int) as char else (v - 10 + 'A' as int) as char
  }

  function EncodeByte(c: char): string
    requires c as int < 256
  {
    if Unreserved(c) then [c] else ['%', UpperDigit(c as int / 16), UpperDigit(c as int % 16)]
  }

  function Encode(s: string): string
    requires IsBytes(s)
  {
    if s == "" then "" else EncodeByte(s[0]) + Encode(s[1..])
  }

  lemma {:induction false} EncodeSnoc(s: string, c: char)
    requires IsBytes(s) && c as int < 256
    ensures IsBytes(s + [c]) && Encode(s + [c]) == Encode(s) + EncodeByte(c)
  {
    if s == "" {
      assert s + [c] == [c];
    } else {
      assert (s + [c])[1..] == s[1..] + [c];
      EncodeSnoc(s[1..], c);
    }
  }

  method EncodeQueryParam(value: string) returns (escaped: string)
    requires IsBytes(value)
    ensures escaped == Encode(value)
  {
    escaped := "";
    for i := 0 to |value|
      invariant escaped == Encode(value[..i])
    {
      var c := value[i];
      EncodeSnoc(value[..i], c);
      assert value[..i + 1] == value[..i] + [c];
      if Unreserved(c) {
        escaped := escaped + [c];
      } else {
        escaped := escaped + "%" + [UpperDigit(c as int / 16)] + [UpperDigit(c as int % 16)];
      }
    }
    assert value[..|value|] == value;
  }

  /** from_hex_to_i: exactly `cnt` digits at `i`. */
  function FromHex(s: string, i: nat, cnt: nat, acc: nat): Option<nat>
    decreases cnt
  {
    if cnt == 0 then Some(acc)
    else if i < |s| && IsHex(s[i]) then FromHex(s, i + 1, cnt - 1, acc * 16 + HexVal(s[i]))
    else None
  }

  /** to_utf8; surrogates and too large numbers give nothing. */
  function ToUtf8(code: nat): string {
    if code < 0x80 then [code as char]
    else if code < 0x800 then [(0xC0 + code / 0x40) as char, (0x80 + code % 0x40) as char]
    else if 0xD800 <= code < 0xE000 then ""
    else if code < 0x10000 then
      [(0xE0 + code / 0x1000) as char, (0x80 + code / 0x40 % 0x40) as char, (0x80 + code % 0x40) as char]
    else if code < 0x110000 then
      [(0xF0 + code / 0x40000) as char, (0x80 + code / 0x1000 % 0x40) as char,
       (0x80 + code / 0x40 % 0x40) as char, (0x80 + code % 0x40) as char]
    else ""
  }

  /** What decode_url does at index `i`: the characters produced and the index to go on from. */
  function DecodeAt(s: string, i: nat, plus: bool): (r: (string, nat))
    requires i < |s|
    ensures r.1 > i
  {
    if s[i] == '%' && i + 1 < |s| then
      if s[i + 1] == 'u' then
        match FromHex(s, i + 2, 4, 0)
        case Some(v) => (ToUtf8(v), i + 6)
        case None => ([s[i]], i + 1)
      else
        match FromHex(s, i + 1, 2, 0)
        case Some(v) => ([(v % 256) as char], i + 3)
        case None => ([s[i]], i + 1)
    else if plus && s[i] == '+' then (" ", i + 1)
    else ([s[i]], i + 1)
  }

  function DecodeFrom(s: string, i: nat, plus: bool): string
    decreases |s| - i
  {
    if i >= |s| then ""
    else
      var (out, next) := DecodeAt(s, i, plus);
      out + DecodeFrom(s, next, plus)
  }

  method DecodeUrl(s: string, convertPlusToSpace: bool) returns (result: string)
    ensures result == DecodeFrom(s, 0, convertPlusToSpace)
  {
    result := "";
    var i := 0;
    while i < |s|
      invariant result + DecodeFrom(s, i, convertPlusToSpace) == DecodeFrom(s, 0, convertPlusToSpace)
    {
      ghost var was, step := result, DecodeAt(s, i, convertPlusToSpace);
      assert DecodeFrom(s, i, convertPlusToSpace) == step.0 + DecodeFrom(s, step.1, convertPlusToSpace);
      var piece := [s[i]];
      if s[i] == '%' && i + 1 < |s| {
        if s[i + 1] == 'u' {
          var val := FromHex(s, i + 2, 4, 0);
          if val.Some? {
            piece := ToUtf8(val.value);
            i := i + 5;
          }
        } else {
          var val := FromHex(s, i + 1, 2, 0);
          if val.Some? {
            piece := [(val.value % 256) as char];
            i := i + 2;
          }
        }
      } else if convertPlusToSpace && s[i] == '+' {
        piece := " ";
      }
      i := i + 1;
      assert piece == step.0 && i == step.1;
      Assoc(was, piece, DecodeFrom(s, i, convertPlusToSpace));
      result := result + piece;
    }
    assert result + "" == result;
  }

  /** `cnt` hexadecimal digits stand at `i`. */
  predicate HexAt(s: string, i: nat, cnt: nat) {
    i + cnt <= |s| && forall j | i <= j < i + cnt :: IsHex(s[j])
  }

  /** A %XX or %uXXXX escape begins at `i`. */
  predicate EscapeAt(s: string, i: nat) {
    i < |s| && s[i] == '%' && (HexAt(s, i + 1, 2) || (i + 1 < |s| && s[i + 1] == 'u' && HexAt(s, i + 2, 4)))
  }

  lemma {:induction false} FromHexIs(s: string, i: nat, cnt: nat, acc: nat)
    ensures FromHex(s, i, cnt, acc).Some? <==> cnt == 0 || HexAt(s, i, cnt)
    decreases cnt
  {
    if cnt > 0 && i < |s| && IsHex(s[i]) { FromHexIs(s, i + 1, cnt - 1, acc * 16 + HexVal(s[i])); }
  }

  /** An escape gets shorter, a plus sign becomes a blank if asked for, any other character stays. */
  lemma DecodeAtIs(s: string, i: nat, plus: bool)
    requires i < |s|
    ensures var (out, next) := DecodeAt(s, i, plus);
            if EscapeAt(s, i) then |out| < next - i && next <= |s|
            else out == [if plus && s[i] == '+' then ' ' else s[i]] && next == i + 1
  {
    FromHexIs(s, i + 1, 2, 0);
    FromHexIs(s, i + 2, 4, 0);
    if i + 1 < |s| && s[i + 1] == 'u' { assert !IsHex(s[i + 1]); }
  }

  lemma {:induction false} DecodeLength(s: string, i: nat, plus: bool)
    requires i <= |s|
    ensures |DecodeFrom(s, i, plus)| <= |s| - i
    decreases |s| - i
  {
    if i < |s| {
      DecodeAtIs(s, i, plus);
      var (out, next) := DecodeAt(s, i, plus);
      DecodeStep(s, i, out, next, plus);
      DecodeLength(s, next, plus);
    }
  }

  /** No character of `s` from `i` on is changed by decoding. */
  predicate Literal(s: string, i: nat, plus: bool) {
    forall j | i <= j < |s| :: !(plus && s[j] == '+') && !EscapeAt(s, j)
  }

  /** Decoding keeps a text if and only if it has no escape and, with plus conversion, no plus sign. */
  lemma {:induction false} DecodeKeeps(s: string, i: nat, plus: bool)
    requires i <= |s|
    ensures DecodeFrom(s, i, plus) == s[i..] <==> Literal(s, i, plus)
    decreases |s| - i
  {
    if i < |s| {
      DecodeAtIs(s, i, plus);
      var (out, next) := DecodeAt(s, i, plus);
      DecodeStep(s, i, out, next, plus);
      DecodeLength(s, next, plus);
      if EscapeAt(s, i) {
        assert |out + DecodeFrom(s, next, plus)| < |s| - i;
      } else {
        DecodeKeeps(s, i + 1, plus);
        HeadOfRest(s, i, out[0], DecodeFrom(s, i + 1, plus));
        assert Literal(s, i, plus) <==> !(plus && s[i] == '+') && Literal(s, i + 1, plus);
      }
    }
  }

  /** A text that keeps its length but is changed loses its plus signs. */
  lemma {:induction false} DecodePlus(s: string, i: nat)
    requires i <= |s|
    ensures var r := DecodeFrom(s, i, true);
            |r| == |s| - i ==> '+' !in r && (r == s[i..] || '+' in s[i..])
    decreases |s| - i
  {
    if i < |s| {
      DecodeAtIs(s, i, true);
      var (out, next) := DecodeAt(s, i, true);
      DecodeStep(s, i, out, next, true);
      DecodeLength(s, next, true);
      assert s[i..] == [s[i]] + s[i + 1..];
      if !EscapeAt(s, i) { DecodePlus(s, i + 1); }
    }
  }

  lemma HeadOfRest(s: string, i: nat, c: char, rest: string)
    requires i < |s|
    ensures [c] + rest == s[i..] <==> c == s[i] && rest == s[i + 1..]
  {
    assert s[i..] == [s[i]] + s[i + 1..];
    if [c] + rest == s[i..] { assert ([c] + rest)[1..] == rest; }
  }

  lemma HexPair(s: string, i: nat, hi: nat, lo: nat)
    requires i + 1 < |s| && hi < 16 && lo < 16 && s[i] == UpperDigit(hi) && s[i + 1] == UpperDigit(lo)
    ensures FromHex(s, i, 2, 0) == Some(hi * 16 + lo)
  {
    assert FromHex(s, i + 1, 1, hi) == FromHex(s, i + 2, 0, hi * 16 + lo);
  }

  lemma DecodeEncodedByte(s: string, i: nat, c: char, plus: bool)
    requires c as int < 256 && At(s, i, EncodeByte(c))
    ensures DecodeAt(s, i, plus) == ([c], i + |EncodeByte(c)|)
  {
    var e := EncodeByte(c);
    assert forall k | 0 <= k < |e| :: s[i + k] == s[i..i + |e|][k] == e[k];
    if !Unreserved(c) {
      var hi, lo := c as int / 16, c as int % 16;
      assert e == ['%', UpperDigit(hi), UpperDigit(lo)];
      assert s[i + 1] == UpperDigit(hi) && s[i + 2] == UpperDigit(lo);
      HexPair(s, i + 1, hi, lo);
    } else {
      assert s[i] == c;
    }
  }

  lemma DecodeStep(w: string, i: nat, out: string, next: nat, plus: bool)
    requires i < |w| && DecodeAt(w, i, plus) == (out, next)
    ensures DecodeFrom(w, i, plus) == out + DecodeFrom(w, next, plus)
  {
  }

  lemma TailOfRest(s: string, beg: nat, a: string, b: string)
    requires beg <= |s| && s[beg..] == a + b
    ensures At(s, beg, a) && s[beg + |a|..] == b
  {
    assert s[beg..][..|a|] == s[beg..beg + |a|] && s[beg..][|a|..] == s[beg + |a|..];
  }

  lemma {:induction false} DecodeEncodedFrom(w: string, i: nat, s: string, plus: bool)
    requires IsBytes(s) && i <= |w| && w[i..] == Encode(s)
    ensures DecodeFrom(w, i, plus) == s
    decreases |s|
  {
    if s != "" {
      var e := EncodeByte(s[0]);
      TailOfRest(w, i, e, Encode(s[1..]));
      DecodeEncodedByte(w, i, s[0], plus);
      DecodeStep(w, i, [s[0]], i + |e|, plus);
      DecodeEncodedFrom(w, i + |e|, s[1..], plus);
      assert s == [s[0]] + s[1..];
    }
  }

  /** Decoding undoes encoding, with or without plus conversion. */
  lemma DecodeEncode(s: string, plus: bool)
    requires IsBytes(s)
    ensures DecodeFrom(Encode(s), 0, plus) == s
  {
    assert Encode(s)[0..] == Encode(s);
    DecodeEncodedFrom(Encode(s), 0, s, plus);
  }
}

/** Base-16 numerals: the writer's digits and what strtoul reads back. */
module Hex {

  const ULONG_MAX: nat := 0xFFFF_FFFF_FFFF_FFFF

  predicate IsHex(c: char) { '0' <= c <= '9' || 'a' <= c <= 'f' || 'A' <= c <= 'F' }

  function HexVal(c: char): (v: nat)
    requires IsHex(c)
    ensures v < 16
  {
    if c <= '9' then c as int - '0' as int
    else if c >= 'a' then c as int - 'a' as int + 10
    else c as int - 'A' as int + 10
  }

  function HexDigit(v: nat): (c: char)
    requires v < 16
    ensures IsHex(c) && HexVal(c) == v
  {
    if v < 10 then (v + '0' as int) as char else (v - 10 + 'a' as int) as char
  }

  predicate AllHex(s: string) { forall i | 0 <= i < |s| :: IsHex(s[i]) }

  /** Positional value, most significant digit first. */
  function Value(s: string): nat
    requires AllHex(s)
  {
    if s == "" then 0 else 16 * Value(s[..|s| - 1]) + HexVal(s[|s| - 1])
  }

  /** The numeral of `n`, most significant digit first. */
  function ToHex(n: nat): (s: string)
    ensures s != "" && AllHex(s)
  {
    if n < 16 then [HexDigit(n)] else ToHex(n / 16) + [HexDigit(n % 16)]
  }

  /** from_i_to_hex: digits are put in front, least significant first. */
  method FromIToHex(i: nat) returns (ret: string)
    ensures ret == ToHex(i)
  {
    ret := [HexDigit(i % 16)];
    var n := i / 16;
    while n > 0
      invariant ToHex(i) == (if n > 0 then ToHex(n) else "") + ret
    {
      var c := HexDigit(n % 16);
      HexStep(n, ret);
      ret := [c] + ret;
      n := n / 16;
    }
    assert "" + ret == ret;
  }

  lemma HexStep(n: nat, ret: string)
    requires n > 0
    ensures ToHex(n) + ret == (if n / 16 > 0 then ToHex(n / 16) else "") + ([HexDigit(n % 16)] + ret)
  {
    var c := HexDigit(n % 16);
    if n < 16 {
      assert ToHex(n) == [c];
      Join("", c, ret);
    } else {
      assert ToHex(n) == ToHex(n / 16) + [c];
      Join(ToHex(n / 16), c, ret);
    }
  }

  lemma Join(a: string, c: char, b: string)
    ensures a + [c] + b == a + ([c] + b)
    ensures a == "" ==> [c] + b == a + ([c] + b)
  {
  }

  /** Reading a written numeral gives the number back. */
  lemma {:induction false} ValueOfHex(n: nat)
    ensures Value(ToHex(n)) == n
  {
    if n >= 16 {
      ValueOfHex(n / 16);
      assert ToHex(n)[..|ToHex(n)| - 1] == ToHex(n / 16);
    } else {
      assert ToHex(n)[..0] == "";
    }
  }

  predicate IsSpace(c: char) { c == ' ' || '\t' <= c <= '\r' }

  function SkipSpace(s: string): string {
    if s != "" && IsSpace(s[0]) then SkipSpace(s[1..]) else s
  }

  /** Number of hexadecimal digits `s` begins with. */
  function HexRun(s: string): (k: nat)
    ensures k <= |s| && AllHex(s[..k])
    ensures k < |s| ==> !IsHex(s[k])
  {
    if s != "" && IsHex(s[0]) then
      var k := 1 + HexRun(s[1..]);
      assert forall i | 1 <= i < k :: s[i] == s[1..][i - 1];
      k
    else 0
  }

  datatype Number = NoDigits | Number(value: nat)

  function DropPrefix(u: string): string {
    if |u| >= 3 && u[0] == '0' && (u[1] == 'x' || u[1] == 'X') && IsHex(u[2]) then u[2..] else u
  }

  function Magnitude(v: string): Number {
    if HexRun(v) == 0 then NoDigits else Number(Value(v[..HexRun(v)]))
  }

  /** Out-of-range magnitudes saturate; a minus sign negates the others modulo 2^64. */
  function Signed(m: Number, negative: bool): (r: Number)
    ensures r.Number? <==> m.Number?
    ensures r.Number? ==> r.value <= ULONG_MAX
  {
    match m
    case NoDigits => NoDigits
    case Number(n) =>
      if n > ULONG_MAX then Number(ULONG_MAX)
      else if negative && n > 0 then Number(ULONG_MAX + 1 - n)
      else m
  }

  /** strtoul with base 16 on a C string: blanks, a sign, an optional 0x, digits. */
  function Strtoul16(s: string): (r: Number)
    ensures r.Number? ==> r.value <= ULONG_MAX
  {
    var t := SkipSpace(s);
    if t != "" && (t[0] == '-' || t[0] == '+') then Signed(Magnitude(DropPrefix(t[1..])), t[0] == '-')
    else Signed(Magnitude(DropPrefix(t)), false)
  }

  lemma {:induction false} HexRunIs(digits: string, rest: string)
    requires AllHex(digits) && (rest == "" || !IsHex(rest[0]))
    ensures HexRun(digits + rest) == |digits|
  {
    if digits == "" {
      assert digits + rest == rest;
    } else {
      HexRunIs(digits[1..], rest);
      assert (digits + rest)[1..] == digits[1..] + rest;
    }
  }

  /** strtoul reads a written size up to what follows it. */
  lemma ReadsHex(n: nat, rest: string)
    requires n <= ULONG_MAX && (rest == "" || (!IsHex(rest[0]) && rest[0] != 'x' && rest[0] != 'X'))
    ensures Strtoul16(ToHex(n) + rest) == Number(n)
  {
    var h := ToHex(n);
    var s := h + rest;
    assert s[0] == h[0];
    assert SkipSpace(s) == s;
    assert DropPrefix(s) == s by {
      if |s| >= 2 { assert s[1] == if |h| >= 2 then h[1] else rest[0]; }
    }
    assert Magnitude(s) == Number(n) by {
      HexRunIs(h, rest);
      ValueOfHex(n);
      assert s[..|h|] == h;
    }
  }

  /** Written numerals are in lower case and have no leading zero. */
  lemma {:induction false} ToHexCanonical(n: nat)
    ensures n > 0 ==> ToHex(n)[0] != '0'
    ensures forall i | 0 <= i < |ToHex(n)| :: ToHex(n)[i] in "0123456789abcdef"
  {
    if n < 16 { LowerDigit(n); } else { ToHexCanonical(n / 16); LowerDigit(n % 16); }
  }

  lemma LowerDigit(v: nat)
    requires v < 16
    ensures HexDigit(v) in "0123456789abcdef" && (v > 0 ==> HexDigit(v) != '0')
  {
    assert HexDigit(v) == "0123456789abcdef"[v];
  }

  // ----- the grammar of strtoul -----

  /** White space of the C locale. */
  ghost predicate AllSpace(s: string) { forall i | 0 <= i < |s| :: s[i] == ' ' || 9 <= s[i] as int <= 13 }

  lemma {:induction false} SpaceSkipped(blanks: string, t: string)
    requires AllSpace(blanks) && (t != "" ==> !(t[0] == ' ' || 9 <= t[0] as int <= 13))
    ensures SkipSpace(blanks + t) == t
  {
    if blanks == "" {
      assert blanks + t == t;
    } else {
      assert (blanks + t)[1..] == blanks[1..] + t;
      SpaceSkipped(blanks[1..], t);
    }
  }

  /** The number that a sign and digits stand for as an unsigned long: too large ones are ULONG_MAX,
      others are negated modulo 2^64. */
  function Reading(sign: string, digits: string): nat
    requires AllHex(digits)
  {
    var v := Value(digits);
    if v > ULONG_MAX then ULONG_MAX else if sign == "-" then (ULONG_MAX + 1 - v) % (ULONG_MAX + 1) else v
  }

  /** The text goes on with something that is no digit and does not make a leading 0 a prefix. */
  predicate EndsNumber(zerox: string, digits: string, rest: string) {
    && (rest != "" ==> !IsHex(rest[0]))
    && !(zerox == "" && digits == "0" && |rest| >= 2 && (rest[0] == 'x' || rest[0] == 'X') && IsHex(rest[1]))
  }

  lemma MagnitudeIs(digits: string, rest: string)
    requires AllHex(digits) && (rest != "" ==> !IsHex(rest[0]))
    ensures Magnitude(digits + rest) == if digits == "" then NoDigits else Number(Value(digits))
  {
    HexRunIs(digits, rest);
    assert (digits + rest)[..|digits|] == digits;
  }

  predicate IsSign(sign: string) { sign == "" || sign == "+" || sign == "-" }

  predicate IsPrefix(zerox: string, digits: string) {
    zerox == "" || ((zerox == "0x" || zerox == "0X") && digits != "")
  }

  lemma PrefixDropped(zerox: string, digits: string, rest: string)
    requires IsPrefix(zerox, digits) && AllHex(digits) && EndsNumber(zerox, digits, rest)
    ensures DropPrefix(zerox + digits + rest) == digits + rest
  {
    var u := zerox + digits + rest;
    if zerox != "" {
      assert u[0] == '0' && u[1] == zerox[1] && u[2] == digits[0];
      assert u[2..] == digits + rest;
    } else {
      assert u == digits + rest;
      assert |digits| >= 2 ==> u[1] == digits[1];
      assert |digits| == 1 && |rest| >= 2 ==> u[1] == rest[0] && u[2] == rest[1] && digits == [u[0]];
    }
  }

  /** What a number without a sign may begin with, and what follows when there is none. */
  predicate NoSignOrSpace(u: string) {
    u == "" || !(u[0] == '+' || u[0] == '-' || u[0] == ' ' || 9 <= u[0] as int <= 13)
  }

  lemma BehindSign(blanks: string, sign: string, u: string)
    requires AllSpace(blanks) && IsSign(sign) && (sign == "" ==> NoSignOrSpace(u))
    ensures Strtoul16(blanks + (sign + u)) == Signed(Magnitude(DropPrefix(u)), sign == "-")
  {
    var t := sign + u;
    SpaceSkipped(blanks, t);
    if sign != "" { assert t[0] == sign[0] && t[1..] == u; } else { assert t == u; }
  }

  lemma SignedReads(sign: string, digits: string)
    requires IsSign(sign) && AllHex(digits)
    ensures Signed(Number(Value(digits)), sign == "-") == Number(Reading(sign, digits))
  {
  }

  /** strtoul with base 16: white space, at most one sign, an optional 0x in front of digits, and digits;
      what follows is left alone. */
  lemma StrtoulReads(blanks: string, sign: string, zerox: string, digits: string, rest: string)
    requires AllSpace(blanks) && IsSign(sign) && IsPrefix(zerox, digits)
    requires AllHex(digits) && digits != "" && EndsNumber(zerox, digits, rest)
    ensures Strtoul16(blanks + (sign + (zerox + digits + rest))) == Number(Reading(sign, digits))
  {
    var u := zerox + digits + rest;
    assert u[0] == if zerox != "" then '0' else digits[0];
    PrefixDropped(zerox, digits, rest);
    MagnitudeIs(digits, rest);
    BehindSign(blanks, sign, u);
    SignedReads(sign, digits);
  }

  /** Without digits there is no number. */
  lemma StrtoulRefuses(blanks: string, sign: string, rest: string)
    requires AllSpace(blanks) && IsSign(sign) && (sign == "" ==> NoSignOrSpace(rest))
    requires rest != "" ==> !IsHex(rest[0])
    ensures Strtoul16(blanks + (sign + rest)) == NoDigits
  {
    BehindSign(blanks, sign, rest);
    MagnitudeIs("", rest);
    assert "" + rest == rest;
  }
}

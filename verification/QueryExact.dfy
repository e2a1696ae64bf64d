/** Exactly which lists of parameters come back when they are printed and parsed. */
module QueryExact {
  import opened Wrappers
  import opened Text
  import opened Query
  import opened QueryText

  /** A field begins at `beg`. */
  predicate IsStart(s: string, d: char, beg: nat) { beg <= |s| && (beg == 0 || s[beg - 1] == d) }

  predicate OnlyBlanks(s: string, i: nat, j: nat) {
    j <= |s| && forall n | i <= n < j :: IsBlank(s[n])
  }

  lemma NotAcross(s: string, i: nat, j: nat, n: nat)
    requires OnlyBlanks(s, i, j) && n < |s| && !IsBlank(s[n])
    ensures n < i || j <= n
  {
  }

  /** Nothing but blanks in front of `x` in its field. */
  ghost predicate StartsField(s: string, d: char, x: nat) {
    exists beg: nat :: beg <= x && OnlyBlanks(s, beg, x) && IsStart(s, d, beg)
  }

  /** Nothing but blanks from `y` on in its field. */
  ghost predicate EndsField(s: string, d: char, y: nat) {
    exists k: nat :: y <= k && OnlyBlanks(s, y, k) && (k == |s| || s[k] == d)
  }

  /** The stretch is a field, trimmed. */
  ghost predicate IsPiece(s: string, d: char, x: nat, y: nat) {
    && x < y <= |s| && Untrimmable(s[x..y]) && d !in s[x..y]
    && StartsField(s, d, x) && EndsField(s, d, y)
  }

  /** A stretch of `s` that is a field of it. */
  ghost predicate FieldAt(s: string, d: char, kv: string, x: nat) {
    x + |kv| <= |s| && kv == s[x..x + |kv|] && IsPiece(s, d, x, x + |kv|)
  }

  lemma {:induction false} NoneBefore(s: string, d: char, beg: nat, j: nat)
    requires beg <= |s| && beg <= j < FieldEnd(s, d, beg)
    ensures s[j] != d
    decreases j - beg
  {
    if j > beg { NoneBefore(s, d, beg + 1, j); }
  }

  /** A field that is not blank. */
  lemma FieldPlace(s: string, d: char, beg: nat, k: nat, field: string) returns (x: nat, y: nat)
    requires IsStart(s, d, beg) && k == FieldEnd(s, d, beg)
    requires Field(s, beg, k) == field != ""
    ensures beg <= x && y <= k && IsPiece(s, d, x, y) && field == s[x..y]
  {
    x, y := TrimLeft(s, beg, |s|), TrimRight(s, k);
    LeftBlanks(s, beg, |s|);
    RightBlanks(s, k);
    assert OnlyBlanks(s, beg, x) && OnlyBlanks(s, y, k);
    forall i | 0 <= i < y - x ensures s[x..y][i] != d { NoneBefore(s, d, beg, x + i); }
  }

  lemma BlankStep(s: string, d: char, beg: nat, ps: seq<string>)
    requires beg <= |s| && PiecesFrom(s, d, beg) == ps != [] && Field(s, beg, FieldEnd(s, d, beg)) == ""
    ensures var k := FieldEnd(s, d, beg); IsStart(s, d, k + 1) && PiecesFrom(s, d, k + 1) == ps
  {
  }

  lemma PieceStep(s: string, d: char, beg: nat, ps: seq<string>)
    requires beg <= |s| && PiecesFrom(s, d, beg) == ps && Field(s, beg, FieldEnd(s, d, beg)) != ""
    ensures var k := FieldEnd(s, d, beg); ps != [] && ps[0] == Field(s, beg, k) && Rest(s, d, k) == ps[1..]
  {
  }

  /** The first field that is not blank. */
  lemma {:induction false} FirstField(s: string, d: char, beg: nat, ps: seq<string>) returns (b: nat)
    requires IsStart(s, d, beg) && PiecesFrom(s, d, beg) == ps != []
    ensures beg <= b && IsStart(s, d, b) && PiecesFrom(s, d, b) == ps && Field(s, b, FieldEnd(s, d, b)) != ""
    decreases |s| - beg
  {
    b := beg;
    if Field(s, beg, FieldEnd(s, d, beg)) == "" {
      BlankStep(s, d, beg, ps);
      b := FirstField(s, d, FieldEnd(s, d, beg) + 1, ps);
    }
  }

  /** The others begin behind its end. */
  lemma OthersFrom(s: string, d: char, b: nat, k: nat, ps: seq<string>)
    requires b <= |s| && k == FieldEnd(s, d, b) && Rest(s, d, k) == ps != []
    ensures IsStart(s, d, k + 1) && PiecesFrom(s, d, k + 1) == ps
  {
  }

  /** Where the first piece stands. */
  lemma FirstPiece(s: string, d: char, beg: nat, ps: seq<string>) returns (x: nat, y: nat, k: nat)
    requires IsStart(s, d, beg) && PiecesFrom(s, d, beg) == ps != []
    ensures beg <= x && y <= k && IsPiece(s, d, x, y) && ps[0] == s[x..y]
    ensures |ps| > 1 ==> IsStart(s, d, k + 1) && PiecesFrom(s, d, k + 1) == ps[1..]
  {
    var b := FirstField(s, d, beg, ps);
    k := FieldEnd(s, d, b);
    PieceStep(s, d, b, ps);
    x, y := FieldPlace(s, d, b, k, ps[0]);
    if |ps| > 1 { OthersFrom(s, d, b, k, ps[1..]); }
  }

  /** Where any piece stands. */
  lemma {:induction false} PieceAt(s: string, d: char, beg: nat, ps: seq<string>, n: nat) returns (x: nat, y: nat)
    requires IsStart(s, d, beg) && PiecesFrom(s, d, beg) == ps && n < |ps|
    ensures beg <= x && IsPiece(s, d, x, y) && ps[n] == s[x..y]
    decreases n
  {
    var k;
    x, y, k := FirstPiece(s, d, beg, ps);
    if n > 0 { x, y := PieceAt(s, d, k + 1, ps[1..], n - 1); }
  }

  /** Where the first piece stands, and the last one if there are more. */
  lemma FirstAndLast(s: string, d: char, ps: seq<string>) returns (x: nat, y: nat, u: nat, w: nat)
    requires Pieces(s, d) == ps != []
    ensures IsPiece(s, d, x, y) && ps[0] == s[x..y]
    ensures |ps| > 1 ==> y < u && IsPiece(s, d, u, w) && ps[|ps| - 1] == s[u..w]
  {
    var k;
    x, y, k := FirstPiece(s, d, 0, ps);
    u, w := 0, 0;
    if |ps| > 1 { u, w := PieceAt(s, d, k + 1, ps[1..], |ps| - 2); }
  }

  /** Every entry comes from a field. */
  lemma {:induction false} AddedFrom(params: Params, kvs: seq<string>, cache: set<string>, e: Pair)
    requires e in AddAll(params, kvs, cache)
    ensures e in params || exists kv :: kv in kvs && Entry(kv) == Some(e)
    decreases |kvs|
  {
    if kvs != [] {
      var kv, more := kvs[0], kvs[1..];
      HeadTail(kvs);
      assert kv in kvs && forall x | x in more :: x in kvs;
      if kv in cache {
        AddedFrom(params, more, cache, e);
      } else {
        AddedFrom(Add(params, kv), more, cache + {kv}, e);
        if e in Add(params, kv) && Entry(kv).Some? { EmplacedIn(params, Entry(kv).value, e); }
      }
    }
  }

  lemma {:induction false} EmplacedIn(p: Params, e: Pair, x: Pair)
    requires x in Emplace(p, e)
    ensures x in p || x == e
  {
    if p != [] && LexLeq(p[0].0, e.0) && x != p[0] { EmplacedIn(p[1..], e, x); }
  }

  lemma InSlice(t: string, x: nat, y: nat, n: nat)
    requires x <= n < y <= |t|
    ensures t[n] in t[x..y]
  {
    assert t[x..y][n - x] == t[n];
  }

  lemma NotInSlice(s: string, i: nat, j: nat, c: char)
    requires i <= j <= |s| && c !in s
    ensures c !in s[i..j]
  {
    assert forall n | 0 <= n < j - i :: s[i..j][n] == s[i + n];
  }

  /** A stretch without `d` lies on one side of any `d`. */
  lemma OneSide(t: string, x: nat, y: nat, d: char, m: nat)
    requires x <= y <= |t| && d !in t[x..y] && m < |t| && t[m] == d
    ensures y <= m || m < x
  {
    if x <= m < y { InSlice(t, x, y, m); }
  }

  /** Behind the last `=`, at `m`, nothing is cut. */
  predicate LastSign(t: string, m: nat) {
    m < |t| && t[m] == '=' && forall n | m < n < |t| :: t[n] != '=' && t[n] != '&' && !IsBlank(t[n])
  }

  lemma TokenShape(k: string, v: string)
    requires IsBytes(v)
    ensures var t := Token((k, v)); LastSign(t, |k|) && t[..|k|] == k && t[|k| + 1..] == Encode(v)
  {
    var t, ev := Token((k, v)), Encode(v);
    EncodedChars(v);
    assert forall n | |k| < n < |t| :: t[n] == ev[n - |k| - 1];
  }

  /** A piece of a field of such a text lies in front of the last `=`, or is all that is behind it. */
  lemma PieceSide(t: string, m: nat, x: nat, y: nat, i: nat, j: nat)
    requires LastSign(t, m) && IsPiece(t, '&', x, y) && IsPiece(t[x..y], '=', i, j)
    ensures t[x..y][i..j] == t[x + i..x + j]
    ensures x + j <= m || (x + i == m + 1 && x + j == |t|)
  {
    SliceOfSlice(t, x, y, i, j);
    OneSide(t, x + i, x + j, '=', m);
    if x + j > m {
      NothingAfter(t, m, '&', y);
      NothingBefore(t, m, '&', x);
      SideOfLast(t, m, x, y, i, j);
    }
  }

  lemma NothingAfter(t: string, m: nat, d: char, y: nat)
    requires m < y <= |t| && EndsField(t, d, y) && forall n | m < n < |t| :: t[n] != d && !IsBlank(t[n])
    ensures y == |t|
  {
    var k: nat :| y <= k && OnlyBlanks(t, y, k) && (k == |t| || t[k] == d);
    if y < |t| { NotAcross(t, y, k, y); }
  }

  lemma NothingBefore(t: string, m: nat, d: char, x: nat)
    requires x <= |t| && StartsField(t, d, x) && forall n | m <= n < |t| :: t[n] != d && !IsBlank(t[n])
    ensures x <= m
  {
    var b: nat :| b <= x && OnlyBlanks(t, b, x) && IsStart(t, d, b);
    if m < x { NotAcross(t, b, x, x - 1); }
  }

  lemma SideOfLast(t: string, m: nat, x: nat, y: nat, i: nat, j: nat)
    requires LastSign(t, m) && x <= m && y == |t| && m < x + i && IsPiece(t[x..y], '=', i, j)
    ensures x + i == m + 1 && x + j == |t|
  {
    var kv, l := t[x..y], m - x;
    assert forall n | 0 <= n < |kv| :: kv[n] == t[x + n];
    NothingAfter(kv, l, '=', j);
    NothingBefore(kv, l + 1, '=', i);
  }

  /** What an entry may still lose when it is printed and parsed again. */
  function Weight(e: Pair): nat {
    4 * (|e.0| + |e.1|) + if e.0 == "" then 2 else if '+' in e.0 then 1 else 0
  }

  /** A key that keeps its length but is changed loses its plus signs. */
  lemma KeyLoses(k: string)
    ensures var r := DecodeFrom(k, 0, true);
            |r| <= |k| && (|r| == |k| ==> r == k || ('+' in k && '+' !in r))
  {
    DecodeLength(k, 0, true);
    DecodePlus(k, 0);
  }

  /** An entry whose key is what was printed behind the last `=`, that is the value. */
  predicate FromValue(f: Pair, e: Pair) { e == (f.1, "") && f.1 != "" }

  /** An entry whose key was the piece `q` of the printed key; its value is the printed one, unless
      the two together are shorter. */
  predicate FromKey(f: Pair, e: Pair, q: string) {
    && q != "" && Untrimmable(q) && '=' !in q && '&' !in q
    && |q| <= |f.0| && (|q| == |f.0| ==> q == f.0)
    && e.0 == DecodeFrom(q, 0, true)
    && (e.1 == f.1 || |e.0| + |e.1| < |f.0| + |f.1|)
  }

  /** `kv` is a field of the printed pair `f`, at `x`. */
  ghost predicate IsField(f: Pair, kv: string, x: nat) {
    IsBytes(f.1) && FieldAt(Token(f), '&', kv, x)
  }

  /** What a piece of a field of a printed pair decodes to. */
  lemma PieceValue(f: Pair, kv: string, x: nat, i: nat, j: nat)
    requires IsField(f, kv, x) && IsPiece(kv, '=', i, j)
    ensures var r := DecodeFrom(kv[i..j], 0, true);
            if x + j <= |f.0| then |r| <= j - i && (j - i == |f.0| ==> kv[i..j] == f.0)
            else r == f.1 && r != "" && j == |kv|
  {
    var t := Token(f);
    TokenShape(f.0, f.1);
    PieceSide(t, |f.0|, x, x + |kv|, i, j);
    if x + j <= |f.0| {
      DecodeLength(t[x + i..x + j], 0, true);
      FrontPiece(f.0, t, x + i, x + j);
    } else {
      DecodeEncode(f.1, true);
      assert t[x + i..x + j] == Encode(f.1) != "";
    }
  }

  /** The parts of an entry. */
  lemma EntryIs(kv: string, e: Pair)
    requires Entry(kv) == Some(e)
    ensures var ps := Pieces(kv, '=');
            && ps != [] && e.0 == DecodeFrom(ps[0], 0, true)
            && (if |ps| > 1 then e.1 == DecodeFrom(ps[|ps| - 1], 0, true) else e.1 == "")
  {
    assert DecodeFrom("", 0, true) == "";
  }

  /** Where an entry of a printed pair comes from. */
  lemma Sources(f: Pair, kv: string, x: nat, e: Pair) returns (q: string)
    requires IsField(f, kv, x) && Entry(kv) == Some(e)
    ensures FromValue(f, e) || FromKey(f, e, q)
  {
    EntryIs(kv, e);
    var i, j, u, w := FirstAndLast(kv, '=', Pieces(kv, '='));
    q := kv[i..j];
    KeyPiece(f, kv, x, i, j);
    PieceValue(f, kv, x, i, j);
    if |Pieces(kv, '=')| > 1 { PieceValue(f, kv, x, u, w); }
  }

  lemma KeyPiece(f: Pair, kv: string, x: nat, i: nat, j: nat)
    requires IsField(f, kv, x) && IsPiece(kv, '=', i, j)
    ensures kv[i..j] != "" && Untrimmable(kv[i..j]) && '=' !in kv[i..j] && '&' !in kv[i..j]
  {
    NotInSlice(kv, i, j, '&');
  }

  lemma FrontPiece(k: string, t: string, x: nat, y: nat)
    requires x <= y <= |k| <= |t| && t[..|k|] == k
    ensures |t[x..y]| == |k| ==> t[x..y] == k
  {
  }

  /** A key that survives gives its pair back; any other entry weighs less than the pair it comes from. */
  lemma Produced(f: Pair, kv: string, x: nat, e: Pair)
    requires IsField(f, kv, x) && Entry(kv) == Some(e)
    ensures if KeySurvives(f.0) then e == f else Weight(e) < Weight(f)
  {
    if KeySurvives(f.0) {
      Printed(f, kv, x);
    } else {
      var q := Sources(f, kv, x, e);
      Lighter(f, e, q);
    }
  }

  lemma Printed(f: Pair, kv: string, x: nat)
    requires IsField(f, kv, x) && KeySurvives(f.0)
    ensures Entry(kv) == Some(f)
  {
    WholeToken(f, kv, x);
    TokenEntry(f);
  }

  lemma WholeToken(f: Pair, kv: string, x: nat)
    requires IsField(f, kv, x) && KeySurvives(f.0)
    ensures kv == Token(f)
  {
    TokenIsPlain(f);
    WholeField(Token(f), '&', x, x + |kv|);
  }

  lemma Lighter(f: Pair, e: Pair, q: string)
    requires (FromValue(f, e) || FromKey(f, e, q)) && !KeySurvives(f.0)
    ensures Weight(e) < Weight(f)
  {
    if !FromValue(f, e) {
      KeyLoses(q);
      KeyChanges(q);
    }
  }

  lemma WholeField(t: string, d: char, x: nat, y: nat)
    requires Plain(t, d) && IsPiece(t, d, x, y)
    ensures t[x..y] == t
  {
    forall n | 0 <= n < |t| ensures t[n] != d { assert t[n] in t; }
    var b: nat :| b <= x && OnlyBlanks(t, b, x) && IsStart(t, d, b);
    NotAcross(t, b, x, 0);
    var k: nat :| y <= k && OnlyBlanks(t, y, k) && (k == |t| || t[k] == d);
    NotAcross(t, y, k, |t| - 1);
  }

  lemma KeyChanges(q: string)
    ensures DecodeFrom(q, 0, true) == q <==> Literal(q, 0, true)
  {
    DecodeKeeps(q, 0, true);
    assert q[0..] == q;
  }

  lemma {:induction false} TokenOf(p: Params, t: string) returns (f: Pair)
    requires ValuesAreBytes(p) && t in Tokens(p)
    ensures f in p && t == Token(f)
  {
    if t == Token(p[0]) { f := p[0]; } else { f := TokenOf(p[1..], t); }
  }

  /** A field of a joined text is a field of one of its parts. */
  lemma {:induction false} FieldOfJoin(ts: seq<string>, d: char, kv: string, x: nat) returns (t: string, z: nat)
    requires !IsBlank(d) && FieldAt(Join(ts, d), d, kv, x)
    ensures t in ts && FieldAt(t, d, kv, z)
  {
    if |ts| == 1 {
      t, z := ts[0], x;
    } else {
      FieldSide(ts[0], d, Join(ts[1..], d), kv, x);
      if x + |kv| <= |ts[0]| {
        t, z := ts[0], x;
      } else {
        t, z := FieldOfJoin(ts[1..], d, kv, x - |ts[0]| - 1);
      }
    }
  }

  lemma FieldSide(a: string, d: char, b: string, kv: string, x: nat)
    requires !IsBlank(d) && FieldAt(a + [d] + b, d, kv, x)
    ensures if x + |kv| <= |a| then FieldAt(a, d, kv, x) else x > |a| && FieldAt(b, d, kv, x - |a| - 1)
  {
    JoinedParts(a, d, b);
    SideOf(a + [d] + b, a, d, b, kv, x);
  }

  lemma JoinedParts(a: string, d: char, b: string)
    ensures var s := a + [d] + b;
            && |s| == |a| + 1 + |b| && s[|a|] == d && (forall i | 0 <= i < |a| :: s[i] == a[i])
            && forall i | 0 <= i < |b| :: b[i] == s[|a| + 1 + i]
  {
  }

  lemma SideOf(s: string, a: string, d: char, b: string, kv: string, x: nat)
    requires !IsBlank(d) && |s| == |a| + 1 + |b| && s[|a|] == d && FieldAt(s, d, kv, x)
    requires (forall i | 0 <= i < |a| :: s[i] == a[i]) && forall i | 0 <= i < |b| :: b[i] == s[|a| + 1 + i]
    ensures if x + |kv| <= |a| then FieldAt(a, d, kv, x) else x > |a| && FieldAt(b, d, kv, x - |a| - 1)
  {
    OneSide(s, x, x + |kv|, d, |a|);
    if x + |kv| <= |a| { InFront(s, a, d, x, x + |kv|); } else { Behind(s, |a| + 1, b, d, x, x + |kv|); }
  }

  lemma InFront(s: string, a: string, d: char, x: nat, y: nat)
    requires !IsBlank(d) && y <= |a| < |s| && s[|a|] == d && (forall n | 0 <= n < |a| :: s[n] == a[n])
    requires IsPiece(s, d, x, y)
    ensures a[x..y] == s[x..y] && IsPiece(a, d, x, y)
  {
    assert a[x..y] == s[x..y];
    var l: nat :| l <= x && OnlyBlanks(s, l, x) && IsStart(s, d, l);
    assert OnlyBlanks(a, l, x);
    var k: nat :| y <= k && OnlyBlanks(s, y, k) && (k == |s| || s[k] == d);
    NotAcross(s, y, k, |a|);
    assert OnlyBlanks(a, y, k);
  }

  lemma Behind(s: string, n: nat, b: string, d: char, x: nat, y: nat)
    requires !IsBlank(d) && 0 < n <= x && |s| == n + |b| && s[n - 1] == d
    requires (forall i | 0 <= i < |b| :: b[i] == s[n + i]) && IsPiece(s, d, x, y)
    ensures b[x - n..y - n] == s[x..y] && IsPiece(b, d, x - n, y - n)
  {
    assert b[x - n..y - n] == s[x..y];
    StartsBehind(s, n, b, d, x);
    var k: nat :| y <= k && OnlyBlanks(s, y, k) && (k == |s| || s[k] == d);
    assert OnlyBlanks(b, y - n, k - n);
  }

  lemma StartsBehind(s: string, n: nat, b: string, d: char, x: nat)
    requires !IsBlank(d) && 0 < n <= x <= |s| == n + |b| && s[n - 1] == d
    requires (forall i | 0 <= i < |b| :: b[i] == s[n + i]) && StartsField(s, d, x)
    ensures StartsField(b, d, x - n)
  {
    var l: nat :| l <= x && OnlyBlanks(s, l, x) && IsStart(s, d, l);
    NotAcross(s, l, x, n - 1);
    assert OnlyBlanks(b, l - n, x - n);
  }

  lemma FieldOf(text: string, d: char, kv: string) returns (x: nat)
    requires kv in Pieces(text, d)
    ensures FieldAt(text, d, kv, x)
  {
    var n :| 0 <= n < |Pieces(text, d)| && Pieces(text, d)[n] == kv;
    var y;
    x, y := PieceAt(text, d, 0, Pieces(text, d), n);
  }

  /** Every entry comes from a field of some pair. */
  lemma ReparsedFrom(p: Params, e: Pair) returns (f: Pair, kv: string, x: nat)
    requires ValuesAreBytes(p) && e in Reparsed(p)
    ensures f in p && IsField(f, kv, x) && Entry(kv) == Some(e)
  {
    var text, t := Join(Tokens(p), '&'), "";
    AddedFrom([], Pieces(text, '&'), {}, e);
    kv :| kv in Pieces(text, '&') && Entry(kv) == Some(e);
    x := FieldOf(text, '&', kv);
    t, x := FieldOfJoin(Tokens(p), '&', kv, x);
    f := TokenOf(p, t);
  }

  function Heaviest(p: Params): nat {
    if p == [] then 0 else if Weight(p[0]) > Heaviest(p[1..]) then Weight(p[0]) else Heaviest(p[1..])
  }

  lemma {:induction false} HeaviestIs(p: Params, e: Pair)
    requires e in p
    ensures Weight(e) <= Heaviest(p)
  {
    if e != p[0] { HeaviestIs(p[1..], e); }
  }

  /** In a list that comes back every key survives: otherwise its pair would come from a heavier one,
      that again from a heavier one, and so on. */
  lemma {:induction false} KeysSurvive(p: Params, e: Pair)
    requires ValuesAreBytes(p) && Reparsed(p) == p && e in p
    ensures KeySurvives(e.0)
    decreases Heaviest(p) - Weight(e)
  {
    var f, kv, x := ReparsedFrom(p, e);
    Produced(f, kv, x, e);
    HeaviestIs(p, f);
    if !KeySurvives(f.0) { KeysSurvive(p, f); }
  }

  /** A list of parameters comes back if and only if every key survives and no pair is repeated. */
  lemma QueryRoundTripExact(p: Params)
    requires SortedByKey(p) && ValuesAreBytes(p)
    ensures Reparsed(p) == p <==> (forall e | e in p :: KeySurvives(e.0)) && PairwiseDistinct(p)
  {
    if Reparsed(p) == p {
      forall e | e in p ensures KeySurvives(e.0) { KeysSurvive(p, e); }
    }
    if forall e | e in p :: KeySurvives(e.0) { QueryRoundTrip(p); }
  }
}

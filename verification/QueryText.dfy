/** Query text: splitting at a delimiter, and printing and parsing the multimap of parameters. */
module QueryText {
  import opened Wrappers
  import opened Text
  import opened Query

  // ----- split -----

  /** Index of the first `d` at or after `beg`, or `|s|`. */
  function FieldEnd(s: string, d: char, beg: nat): (k: nat)
    requires beg <= |s|
    ensures beg <= k <= |s| && (k < |s| ==> s[k] == d)
    decreases |s| - beg
  {
    if beg == |s| || s[beg] == d then beg else FieldEnd(s, d, beg + 1)
  }

  function One(piece: string): seq<string> { if piece == "" then [] else [piece] }

  /** The trimmed field between `beg` and `i`, scanned for inside the whole text. */
  function Field(s: string, beg: nat, i: nat): string
    requires beg <= i <= |s|
  {
    Between(s, TrimLeft(s, beg, |s|), TrimRight(s, i))
  }

  /** The fields between delimiters from `beg` on, each trimmed, with the empty ones left out. */
  function PiecesFrom(s: string, d: char, beg: nat): seq<string>
    requires beg <= |s|
    decreases |s| - beg
  {
    var k := FieldEnd(s, d, beg);
    One(Field(s, beg, k)) + Rest(s, d, k)
  }

  function Rest(s: string, d: char, k: nat): seq<string>
    requires k <= |s|
    decreases |s| - k, 0
  {
    if k < |s| then PiecesFrom(s, d, k + 1) else []
  }

  function Pieces(s: string, d: char): seq<string> { PiecesFrom(s, d, 0) }

  lemma SliceOfSlice(s: string, beg: nat, i: nat, l: nat, r: nat)
    requires beg <= i <= |s| && l <= r <= i - beg
    ensures s[beg..i][l..r] == s[beg + l..beg + r]
  {
    var x, y := s[beg..i][l..r], s[beg + l..beg + r];
    assert forall k | 0 <= k < |x| :: x[k] == s[beg + l + k] == y[k];
  }

  lemma BetweenInside(s: string, beg: nat, i: nat, l: nat, r: nat)
    requires beg <= i <= |s| && l <= i - beg && r <= i - beg
    ensures Between(s, beg + l, beg + r) == Between(s[beg..i], l, r)
  {
    if l < r { SliceOfSlice(s, beg, i, l, r); }
  }

  lemma BetweenScans(s: string, beg: nat, i: nat, l: nat, r: nat, left: nat, right: nat)
    requires beg <= i <= |s| && l <= i - beg && r <= i - beg && left <= |s| && right <= |s|
    requires if l < i - beg then left == beg + l else left >= i
    requires if r > 0 then right == beg + r else right <= beg
    ensures Between(s, left, right) == Between(s[beg..i], l, r)
  {
    if l < i - beg && r > 0 { BetweenInside(s, beg, i, l, r); }
  }

  /** Although both scans may leave the field, what they give is the field trimmed. */
  lemma FieldIsTrimmed(s: string, beg: nat, i: nat)
    requires beg <= i <= |s|
    ensures Field(s, beg, i) == TrimCopy(s[beg..i])
  {
    LeftInside(s, beg, i, 0);
    RightInside(s, beg, i, i - beg);
    var t := s[beg..i];
    BetweenScans(s, beg, i, TrimLeft(t, 0, |t|), TrimRight(t, |t|), TrimLeft(s, beg, |s|), TrimRight(s, i));
  }

  /** What the callback gets for one field, nothing when only blanks are there, added to `out`. */
  method TakeField(s: string, beg: nat, i: nat, out: seq<string>) returns (more: seq<string>)
    requires beg <= i <= |s|
    ensures more == out + One(Field(s, beg, i))
  {
    var left, right := Trim(s, beg, i);
    more := out + if left < right then [s[left..right]] else [];
  }

  lemma FieldDone(s: string, d: char, beg: nat, out: seq<string>)
    requires beg <= |s|
    ensures var k := FieldEnd(s, d, beg);
            out + PiecesFrom(s, d, beg)
            == out + One(Field(s, beg, k)) + if k < |s| then PiecesFrom(s, d, k + 1) else []
  {
    var k := FieldEnd(s, d, beg);
    Assoc(out, One(Field(s, beg, k)), Rest(s, d, k));
  }

  /** split, with the callback's arguments gathered in order. */
  method Split(s: string, d: char) returns (out: seq<string>)
    ensures out == Pieces(s, d)
  {
    var i, beg := 0, 0;
    out := [];
    while i < |s|
      invariant beg <= i <= |s| && FieldEnd(s, d, beg) == FieldEnd(s, d, i)
      invariant out + PiecesFrom(s, d, beg) == Pieces(s, d)
    {
      if s[i] == d {
        FieldDone(s, d, beg, out);
        out := TakeField(s, beg, i, out);
        beg := i + 1;
      }
      i := i + 1;
    }
    if i > 0 {
      FieldDone(s, d, beg, out);
      out := TakeField(s, beg, i, out);
    }
  }

  /** A field that split hands back as it was written. */
  predicate Plain(t: string, d: char) { Untrimmable(t) && d !in t }

  lemma TrimPlain(t: string)
    requires Untrimmable(t)
    ensures TrimCopy(t) == t
  {
    var l, r := TrimLeft(t, 0, |t|), TrimRight(t, |t|);
    assert t != "" ==> l == 0 && r == |t|;
  }

  lemma {:induction false} FieldEndIs(s: string, d: char, k: nat, e: nat)
    requires k <= e <= |s| && (forall j | k <= j < e :: s[j] != d) && (e < |s| ==> s[e] == d)
    ensures FieldEnd(s, d, k) == e
    decreases e - k
  {
    if k < e { FieldEndIs(s, d, k + 1, e); }
  }

  /** A plain field that stands at `beg` comes first. */
  lemma PlainFirst(s: string, d: char, beg: nat, t: string)
    requires Plain(t, d) && At(s, beg, t) && (beg + |t| < |s| ==> s[beg + |t|] == d)
    ensures PiecesFrom(s, d, beg) == One(t) + Rest(s, d, beg + |t|)
  {
    var e := beg + |t|;
    assert forall j | beg <= j < e :: s[j] == s[beg..e][j - beg];
    FieldEndIs(s, d, beg, e);
    FieldIsTrimmed(s, beg, e);
    TrimPlain(t);
  }

  function Join(ts: seq<string>, d: char): string {
    if ts == [] then "" else if |ts| == 1 then ts[0] else ts[0] + [d] + Join(ts[1..], d)
  }

  lemma HeadTail<T>(ts: seq<T>)
    requires ts != []
    ensures [ts[0]] + ts[1..] == ts
  {
  }

  predicate AllPlain(ts: seq<string>, d: char) { forall i | 0 <= i < |ts| :: ts[i] != "" && Plain(ts[i], d) }

  lemma {:induction false} JoinedFrom(s: string, d: char, beg: nat, ts: seq<string>)
    requires ts != [] && AllPlain(ts, d)
    requires beg <= |s| && s[beg..] == Join(ts, d)
    ensures PiecesFrom(s, d, beg) == ts
    decreases |ts|
  {
    var t, more := ts[0], ts[1..];
    if more != [] {
      JoinedHead(s, d, beg, t, Join(more, d));
      JoinedFrom(s, d, beg + |t| + 1, more);
      FieldThenRest(s, d, beg, t, more);
      HeadTail(ts);
    } else {
      LastField(s, d, beg, t);
      assert ts == [t];
    }
  }

  lemma FieldThenRest(s: string, d: char, beg: nat, t: string, more: seq<string>)
    requires t != "" && Plain(t, d) && At(s, beg, t) && beg + |t| < |s| && s[beg + |t|] == d
    requires PiecesFrom(s, d, beg + |t| + 1) == more
    ensures PiecesFrom(s, d, beg) == [t] + more
  {
    PlainFirst(s, d, beg, t);
  }

  lemma LastField(s: string, d: char, beg: nat, t: string)
    requires t != "" && Plain(t, d) && beg <= |s| && s[beg..] == t
    ensures PiecesFrom(s, d, beg) == [t]
  {
    assert At(s, beg, t) && beg + |t| == |s|;
    PlainFirst(s, d, beg, t);
  }

  lemma JoinedHead(s: string, d: char, beg: nat, t: string, more: string)
    requires beg <= |s| && s[beg..] == t + [d] + more
    ensures At(s, beg, t) && beg + |t| < |s| && s[beg + |t|] == d && s[beg + |t| + 1..] == more
  {
    Assoc(t, [d], more);
    TailOfRest(s, beg, t, [d] + more);
    TailOfRest(s, beg, t + [d], more);
    assert s[beg + |t|..][0] == d;
  }

  /** Splitting undoes joining. */
  lemma SplitJoin(ts: seq<string>, d: char)
    requires AllPlain(ts, d)
    ensures Pieces(Join(ts, d), d) == ts
  {
    if ts != [] {
      assert Join(ts, d)[0..] == Join(ts, d);
      JoinedFrom(Join(ts, d), d, 0, ts);
    } else {
      PlainFirst("", d, 0, "");
    }
  }

  // ----- parameters -----

  type Pair = (string, string)

  /** A multimap: ordered by key, equal keys in order of insertion. */
  type Params = seq<Pair>

  predicate SortedByKey(p: Params) {
    forall i, j | 0 <= i < j < |p| :: LexLeq(p[i].0, p[j].0)
  }

  /** multimap::emplace puts an entry after the entries of its key. */
  function Emplace(p: Params, e: Pair): Params {
    if p != [] && LexLeq(p[0].0, e.0) then [p[0]] + Emplace(p[1..], e) else [e] + p
  }

  lemma {:induction false} EmplaceLast(p: Params, e: Pair)
    requires forall x | x in p :: LexLeq(x.0, e.0)
    ensures Emplace(p, e) == p + [e]
  {
    if p != [] { EmplaceLast(p[1..], e); }
  }

  predicate Below(k: string, p: Params) { forall x | x in p :: LexLeq(k, x.0) }

  lemma {:induction false} EmplaceSorted(p: Params, e: Pair)
    requires SortedByKey(p)
    ensures SortedByKey(Emplace(p, e)) && multiset(Emplace(p, e)) == multiset(p) + multiset{e}
  {
    if p != [] && LexLeq(p[0].0, e.0) {
      HeadBelow(p);
      EmplaceSorted(p[1..], e);
      BelowAll(p[0].0, Emplace(p[1..], e), p[1..], e);
      SortedCons(p[0], Emplace(p[1..], e));
      assert p == [p[0]] + p[1..];
    } else {
      if p != [] { HeadLeast(p, e); }
      SortedCons(e, p);
    }
  }

  lemma HeadBelow(p: Params)
    requires SortedByKey(p) && p != []
    ensures SortedByKey(p[1..]) && Below(p[0].0, p[1..])
  {
  }

  lemma SortedCons(e: Pair, p: Params)
    requires SortedByKey(p) && Below(e.0, p)
    ensures SortedByKey([e] + p)
  {
  }

  lemma BelowAll(k: string, r: Params, p: Params, e: Pair)
    requires multiset(r) == multiset(p) + multiset{e} && Below(k, p) && LexLeq(k, e.0)
    ensures Below(k, r)
  {
    forall x | x in r ensures LexLeq(k, x.0) {
      assert x in multiset(r);
      assert x == e || x in p;
    }
  }

  lemma HeadLeast(p: Params, e: Pair)
    requires SortedByKey(p) && p != [] && !LexLeq(p[0].0, e.0)
    ensures Below(e.0, p)
  {
    LexTotal(p[0].0, e.0);
    forall x | x in p ensures LexLeq(e.0, x.0) {
      if x != p[0] { LexTransitive(e.0, p[0].0, x.0); }
    }
  }

  function Token(e: Pair): string
    requires IsBytes(e.1)
  {
    e.0 + "=" + Encode(e.1)
  }

  predicate ValuesAreBytes(p: Params) { forall e | e in p :: IsBytes(e.1) }

  function Tokens(p: Params): seq<string>
    requires ValuesAreBytes(p)
  {
    if p == [] then [] else [Token(p[0])] + Tokens(p[1..])
  }

  lemma {:induction false} TokensSnoc(p: Params, e: Pair)
    requires ValuesAreBytes(p) && IsBytes(e.1)
    ensures Tokens(p + [e]) == Tokens(p) + [Token(e)]
    ensures |Tokens(p)| == |p|
  {
    if p != [] {
      assert (p + [e])[1..] == p[1..] + [e];
      TokensSnoc(p[1..], e);
    }
  }

  lemma {:induction false} JoinSnoc(ts: seq<string>, t: string, d: char)
    requires ts != []
    ensures Join(ts + [t], d) == Join(ts, d) + [d] + t
  {
    if |ts| > 1 {
      JoinSnoc(ts[1..], t, d);
      assert (ts + [t])[1..] == ts[1..] + [t];
    } else {
      assert (ts + [t])[1..] == [t];
    }
  }

  /** params_to_query_str. */
  method ParamsToQueryStr(params: Params) returns (query: string)
    requires ValuesAreBytes(params)
    ensures query == Join(Tokens(params), '&')
  {
    query := "";
    for i := 0 to |params|
      invariant query == Join(Tokens(params[..i]), '&')
    {
      var it := params[i];
      assert it in params;
      ghost var was := params[..i];
      assert params[..i + 1] == was + [it];
      TokensSnoc(was, it);
      if i > 0 {
        JoinSnoc(Tokens(was), Token(it), '&');
        query := query + "&";
      }
      ghost var start := query;
      query := query + it.0;
      query := query + "=";
      var value := EncodeQueryParam(it.1);
      query := query + value;
      Nest(start, it.0, "=", value);
    }
    assert params[..|params|] == params;
  }

  lemma Nest(a: string, b: string, c: string, d: string)
    ensures a + b + c + d == a + (b + c + d)
  {
  }

  /** What one `&` field adds: its first piece as key, its last later piece as value. */
  function Entry(kv: string): Option<Pair> {
    var ps := Pieces(kv, '=');
    if ps == [] then None
    else Some((DecodeFrom(ps[0], 0, true), DecodeFrom(if |ps| > 1 then ps[|ps| - 1] else "", 0, true)))
  }

  /** Of any number of parts the first is the key and the last later one the value. */
  lemma EntryJoined(ps: seq<string>)
    requires ps != [] && AllPlain(ps, '=')
    ensures Entry(Join(ps, '='))
         == Some((DecodeFrom(ps[0], 0, true), if |ps| > 1 then DecodeFrom(ps[|ps| - 1], 0, true) else ""))
  {
    SplitJoin(ps, '=');
    assert DecodeFrom("", 0, true) == "";
  }

  function Add(params: Params, kv: string): Params {
    match Entry(kv)
    case Some(e) => Emplace(params, e)
    case None => params
  }

  /** Fields seen before are passed over. */
  function AddAll(params: Params, kvs: seq<string>, cache: set<string>): Params
    decreases |kvs|
  {
    if kvs == [] then params
    else if kvs[0] in cache then AddAll(params, kvs[1..], cache)
    else AddAll(Add(params, kvs[0]), kvs[1..], cache + {kvs[0]})
  }

  predicate NoneEmpty(ps: seq<string>) { forall i | 0 <= i < |ps| :: ps[i] != "" }

  lemma NoneEmptyCons(piece: string, ps: seq<string>)
    requires NoneEmpty(ps)
    ensures NoneEmpty(One(piece) + ps)
  {
  }

  lemma {:induction false} PiecesNonEmpty(s: string, d: char, beg: nat)
    requires beg <= |s|
    ensures NoneEmpty(PiecesFrom(s, d, beg))
    decreases |s| - beg
  {
    var k := FieldEnd(s, d, beg);
    if k < |s| { PiecesNonEmpty(s, d, k + 1); }
    NoneEmptyCons(Field(s, beg, k), Rest(s, d, k));
  }

  /** The inner callback of parse_query_text. */
  method KeyAndValue(kv: string) returns (key: string, val: string)
    ensures var ps := Pieces(kv, '=');
            && key == (if ps == [] then "" else ps[0])
            && val == (if |ps| > 1 then ps[|ps| - 1] else "")
            && (key == "" <==> ps == [])
  {
    key, val := "", "";
    var ps := Split(kv, '=');
    PiecesNonEmpty(kv, '=', 0);
    for i := 0 to |ps|
      invariant key == (if i == 0 then "" else ps[0])
      invariant val == (if i > 1 then ps[i - 1] else "")
    {
      if key == "" { key := ps[i]; } else { val := ps[i]; }
    }
  }

  /** parse_query_text. */
  method ParseQueryText(s: string, before: Params) returns (params: Params)
    ensures params == AddAll(before, Pieces(s, '&'), {})
  {
    params := before;
    var cache: set<string> := {};
    var kvs := Split(s, '&');
    for i := 0 to |kvs|
      invariant AddAll(params, kvs[i..], cache) == AddAll(before, kvs, {})
    {
      var kv := kvs[i];
      assert kvs[i..][1..] == kvs[i + 1..];
      if kv !in cache {
        cache := cache + {kv};
        var key, val := KeyAndValue(kv);
        if key != "" {
          var k := DecodeUrl(key, true);
          var v := DecodeUrl(val, true);
          params := Emplace(params, (k, v));
        }
      }
    }
  }

  /** Parsing keeps the multimap ordered. */
  lemma {:induction false} ParseSorted(params: Params, kvs: seq<string>, cache: set<string>)
    requires SortedByKey(params)
    ensures SortedByKey(AddAll(params, kvs, cache))
    decreases |kvs|
  {
    if kvs == [] {
    } else if kvs[0] in cache {
      ParseSorted(params, kvs[1..], cache);
    } else {
      var e := Entry(kvs[0]);
      if e.Some? { EmplaceSorted(params, e.value); }
      ParseSorted(Add(params, kvs[0]), kvs[1..], cache + {kvs[0]});
    }
  }

  // ----- round trip -----

  /** A key that comes back as it was printed, which is without escaping. */
  predicate KeySurvives(k: string) {
    k != "" && Untrimmable(k) && '=' !in k && '&' !in k && Literal(k, 0, true)
  }

  predicate Printable(e: Pair) { KeySurvives(e.0) && IsBytes(e.1) }

  lemma {:induction false} EncodedChars(s: string)
    requires IsBytes(s)
    ensures forall i | 0 <= i < |Encode(s)| :: Unreserved(Encode(s)[i]) || Encode(s)[i] == '%'
  {
    if s != "" { EncodedChars(s[1..]); }
  }

  lemma EncodedIsPlain(v: string)
    requires IsBytes(v)
    ensures Plain(Encode(v), '=') && Plain(Encode(v), '&')
  {
    EncodedChars(v);
  }

  lemma TokenIsPlain(e: Pair)
    requires Printable(e)
    ensures Token(e) != "" && Plain(Token(e), '&')
  {
    EncodedIsPlain(e.1);
    var t, ev := Token(e), Encode(e.1);
    assert t[0] == e.0[0] && t[|t| - 1] == if ev == "" then '=' else ev[|ev| - 1];
    assert forall i | 0 <= i < |t| :: t[i] in e.0 || t[i] == '=' || t[i] in ev;
  }

  lemma TokenPieces(key: string, value: string)
    requires key != "" && Plain(key, '=') && Plain(value, '=')
    ensures Pieces(key + "=" + value, '=') == [key] + One(value)
  {
    var w := key + "=" + value;
    assert At(w, 0, key) && At(w, |key| + 1, value);
    PlainFirst(w, '=', 0, key);
    PlainFirst(w, '=', |key| + 1, value);
  }

  lemma TokenEntry(e: Pair)
    requires Printable(e)
    ensures Entry(Token(e)) == Some(e)
  {
    EncodedIsPlain(e.1);
    TokenPieces(e.0, Encode(e.1));
    DecodeKeeps(e.0, 0, true);
    assert e.0[0..] == e.0;
    DecodeEncode(e.1, true);
  }

  /** The first occurrences. */
  function Distinct(p: Params, seen: set<Pair>): Params {
    if p == [] then []
    else if p[0] in seen then Distinct(p[1..], seen)
    else [p[0]] + Distinct(p[1..], seen + {p[0]})
  }

  lemma TokenInjective(e: Pair, f: Pair)
    requires Printable(e) && Printable(f)
    ensures Token(f) == Token(e) <==> f == e
  {
    TokenEntry(e);
    TokenEntry(f);
  }

  lemma LaterKeys(p: Params)
    requires SortedByKey(p) && AllPrintable(p) && p != []
    ensures SortedByKey(p[1..]) && AllPrintable(p[1..]) && forall f | f in p[1..] :: LexLeq(p[0].0, f.0)
  {
    forall f | f in p[1..] ensures f in p && LexLeq(p[0].0, f.0) {
      var i :| 0 <= i < |p| - 1 && p[1..][i] == f;
      assert p[i + 1] == f;
    }
  }

  lemma {:induction false} AddTokens(p: Params, params: Params, seen: set<Pair>, cache: set<string>)
    requires SortedByKey(p) && AllPrintable(p)
    requires forall x, e | x in params && e in p :: LexLeq(x.0, e.0)
    requires forall e | e in p :: Token(e) in cache <==> e in seen
    ensures AddAll(params, Tokens(p), cache) == params + Distinct(p, seen)
    decreases |p|
  {
    if p == [] {
    } else {
      var e, ts := p[0], Tokens(p);
      assert ts[1..] == Tokens(p[1..]) && ts[0] == Token(e);
      LaterKeys(p);
      if e in seen {
        AddTokens(p[1..], params, seen, cache);
      } else {
        TokenEntry(e);
        EmplaceLast(params, e);
        forall f | f in p[1..] ensures Token(f) == Token(e) <==> f == e { TokenInjective(e, f); }
        AddTokens(p[1..], params + [e], seen + {e}, cache + {Token(e)});
        Assoc(params, [e], Distinct(p[1..], seen + {e}));
      }
    }
  }

  predicate AllPrintable(p: Params) { ValuesAreBytes(p) && forall e | e in p :: Printable(e) }

  predicate PairwiseDistinct(p: Params) { forall i, j | 0 <= i < j < |p| :: p[i] != p[j] }

  lemma {:induction false} DistinctSame(p: Params, seen: set<Pair>)
    ensures |Distinct(p, seen)| <= |p|
    ensures Distinct(p, seen) == p <==> (PairwiseDistinct(p) && forall e | e in p :: e !in seen)
    decreases |p|
  {
    if p != [] {
      var e, rest := p[0], p[1..];
      assert p == [e] + rest;
      if e in seen {
        DistinctSame(rest, seen);
      } else {
        DistinctSame(rest, seen + {e});
        assert Distinct(p, seen)[1..] == Distinct(rest, seen + {e});
        if PairwiseDistinct(p) {
          forall x | x in rest ensures x != e { var i :| 0 <= i < |rest| && rest[i] == x; assert p[i + 1] == x; }
        }
        assert PairwiseDistinct(p) <==> PairwiseDistinct(rest) && e !in rest;
      }
    }
  }

  lemma {:induction false} TokensArePlain(p: Params)
    requires AllPrintable(p)
    ensures AllPlain(Tokens(p), '&')
  {
    if p != [] {
      TokenIsPlain(p[0]);
      TokensArePlain(p[1..]);
    }
  }

  /** What parsing makes of the text that is printed for `p`. */
  function Reparsed(p: Params): Params
    requires ValuesAreBytes(p)
  {
    AddAll([], Pieces(Join(Tokens(p), '&'), '&'), {})
  }

  /** Parsing what was printed drops repeated pairs and nothing else; it is the identity
      exactly when no pair is repeated. */
  lemma QueryRoundTrip(p: Params)
    requires SortedByKey(p) && AllPrintable(p)
    ensures Reparsed(p) == Distinct(p, {})
    ensures Reparsed(p) == p <==> PairwiseDistinct(p)
  {
    TokensArePlain(p);
    SplitJoin(Tokens(p), '&');
    AddTokens(p, [], {}, {});
    assert [] + Distinct(p, {}) == Distinct(p, {});
    DistinctSame(p, {});
  }
}

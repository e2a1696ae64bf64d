/** Byte strings: first occurrence of a pattern, trimming of blanks, and lexical order. */
module Text {

  const CR := '\r'
  const CRLF := "\r\n"

  /** `pat` stands in `s` at index `i`. */
  predicate At(s: string, i: int, pat: string) {
    0 <= i && i + |pat| <= |s| && s[i..i + |pat|] == pat
  }

  /** Index of the first occurrence of `pat`, or `|s|` when there is none. */
  function Find(s: string, pat: string): (r: nat)
    requires pat != ""
    ensures r <= |s| && (r < |s| ==> r + |pat| <= |s|)
  {
    if s == "" then 0
    else if At(s, 0, pat) then 0
    else 1 + Find(s[1..], pat)
  }

  lemma {:induction false} FindFirst(s: string, pat: string)
    requires pat != ""
    ensures var r := Find(s, pat);
            && (r < |s| ==> At(s, r, pat))
            && (forall i | 0 <= i < r :: !At(s, i, pat))
            && (r == |s| ==> forall i :: !At(s, i, pat))
  {
    if s != "" && !At(s, 0, pat) {
      FindFirst(s[1..], pat);
      forall i | 0 < i ensures At(s, i, pat) <==> At(s[1..], i - 1, pat) {
        AtDrop(s, 1, i - 1, pat);
      }
    }
  }

  lemma FindIs(s: string, pat: string, r: nat)
    requires pat != "" && At(s, r, pat)
    requires forall i | 0 <= i < r :: !At(s, i, pat)
    ensures Find(s, pat) == r
  {
    FindFirst(s, pat);
    var f := Find(s, pat);
    assert f <= r && (f < |s| ==> At(s, f, pat));
  }

  lemma FindNone(s: string, pat: string)
    requires pat != "" && forall i | 0 <= i < |s| :: !At(s, i, pat)
    ensures Find(s, pat) == |s|
  {
    FindFirst(s, pat);
  }

  /** Occurrences that lie inside `s` are the same in every extension of `s`. */
  lemma AtExtend(s: string, t: string, i: int, pat: string)
    requires i + |pat| <= |s|
    ensures At(s + t, i, pat) <==> At(s, i, pat)
  {
    if 0 <= i { assert (s + t)[i..i + |pat|] == s[i..i + |pat|]; }
  }

  lemma AtDrop(s: string, k: nat, i: int, pat: string)
    requires k <= |s| && 0 <= i
    ensures At(s[k..], i, pat) <==> At(s, k + i, pat)
  {
    if k + i + |pat| <= |s| { assert s[k..][i..i + |pat|] == s[k + i..k + i + |pat|]; }
  }

  /** A first occurrence that is complete stays first when bytes are added. */
  lemma FindExtend(s: string, t: string, pat: string)
    requires pat != "" && Find(s, pat) < |s|
    ensures Find(s + t, pat) == Find(s, pat)
  {
    FindFirst(s, pat);
    var r := Find(s, pat);
    AtExtend(s, t, r, pat);
    forall i | 0 <= i < r ensures !At(s + t, i, pat) {
      AtExtend(s, t, i, pat);
    }
    FindIs(s + t, pat, r);
  }

  /** Dropping a prefix in which no occurrence begins shifts the answer. */
  lemma {:induction false} FindDrop(s: string, k: nat, pat: string)
    requires pat != "" && k <= |s|
    requires forall i | 0 <= i < k :: !At(s, i, pat)
    ensures Find(s, pat) == k + Find(s[k..], pat)
    decreases k
  {
    if k == 0 {
      assert s[0..] == s;
    } else {
      forall i | 0 <= i < k - 1 ensures !At(s[1..], i, pat) { AtDrop(s, 1, i, pat); }
      FindDrop(s[1..], k - 1, pat);
      assert s[1..][k - 1..] == s[k..];
    }
  }

  lemma Assoc<T>(a: seq<T>, b: seq<T>, c: seq<T>)
    ensures a + (b + c) == a + b + c
  {
  }

  function Concat(pieces: seq<string>): string {
    if pieces == [] then "" else pieces[0] + Concat(pieces[1..])
  }

  predicate IsAlnum(c: char) { '0' <= c <= '9' || 'A' <= c <= 'Z' || 'a' <= c <= 'z' }

  predicate IsBlank(c: char) { c == ' ' || c == '\t' }

  /** First index at or after `left`, below `e`, that holds no blank. */
  function TrimLeft(s: string, left: nat, e: nat): (r: nat)
    requires left <= e <= |s|
    ensures left <= r <= e && (r < e ==> !IsBlank(s[r]))
    decreases e - left
  {
    if left < e && IsBlank(s[left]) then TrimLeft(s, left + 1, e) else left
  }

  /** End of the prefix of length `right` once its trailing blanks are dropped. */
  function TrimRight(s: string, right: nat): (r: nat)
    requires right <= |s|
    ensures r <= right && (r > 0 ==> !IsBlank(s[r - 1]))
  {
    if right > 0 && IsBlank(s[right - 1]) then TrimRight(s, right - 1) else right
  }

  lemma {:induction false} LeftBlanks(s: string, left: nat, e: nat)
    requires left <= e <= |s|
    ensures forall n | left <= n < TrimLeft(s, left, e) :: IsBlank(s[n])
    decreases e - left
  {
    if left < e && IsBlank(s[left]) { LeftBlanks(s, left + 1, e); }
  }

  lemma {:induction false} RightBlanks(s: string, right: nat)
    requires right <= |s|
    ensures forall n | TrimRight(s, right) <= n < right :: IsBlank(s[n])
  {
    if right > 0 && IsBlank(s[right - 1]) { RightBlanks(s, right - 1); }
  }

  /** The two scans of the source, which move `left` up and `right` down independently. */
  method Trim(s: string, from: nat, to: nat) returns (left: nat, right: nat)
    requires from <= |s| && to <= |s|
    ensures left == TrimLeft(s, from, |s|) && right == TrimRight(s, to)
  {
    left, right := from, to;
    while left < |s| && IsBlank(s[left])
      invariant left <= |s| && TrimLeft(s, from, |s|) == TrimLeft(s, left, |s|)
    {
      left := left + 1;
    }
    while right > 0 && IsBlank(s[right - 1])
      invariant right <= to && TrimRight(s, to) == TrimRight(s, right)
    {
      right := right - 1;
    }
  }

  /** Scanning on past a field's end finds what scanning inside the field finds, if that is anything. */
  lemma {:induction false} LeftInside(s: string, beg: nat, i: nat, k: nat)
    requires beg <= i <= |s| && k <= i - beg
    ensures var l := TrimLeft(s[beg..i], k, i - beg);
            if l < i - beg then TrimLeft(s, beg + k, |s|) == beg + l else TrimLeft(s, beg + k, |s|) >= i
    decreases i - beg - k
  {
    if k < i - beg {
      assert s[beg..i][k] == s[beg + k];
      if IsBlank(s[beg + k]) { LeftInside(s, beg, i, k + 1); }
    }
  }

  lemma {:induction false} RightInside(s: string, beg: nat, i: nat, k: nat)
    requires beg <= i <= |s| && k <= i - beg
    ensures var r := TrimRight(s[beg..i], k);
            if r > 0 then TrimRight(s, beg + k) == beg + r else TrimRight(s, beg + k) <= beg
  {
    if k > 0 {
      assert s[beg..i][k - 1] == s[beg + k - 1];
      if IsBlank(s[beg + k - 1]) { RightInside(s, beg, i, k - 1); }
    }
  }

  function TrimCopy(s: string): string {
    Between(s, TrimLeft(s, 0, |s|), TrimRight(s, |s|))
  }

  function Between(s: string, l: nat, r: nat): string
    requires l <= |s| && r <= |s|
  {
    if l < r then s[l..r] else ""
  }

  predicate Untrimmable(s: string) {
    s == "" || (!IsBlank(s[0]) && !IsBlank(s[|s| - 1]))
  }

  ghost predicate AllBlank(s: string) { forall i | 0 <= i < |s| :: s[i] == ' ' || s[i] == '\t' }

  predicate NoBlank(c: char) { c != ' ' && c != '\t' }

  /** Trimming leaves no blank at an end, */
  lemma TrimmedEnds(s: string)
    ensures var t := TrimCopy(s); t != "" ==> NoBlank(t[0]) && NoBlank(t[|t| - 1])
  {
  }

  /** and takes nothing but blanks off the ends. */
  lemma TrimIs(s: string) returns (front: string, back: string)
    ensures s == front + TrimCopy(s) + back && AllBlank(front) && AllBlank(back)
  {
    var l, r := TrimLeft(s, 0, |s|), TrimRight(s, |s|);
    LeftBlanks(s, 0, |s|);
    RightBlanks(s, |s|);
    if l < r {
      BlankPart(s, 0, l);
      BlankPart(s, r, |s|);
      ThreeParts(s, l, r);
      front, back := s[0..l], s[r..|s|];
    } else {
      BlankPart(s, 0, |s|);
      front, back := s[0..|s|], "";
      assert front + "" + back == s;
    }
  }

  lemma BlankPart(s: string, i: nat, j: nat)
    requires i <= j <= |s| && forall n | i <= n < j :: IsBlank(s[n])
    ensures AllBlank(s[i..j])
  {
  }

  lemma ThreeParts(s: string, l: nat, r: nat)
    requires l <= r <= |s|
    ensures s == s[0..l] + s[l..r] + s[r..|s|]
  {
  }

  /** Trimming undoes one added leading blank exactly on strings with no blanks at their ends. */
  lemma TrimAdded(s: string)
    ensures TrimCopy(" " + s) == s <==> Untrimmable(s)
  {
    var t := " " + s;
    var l, r := TrimLeft(t, 0, |t|), TrimRight(t, |t|);
    assert t[0] == ' ' && l == TrimLeft(t, 1, |t|);
    if s == "" {
      assert l == 1;
    } else if Untrimmable(s) {
      assert t[1] == s[0] && t[|t| - 1] == s[|s| - 1];
      assert l == 1 && r == |t| && t[1..] == s;
    }
  }

  /** Byte-wise comparison, as an order. */
  predicate LexLeq(a: string, b: string)
    decreases |a|
  {
    a == "" || (b != "" && (a[0] < b[0] || (a[0] == b[0] && LexLeq(a[1..], b[1..]))))
  }

  /** The first place where `a` and `b` differ decides, a lower byte coming first; without one a
      beginning comes before the longer string. */
  ghost predicate Precedes(a: string, b: string, i: nat) {
    i < |a| && i < |b| && a[i] < b[i] && forall j | 0 <= j < i :: a[j] == b[j]
  }

  lemma {:induction false} LexIs(a: string, b: string)
    ensures LexLeq(a, b) <==> a <= b || exists i: nat :: Precedes(a, b, i)
    decreases |a|
  {
    if a != "" && b != "" && a[0] == b[0] {
      LexIs(a[1..], b[1..]);
      forall i: nat ensures Precedes(a, b, i + 1) <==> Precedes(a[1..], b[1..], i) { PrecedesTail(a, b, i); }
      forall i: nat | Precedes(a, b, i) ensures exists j: nat :: Precedes(a[1..], b[1..], j) {
        assert i > 0;
        PrecedesTail(a, b, i - 1);
      }
      assert a <= b <==> a[1..] <= b[1..] by {
        assert a == [a[0]] + a[1..] && b == [b[0]] + b[1..];
      }
    } else if a != "" && b != "" && a[0] < b[0] {
      assert Precedes(a, b, 0);
    }
  }

  lemma PrecedesTail(a: string, b: string, i: nat)
    requires a != "" && b != "" && a[0] == b[0]
    ensures Precedes(a, b, i + 1) <==> Precedes(a[1..], b[1..], i)
  {
    if Precedes(a[1..], b[1..], i) {
      forall j | 0 <= j < i + 1 ensures a[j] == b[j] { if j > 0 { assert a[1..][j - 1] == b[1..][j - 1]; } }
    }
  }

  lemma {:induction false} LexTotal(a: string, b: string)
    ensures LexLeq(a, b) || LexLeq(b, a)
    ensures LexLeq(a, b) && LexLeq(b, a) ==> a == b
    decreases |a|
  {
    if a != "" && b != "" && a[0] == b[0] {
      LexTotal(a[1..], b[1..]);
      assert a == [a[0]] + a[1..] && b == [b[0]] + b[1..];
    }
  }

  lemma {:induction false} LexTransitive(a: string, b: string, c: string)
    requires LexLeq(a, b) && LexLeq(b, c)
    ensures LexLeq(a, c)
    decreases |a|
  {
    if a != "" && a[0] == b[0] == c[0] { LexTransitive(a[1..], b[1..], c[1..]); }
  }
}

/** Joined command-line flags: the common prefix of a group's flags and the loop that consumes an
    argument flag by flag, putting the prefix back in front of what is left. */
module JoinedFlags {
  import opened Text

  /** The flags of one parameter. */
  type Flags = seq<string>

  ghost predicate AllStart(strs: seq<string>, p: string) { forall s | s in strs :: p <= s }

  /** `p` is the longest string that every element starts with. */
  ghost predicate IsCommonPrefix(strs: seq<string>, p: string) {
    AllStart(strs, p) && forall q | AllStart(strs, q) :: |q| <= |p|
  }

  /** Compares column by column up to the length of the shortest string. */
  method LongestCommonPrefix(strs: seq<string>) returns (p: string)
    ensures if strs == [] then p == "" else IsCommonPrefix(strs, p)
  {
    var n := |strs|;
    if n < 1 { return ""; }
    if n == 1 {
      assert strs[0] in strs;
      return strs[0];
    }
    var m := |strs[0]|;
    for k := 1 to n
      invariant forall j | 0 <= j < k :: m <= |strs[j]|
      invariant exists j :: 0 <= j < n && |strs[j]| == m
    {
      if |strs[k]| < m { m := |strs[k]|; }
    }
    for i := 0 to m
      invariant forall j | 0 <= j < n :: strs[j][..i] == strs[0][..i]
    {
      for j := 1 to n
        invariant forall k | 0 <= k < j :: strs[k][i] == strs[0][i]
      {
        if strs[j][i] != strs[j - 1][i] {
          ColumnsDiffer(strs, i, j);
          return strs[0][..i];
        }
      }
      forall j | 0 <= j < n ensures strs[j][..i + 1] == strs[0][..i + 1] {
        assert strs[j][..i + 1] == strs[j][..i] + [strs[j][i]];
      }
    }
    var j :| 0 <= j < n && |strs[j]| == m;
    assert strs[j] in strs;
    return strs[0][..m];
  }

  lemma DifferAt(a: string, b: string, q: string, i: nat)
    requires i < |a| && i < |b| && a[i] != b[i] && q <= a && q <= b
    ensures |q| <= i
  {
  }

  lemma ColumnsDiffer(strs: seq<string>, i: nat, j: nat)
    requires 1 <= j < |strs| && forall k | 0 <= k < |strs| :: i < |strs[k]|
    requires forall k | 0 <= k < |strs| :: strs[k][..i] == strs[0][..i]
    requires strs[j][i] != strs[j - 1][i]
    ensures IsCommonPrefix(strs, strs[0][..i])
  {
    forall s | s in strs ensures strs[0][..i] <= s {
      var k :| 0 <= k < |strs| && strs[k] == s;
    }
    forall q | AllStart(strs, q) ensures |q| <= i {
      assert strs[j] in strs && strs[j - 1] in strs;
      DifferAt(strs[j], strs[j - 1], q, i);
    }
  }

  lemma CommonPrefixUnique(strs: seq<string>, p: string, q: string)
    requires strs != [] && IsCommonPrefix(strs, p) && IsCommonPrefix(strs, q)
    ensures p == q
  {
    assert strs[0] in strs;
  }

  /** `r` is the length of the longest candidate flag that `arg` starts with, 0 when there is none. */
  ghost predicate IsLongestMatch(candidates: seq<Flags>, arg: string, r: nat) {
    && r <= |arg|
    && (r > 0 ==> exists k, i :: 0 <= k < |candidates| && 0 <= i < |candidates[k]| && candidates[k][i] == arg[..r])
    && (forall k, i | 0 <= k < |candidates| && 0 <= i < |candidates[k]| && candidates[k][i] <= arg ::
          |candidates[k][i]| <= r)
  }

  /** One parameter's match: the whole argument if it is a flag, else the longest prefix. */
  method MatchFlags(flags: Flags, arg: string) returns (n: nat)
    requires arg != ""
    ensures IsLongestMatch([flags], arg, n)
  {
    if arg in flags {
      var i :| 0 <= i < |flags| && flags[i] == arg;
      assert [flags][0][i] == arg[..|arg|];
      return |arg|;
    }
    n := 0;
    ghost var best := 0;
    for i := 0 to |flags|
      invariant n <= |arg| && (n > 0 ==> best < i && flags[best] == arg[..n])
      invariant forall k | 0 <= k < i && flags[k] <= arg :: |flags[k]| <= n
    {
      if flags[i] <= arg && |flags[i]| > n {
        n := |flags[i]|;
        best := i;
      }
    }
    if n > 0 { assert [flags][0][best] == arg[..n]; }
  }

  /** No flag of `flags` that `arg` starts with is as long as `r`. */
  ghost predicate Shorter(flags: Flags, arg: string, r: nat) {
    forall i | 0 <= i < |flags| && flags[i] <= arg :: |flags[i]| < r
  }

  /** The first of the candidate parameters with the longest match; a match of the whole argument ends
      the search. */
  method LongestPrefixMatch(candidates: seq<Flags>, arg: string) returns (longest: nat, which: nat)
    requires arg != ""
    ensures IsLongestMatch(candidates, arg, longest)
    ensures longest > 0 ==> which < |candidates| && IsLongestMatch([candidates[which]], arg, longest)
    ensures longest > 0 ==> forall k | 0 <= k < which :: Shorter(candidates[k], arg, longest)
  {
    longest, which := 0, 0;
    for k := 0 to |candidates|
      invariant IsLongestMatch(candidates[..k], arg, longest) && longest < |arg|
      invariant longest > 0 ==> which < k && IsLongestMatch([candidates[which]], arg, longest)
      invariant longest > 0 ==> forall l | 0 <= l < which :: Shorter(candidates[l], arg, longest)
    {
      var n := MatchFlags(candidates[k], arg);
      MergeMatch(candidates, k, arg, longest, n);
      if n > longest { EarlierShorter(candidates, k, arg, longest, n); }
      if n == |arg| {
        assert exists l, i :: 0 <= l < |candidates| && 0 <= i < |candidates[l]| && candidates[l][i] == arg[..n];
        return n, k;
      }
      if n > longest { longest, which := n, k; }
    }
    assert candidates[..|candidates|] == candidates;
  }

  lemma EarlierShorter(candidates: seq<Flags>, k: nat, arg: string, a: nat, b: nat)
    requires k <= |candidates| && IsLongestMatch(candidates[..k], arg, a) && a < b
    ensures forall l | 0 <= l < k :: Shorter(candidates[l], arg, b)
  {
    forall l, i | 0 <= l < k && 0 <= i < |candidates[l]| && candidates[l][i] <= arg
      ensures |candidates[l][i]| < b
    {
      assert candidates[..k][l][i] == candidates[l][i];
    }
  }

  lemma MergeMatch(candidates: seq<Flags>, k: nat, arg: string, a: nat, b: nat)
    requires k < |candidates| && IsLongestMatch(candidates[..k], arg, a) && IsLongestMatch([candidates[k]], arg, b)
    ensures IsLongestMatch(candidates[..k + 1], arg, if b > a then b else a)
    ensures b == |arg| ==> IsLongestMatch(candidates, arg, b) || b == 0
  {
    var c := candidates[..k + 1];
    if b > a {
      var l, i :| 0 <= l < 1 && 0 <= i < |[candidates[k]][l]| && [candidates[k]][l][i] == arg[..b];
      assert c[k][i] == arg[..b] && candidates[k][i] == arg[..b];
    } else if a > 0 {
      var l, i :| 0 <= l < k && 0 <= i < |candidates[..k][l]| && candidates[..k][l][i] == arg[..a];
      assert c[l][i] == arg[..a];
      if b == |arg| { assert candidates[l][i] == arg[..b]; }
    }
    forall l, i | 0 <= l < |c| && 0 <= i < |c[l]| && c[l][i] <= arg
      ensures |c[l][i]| <= if b > a then b else a
    {
      if l < k { assert candidates[..k][l][i] == c[l][i]; } else { assert [candidates[k]][0][i] == c[l][i]; }
    }
  }

  /** A group of parameters and groups. */
  datatype Tree = Parameter(flags: Flags) | Group(children: seq<Tree>)

  /** The flags of the parameters in a group, at any depth, in order. */
  function Leaves(t: Tree): seq<Flags>
    decreases t, 0
  {
    if t.Parameter? then [t.flags] else LeavesUpTo(t, |t.children|)
  }

  function LeavesUpTo(t: Tree, k: nat): seq<Flags>
    requires t.Group? && k <= |t.children|
    decreases t, 0, k
  {
    if k == 0 then [] else LeavesUpTo(t, k - 1) + Leaves(t.children[k - 1])
  }

  /** `path` leads down from the group to a parameter with these flags. */
  predicate LeafAt(t: Tree, path: seq<nat>, flags: Flags)
    decreases |path|
  {
    if path == [] then t == Parameter(flags)
    else t.Group? && path[0] < |t.children| && LeafAt(t.children[path[0]], path[1..], flags)
  }

  predicate LeafBelow(t: Tree, path: seq<nat>, k: nat, flags: Flags) {
    path != [] && path[0] < k && LeafAt(t, path, flags)
  }

  /** The parameters in a group are those that a path leads to, however deep. */
  lemma {:induction false} LeavesAre(t: Tree, flags: Flags)
    ensures flags in Leaves(t) ==> exists path: seq<nat> :: LeafAt(t, path, flags)
    ensures forall path: seq<nat> | LeafAt(t, path, flags) :: flags in Leaves(t)
  {
    if flags in Leaves(t) {
      var path := LeafFound(t, flags);
      assert LeafAt(t, path, flags);
    }
    forall path: seq<nat> | LeafAt(t, path, flags) ensures flags in Leaves(t) { LeafListed(t, path, flags); }
  }

  lemma {:induction false} LeafFound(t: Tree, flags: Flags) returns (path: seq<nat>)
    requires flags in Leaves(t)
    ensures LeafAt(t, path, flags)
    decreases t, 0
  {
    if t.Parameter? { path := []; } else { path := LeafFoundUpTo(t, |t.children|, flags); }
  }

  lemma {:induction false} LeafFoundUpTo(t: Tree, k: nat, flags: Flags) returns (path: seq<nat>)
    requires t.Group? && k <= |t.children| && flags in LeavesUpTo(t, k)
    ensures LeafBelow(t, path, k, flags)
    decreases t, 0, k
  {
    if flags in LeavesUpTo(t, k - 1) {
      path := LeafFoundUpTo(t, k - 1, flags);
    } else {
      path := LeafFound(t.children[k - 1], flags);
      LeafUnder(t, k - 1, path, flags);
      path := [k - 1] + path;
    }
  }

  lemma {:induction false} LeafListed(t: Tree, path: seq<nat>, flags: Flags)
    requires LeafAt(t, path, flags)
    ensures flags in Leaves(t)
    decreases |path|
  {
    if path != [] {
      LeafListed(t.children[path[0]], path[1..], flags);
      ChildListed(t, path[0], |t.children|, flags);
    }
  }

  lemma {:induction false} ChildListed(t: Tree, n: nat, k: nat, flags: Flags)
    requires t.Group? && n < k <= |t.children| && flags in Leaves(t.children[n])
    ensures flags in LeavesUpTo(t, k)
    decreases k
  {
    if n < k - 1 { ChildListed(t, n, k - 1, flags); }
  }

  lemma LeafUnder(t: Tree, n: nat, path: seq<nat>, flags: Flags)
    requires t.Group? && n < |t.children| && LeafAt(t.children[n], path, flags)
    ensures LeafBelow(t, [n] + path, n + 1, flags)
  {
    assert ([n] + path)[1..] == path;
  }

  /** Appends the longest common prefixes of the parameters that have flags; empty ones are left out. */
  method GatherPrefixes(group: Tree, before: seq<string>) returns (all: seq<string>)
    requires group.Group?
    ensures all == before + Gathered(Leaves(group))
    decreases group
  {
    all := before;
    for k := 0 to |group.children|
      invariant all == before + Gathered(LeavesUpTo(group, k))
    {
      var p := group.children[k];
      GatheredNext(before, group, k);
      if p.Group? {
        all := GatherPrefixes(p, all);
      } else {
        GatheredOne(p.flags);
        if p.flags != [] {
          var pfx := LongestCommonPrefix(p.flags);
          CommonPrefixOf(p.flags);
          CommonPrefixUnique(p.flags, pfx, Lcp(p.flags));
          if pfx != "" { all := all + [pfx]; }
        }
        assert all + [] == all;
      }
    }
  }

  lemma GatheredNext(before: seq<string>, group: Tree, k: nat)
    requires group.Group? && k < |group.children|
    ensures before + Gathered(LeavesUpTo(group, k + 1))
         == before + Gathered(LeavesUpTo(group, k)) + Gathered(Leaves(group.children[k]))
  {
    GatheredJoin(LeavesUpTo(group, k), Leaves(group.children[k]));
    Assoc(before, Gathered(LeavesUpTo(group, k)), Gathered(Leaves(group.children[k])));
  }

  /** The longest common prefix, by cutting the first string back until it fits all. */
  function Lcp(strs: seq<string>): string {
    if strs == [] then "" else Cut(strs, strs[0])
  }

  function Cut(strs: seq<string>, p: string): string {
    if p == "" || forall s | s in strs :: p <= s then p else Cut(strs, p[..|p| - 1])
  }

  lemma {:induction false} CutIs(strs: seq<string>, p: string)
    requires strs != [] && p <= strs[0] && forall q | AllStart(strs, q) :: |q| <= |p|
    ensures IsCommonPrefix(strs, Cut(strs, p))
  {
    if p != "" && !AllStart(strs, p) {
      forall q | AllStart(strs, q) ensures |q| <= |p| - 1 {
        assert strs[0] in strs;
        assert q <= strs[0];
        assert |q| == |p| ==> q == p;
      }
      CutIs(strs, p[..|p| - 1]);
    }
  }

  lemma CommonPrefixOf(strs: seq<string>)
    requires strs != []
    ensures IsCommonPrefix(strs, Lcp(strs))
  {
    forall q | AllStart(strs, q) ensures |q| <= |strs[0]| {
      assert strs[0] in strs;
    }
    CutIs(strs, strs[0]);
  }

  function Gathered(params: seq<Flags>): seq<string> {
    if params == [] then []
    else (if Lcp(params[0]) == "" then [] else [Lcp(params[0])]) + Gathered(params[1..])
  }

  lemma GatheredOne(flags: Flags)
    ensures Gathered([flags]) == if Lcp(flags) == "" then [] else [Lcp(flags)]
  {
    assert [flags][1..] == [];
  }

  lemma {:induction false} GatheredJoin(a: seq<Flags>, b: seq<Flags>)
    ensures Gathered(a + b) == Gathered(a) + Gathered(b)
  {
    if a == [] {
      assert a + b == b;
    } else {
      assert (a + b)[1..] == a[1..] + b;
      GatheredJoin(a[1..], b);
    }
  }

  function CommonFlagPrefix(params: seq<Flags>): string { Lcp(Gathered(params)) }

  /** Some parameter has the prefix `p`. */
  predicate SomeHas(params: seq<Flags>, p: string) { exists k :: 0 <= k < |params| && Lcp(params[k]) == p }

  lemma {:induction false} GatheredHas(params: seq<Flags>, p: string)
    ensures p in Gathered(params) <==> p != "" && SomeHas(params, p)
  {
    if params != [] {
      GatheredHas(params[1..], p);
      if SomeHas(params[1..], p) {
        var k :| 0 <= k < |params| - 1 && Lcp(params[1..][k]) == p;
        assert Lcp(params[k + 1]) == p;
      }
      if SomeHas(params, p) {
        var k :| 0 <= k < |params| && Lcp(params[k]) == p;
        assert k > 0 ==> params[1..][k - 1] == params[k];
      }
    }
  }

  /** The group's common prefix is common to all its flags if and only if it is empty or no
      parameter with flags has an empty prefix of its own. */
  lemma PrefixIsCommon(params: seq<Flags>)
    ensures (forall flags | flags in params :: AllStart(flags, CommonFlagPrefix(params)))
       <==> CommonFlagPrefix(params) == "" || forall flags | flags in params && flags != [] :: Lcp(flags) != ""
  {
    var p, gathered := CommonFlagPrefix(params), Gathered(params);
    if gathered != [] { CommonPrefixOf(gathered); }
    forall flags | flags in params && p != ""
      ensures AllStart(flags, p) <==> flags == [] || Lcp(flags) != ""
    {
      if flags != [] {
        CommonPrefixOf(flags);
        GatheredHas(params, Lcp(flags));
        if Lcp(flags) != "" {
          assert p <= Lcp(flags);
          forall f | f in flags ensures p <= f { assert Lcp(flags) <= f; }
        }
      }
    }
  }

  /** And no longer one is common to the parameters that have a prefix of their own. */
  lemma PrefixIsLongest(params: seq<Flags>, q: string)
    requires exists flags :: flags in params && Lcp(flags) != ""
    requires forall flags | flags in params && Lcp(flags) != "" :: AllStart(flags, q)
    ensures q <= CommonFlagPrefix(params)
  {
    var gathered := Gathered(params);
    var flags :| flags in params && Lcp(flags) != "";
    InGathered(params, flags);
    forall p | p in gathered ensures q <= p {
      GatheredHas(params, p);
      var k :| 0 <= k < |params| && Lcp(params[k]) == p;
      assert params[k] in params;
      StartsCommon(params[k], q);
    }
    StartsCommon(gathered, q);
  }

  lemma InGathered(params: seq<Flags>, flags: Flags)
    requires flags in params && Lcp(flags) != ""
    ensures Lcp(flags) in Gathered(params)
  {
    GatheredHas(params, Lcp(flags));
  }

  lemma StartsCommon(strs: seq<string>, q: string)
    requires strs != [] && AllStart(strs, q)
    ensures q <= Lcp(strs)
  {
    CommonPrefixOf(strs);
    assert strs[0] in strs;
    assert q <= strs[0] && Lcp(strs) <= strs[0] && |q| <= |Lcp(strs)|;
  }

  /** The candidates the group offers after some matches; where the traversal has moved to by then
      is left to this function. */
  type Offer = seq<string> -> seq<Flags>

  /** Every flag that is ever offered starts with the prefix. */
  ghost predicate OffersPrefixed(offer: Offer, prefix: string) {
    forall h, k | 0 <= k < |offer(h)| :: AllStart(offer(h)[k], prefix)
  }

  /** What is left of the argument after a match, with the prefix put back when it is missing. */
  function Peel(prefix: string, match_: string, rest: string): string {
    if rest != "" && prefix != "" && !(prefix <= rest) && prefix != match_ then prefix + rest else rest
  }

  /** The loop, started with matches `h` behind it, consumes `arg` completely as `matches`. */
  ghost predicate Joins(offer: Offer, prefix: string, h: seq<string>, arg: string, matches: seq<string>)
    decreases |matches|
  {
    if matches == [] then arg == ""
    else
      var m := matches[0];
      && m != "" && m <= arg && IsLongestMatch(offer(h), arg, |m|)
      && Joins(offer, prefix, h + [m], Peel(prefix, m, arg[|m|..]), matches[1..])
  }

  /** The loop gets through `matches` and then finds no flag to go on with. */
  ghost predicate GetsStuck(offer: Offer, prefix: string, h: seq<string>, arg: string, matches: seq<string>)
    decreases |matches|
  {
    if matches == [] then arg != "" && IsLongestMatch(offer(h), arg, 0)
    else
      var m := matches[0];
      && m != "" && m <= arg && IsLongestMatch(offer(h), arg, |m|)
      && GetsStuck(offer, prefix, h + [m], Peel(prefix, m, arg[|m|..]), matches[1..])
  }

  lemma MatchPrefixed(offer: Offer, prefix: string, h: seq<string>, arg: string, r: nat)
    requires OffersPrefixed(offer, prefix) && 0 < r && IsLongestMatch(offer(h), arg, r)
    ensures prefix <= arg[..r] && |Peel(prefix, arg[..r], arg[r..])| < |arg|
  {
    var k, i :| 0 <= k < |offer(h)| && 0 <= i < |offer(h)[k]| && offer(h)[k][i] == arg[..r];
    assert AllStart(offer(h)[k], prefix) && offer(h)[k][i] in offer(h)[k];
    assert |prefix| == r ==> prefix == arg[..r];
  }

  lemma HeadMoved(h: seq<string>, matches: seq<string>)
    requires matches != []
    ensures h + matches == h + [matches[0]] + matches[1..]
  {
  }

  lemma TailSnoc(matches: seq<string>, m: string)
    requires matches != []
    ensures (matches + [m])[0] == matches[0] && (matches + [m])[1..] == matches[1..] + [m]
  {
  }

  lemma {:induction false} JoinsSnoc(offer: Offer, prefix: string, h: seq<string>, arg: string,
                                     matches: seq<string>, left: string, m: string)
    requires Runs(offer, prefix, h, arg, matches, left)
    requires m != "" && m <= left && IsLongestMatch(offer(h + matches), left, |m|)
    ensures Runs(offer, prefix, h, arg, matches + [m], Peel(prefix, m, left[|m|..]))
    decreases |matches|
  {
    if matches == [] {
      assert h + matches == h;
    } else {
      HeadMoved(h, matches);
      TailSnoc(matches, m);
      JoinsSnoc(offer, prefix, h + [matches[0]], Peel(prefix, matches[0], arg[|matches[0]|..]),
                matches[1..], left, m);
    }
  }

  /** The loop gets through `matches` with `left` to go. */
  ghost predicate Runs(offer: Offer, prefix: string, h: seq<string>, arg: string,
                       matches: seq<string>, left: string)
    decreases |matches|
  {
    if matches == [] then left == arg
    else
      var m := matches[0];
      && m != "" && m <= arg && IsLongestMatch(offer(h), arg, |m|)
      && Runs(offer, prefix, h + [m], Peel(prefix, m, arg[|m|..]), matches[1..], left)
  }

  lemma {:induction false} RunsEnd(offer: Offer, prefix: string, h: seq<string>, arg: string,
                                   matches: seq<string>, left: string)
    requires Runs(offer, prefix, h, arg, matches, left)
    ensures left == "" ==> Joins(offer, prefix, h, arg, matches)
    ensures left != "" && IsLongestMatch(offer(h + matches), left, 0) ==> GetsStuck(offer, prefix, h, arg, matches)
    decreases |matches|
  {
    if matches == [] {
      assert h + matches == h;
    } else {
      HeadMoved(h, matches);
      RunsEnd(offer, prefix, h + [matches[0]], Peel(prefix, matches[0], arg[|matches[0]|..]), matches[1..], left);
    }
  }

  predicate Offered(candidates: seq<Flags>, f: string) {
    exists k :: 0 <= k < |candidates| && f in candidates[k]
  }

  /** The prefix is itself a flag, or does not begin with a non-empty one. */
  ghost predicate Safe(candidates: seq<Flags>, prefix: string) {
    Offered(candidates, prefix) || forall f | Offered(candidates, f) && f <= prefix :: f == ""
  }

  /** Flags that all start with the prefix are the usual case of this. */
  lemma PrefixedIsSafe(offer: Offer, prefix: string, h: seq<string>)
    requires OffersPrefixed(offer, prefix)
    ensures Safe(offer(h), prefix)
  {
    forall f | Offered(offer(h), f) && f <= prefix ensures f == prefix {
      var k :| 0 <= k < |offer(h)| && f in offer(h)[k];
      assert AllStart(offer(h)[k], prefix);
    }
  }

  /** What an argument still costs: the prefix may be put in front of it once. */
  function Size(prefix: string, arg: string): nat { |arg| + if prefix <= arg then 0 else |prefix| }

  function Rank(prefix: string, arg: string): nat { 2 * Size(prefix, arg) + if prefix <= arg then 1 else 0 }

  lemma MatchOffered(candidates: seq<Flags>, arg: string, r: nat)
    requires r > 0 && IsLongestMatch(candidates, arg, r)
    ensures Offered(candidates, arg[..r])
    ensures forall f | Offered(candidates, f) && f <= arg :: |f| <= r
  {
    var k, i :| 0 <= k < |candidates| && 0 <= i < |candidates[k]| && candidates[k][i] == arg[..r];
    assert arg[..r] in candidates[k];
    forall f | Offered(candidates, f) && f <= arg ensures |f| <= r {
      var l :| 0 <= l < |candidates| && f in candidates[l];
      var n :| 0 <= n < |candidates[l]| && candidates[l][n] == f;
    }
  }

  /** With safe flags every turn lowers the cost, or turns an argument that starts with the prefix into
      one that does not. */
  lemma TurnLowers(candidates: seq<Flags>, prefix: string, arg: string, r: nat)
    requires Safe(candidates, prefix) && r > 0 && IsLongestMatch(candidates, arg, r)
    ensures Rank(prefix, Peel(prefix, arg[..r], arg[r..])) < Rank(prefix, arg)
    ensures var next := Peel(prefix, arg[..r], arg[r..]);
            Size(prefix, next) < Size(prefix, arg)
            || (Size(prefix, next) == Size(prefix, arg) && prefix <= arg && !(prefix <= next))
  {
    var m, rest := arg[..r], arg[r..];
    MatchOffered(candidates, arg, r);
    if prefix <= arg && r <= |prefix| {
      assert m <= prefix;
      if Offered(candidates, prefix) { assert |prefix| <= r && m == prefix; }
    }
    assert prefix <= prefix + rest;
  }

  /** The consume-and-reinsert loop. It terminates when the prefix is safe. */
  method TryMatchJoined(offer: Offer, arg0: string, prefix: string) returns (ok: bool, matches: seq<string>)
    requires forall h :: Safe(offer(h), prefix)
    ensures ok ==> matches != [] && Joins(offer, prefix, [], arg0, matches)
    ensures !ok ==> arg0 == "" || GetsStuck(offer, prefix, [], arg0, matches)
  {
    var arg := arg0;
    matches := [];
    while arg != ""
      invariant Runs(offer, prefix, [], arg0, matches, arg)
      invariant arg != "" || matches != [] || arg0 == ""
      decreases Size(prefix, arg), prefix <= arg
    {
      assert [] + matches == matches;
      var r, _ := LongestPrefixMatch(offer(matches), arg);
      if r == 0 {
        RunsEnd(offer, prefix, [], arg0, matches, arg);
        return false, matches;
      }
      TurnLowers(offer(matches), prefix, arg, r);
      ghost var left := arg;
      var m := arg[..r];
      arg := arg[r..];
      if arg != "" && prefix != "" && !(prefix <= arg) && prefix != m {
        arg := prefix + arg;
      }
      JoinsSnoc(offer, prefix, [], arg0, matches, left, m);
      matches := matches + [m];
    }
    RunsEnd(offer, prefix, [], arg0, matches, arg);
    return matches != [], matches;
  }

  // ----- when the loop ends -----

  /** The same candidates at every turn. */
  function Always(candidates: seq<Flags>): Offer { _ => candidates }

  lemma {:induction false} RunsBounded(offer: Offer, prefix: string, h: seq<string>, arg: string,
                                       matches: seq<string>, left: string)
    requires (forall x :: Safe(offer(x), prefix)) && Runs(offer, prefix, h, arg, matches, left)
    ensures |matches| + Rank(prefix, left) <= Rank(prefix, arg)
    decreases |matches|
  {
    if matches != [] {
      var m := matches[0];
      assert Safe(offer(h), prefix) && arg[..|m|] == m;
      TurnLowers(offer(h), prefix, arg, |m|);
      RunsBounded(offer, prefix, h + [m], Peel(prefix, m, arg[|m|..]), matches[1..], left);
    }
  }

  /** Some longest match exists. */
  lemma {:induction false} SomeLongest(candidates: seq<Flags>, arg: string, r: nat) returns (q: nat)
    requires r <= |arg| && forall k, i | 0 <= k < |candidates| && 0 <= i < |candidates[k]| && candidates[k][i] <= arg ::
               |candidates[k][i]| <= r
    ensures IsLongestMatch(candidates, arg, q)
  {
    if r == 0 || exists k, i :: 0 <= k < |candidates| && 0 <= i < |candidates[k]| && candidates[k][i] == arg[..r] {
      q := r;
    } else {
      q := SomeLongest(candidates, arg, r - 1);
    }
  }

  /** Starts with the prefix and ends in a character of no flag. */
  predicate Endless(prefix: string, z: char, arg: string) { prefix <= arg && arg != "" && arg[|arg| - 1] == z }

  ghost predicate Unused(candidates: seq<Flags>, z: char) { forall f | Offered(candidates, f) :: z !in f }

  lemma LastIsIn(s: string)
    ensures s != "" ==> s[|s| - 1] in s
  {
  }

  lemma PartMatches(candidates: seq<Flags>, f: string, arg: string) returns (r: nat)
    requires Offered(candidates, f) && f != "" && f <= arg
    ensures r > 0 && IsLongestMatch(candidates, arg, r)
  {
    r := SomeLongest(candidates, arg, |arg|);
    var k :| 0 <= k < |candidates| && f in candidates[k];
    var i :| 0 <= i < |candidates[k]| && candidates[k][i] == f;
  }

  lemma EndlessRest(prefix: string, z: char, arg: string, r: nat)
    requires Endless(prefix, z, arg) && r < |arg| && prefix != "" && arg[..r] != prefix
    ensures Endless(prefix, z, Peel(prefix, arg[..r], arg[r..]))
  {
    var rest := arg[r..];
    assert rest[|rest| - 1] == z;
  }

  /** With an unsafe prefix such an argument has a match, and what is left of it is such an argument. */
  lemma EndlessTurn(candidates: seq<Flags>, prefix: string, z: char, arg: string) returns (m: string)
    requires !Safe(candidates, prefix) && Unused(candidates, z) && Endless(prefix, z, arg)
    ensures m != "" && m <= arg && IsLongestMatch(candidates, arg, |m|)
    ensures Endless(prefix, z, Peel(prefix, m, arg[|m|..]))
  {
    var f :| Offered(candidates, f) && f <= prefix && f != "";
    var r := PartMatches(candidates, f, arg);
    MatchOffered(candidates, arg, r);
    m := arg[..r];
    LastIsIn(m);
    assert r == |arg| ==> m == arg;
    EndlessRest(prefix, z, arg, r);
  }

  /** So the loop takes any number of turns on it. */
  lemma {:induction false} Diverges(candidates: seq<Flags>, prefix: string, z: char, h: seq<string>, arg: string,
                                    n: nat)
    returns (matches: seq<string>, left: string)
    requires !Safe(candidates, prefix) && Unused(candidates, z) && Endless(prefix, z, arg)
    ensures |matches| == n && Runs(Always(candidates), prefix, h, arg, matches, left) && left != ""
    decreases n
  {
    if n == 0 {
      matches, left := [], arg;
    } else {
      var m := EndlessTurn(candidates, prefix, z, arg);
      var more;
      more, left := Diverges(candidates, prefix, z, h + [m], Peel(prefix, m, arg[|m|..]), n - 1);
      matches := [m] + more;
      assert matches[1..] == more;
    }
  }

  /** The loop takes at most `n` turns on `arg`. */
  ghost predicate TurnsAtMost(candidates: seq<Flags>, prefix: string, arg: string, n: nat) {
    forall matches, left | Runs(Always(candidates), prefix, [], arg, matches, left) :: |matches| <= n
  }

  ghost predicate Ends(candidates: seq<Flags>, prefix: string, arg: string) {
    exists n: nat :: TurnsAtMost(candidates, prefix, arg, n)
  }

  lemma SafeEnds(candidates: seq<Flags>, prefix: string, arg: string)
    requires Safe(candidates, prefix)
    ensures Ends(candidates, prefix, arg)
  {
    forall matches, left | Runs(Always(candidates), prefix, [], arg, matches, left)
      ensures |matches| <= Rank(prefix, arg)
    {
      RunsBounded(Always(candidates), prefix, [], arg, matches, left);
    }
    assert TurnsAtMost(candidates, prefix, arg, Rank(prefix, arg));
  }

  /** The loop ends on every argument if and only if the prefix is itself a flag or does not begin with
      one. `z` is any character that no flag uses. */
  lemma TerminationExact(candidates: seq<Flags>, prefix: string, z: char)
    requires Unused(candidates, z)
    ensures Safe(candidates, prefix) <==> forall arg :: Ends(candidates, prefix, arg)
  {
    if Safe(candidates, prefix) {
      forall arg ensures Ends(candidates, prefix, arg) { SafeEnds(candidates, prefix, arg); }
    } else {
      NeverEnds(candidates, prefix, z, prefix + [z]);
    }
  }

  /** The matches strung together, without the prefix of those it had been put in front of. */
  function Rebuild(prefix: string, matches: seq<string>, inserted: seq<bool>): string
    requires |inserted| == |matches|
    decreases |matches|
  {
    if matches == [] then ""
    else
      (if inserted[0] && |prefix| <= |matches[0]| then matches[0][|prefix|..] else matches[0]) +
      Rebuild(prefix, matches[1..], inserted[1..])
  }

  /** The prefix was put in front of a later match exactly when the rest of the argument did not
      start with it, and the match before was not the bare prefix. */
  ghost predicate InsertedWhereMissing(prefix: string, matches: seq<string>, inserted: seq<bool>)
    requires |inserted| == |matches|
    decreases |matches|
  {
    |matches| > 1 ==>
      && (inserted[1] <==> prefix != "" && matches[0] != prefix
                           && !(prefix <= Rebuild(prefix, matches[1..], inserted[1..])))
      && InsertedWhereMissing(prefix, matches[1..], inserted[1..])
  }

  lemma DropInserted(prefix: string, arg: string, first: bool, m: string, rest: string)
    requires m + rest == (if first then prefix + arg else arg) && (first ==> prefix <= m)
    ensures arg == (if first then m[|prefix|..] else m) + rest
  {
    if first { assert arg == (prefix + arg)[|prefix|..] == (m + rest)[|prefix|..] == m[|prefix|..] + rest; }
  }

  /** Behind a safe prefix no match is shorter than it. */
  lemma SafeMatch(candidates: seq<Flags>, prefix: string, arg: string, m: string)
    requires Safe(candidates, prefix) && prefix <= arg && m != "" && m <= arg
    requires IsLongestMatch(candidates, arg, |m|)
    ensures prefix <= m
  {
    MatchOffered(candidates, arg, |m|);
    assert arg[..|m|] == m;
    assert |m| <= |prefix| ==> m <= prefix;
  }

  /** On success the matched strings, with the prefix dropped where the loop had put it, concatenate
      to the original argument. */
  lemma {:induction false} JoinsRebuild(offer: Offer, prefix: string, h: seq<string>, arg: string,
                                        matches: seq<string>, first: bool)
    returns (inserted: seq<bool>)
    requires forall x :: Safe(offer(x), prefix)
    requires Joins(offer, prefix, h, if first then prefix + arg else arg, matches) && (first ==> arg != "")
    ensures |inserted| == |matches| && (matches != [] ==> inserted[0] == first)
    ensures Rebuild(prefix, matches, inserted) == arg && InsertedWhereMissing(prefix, matches, inserted)
    decreases |matches|
  {
    if matches == [] {
      inserted := [];
    } else {
      var whole, m := if first then prefix + arg else arg, matches[0];
      var rest := whole[|m|..];
      assert whole[..|m|] == m && whole == m + rest;
      if first { SafeMatch(offer(h), prefix, whole, m); }
      DropInserted(prefix, arg, first, m, rest);
      var next := rest != "" && prefix != "" && !(prefix <= rest) && prefix != m;
      var more := JoinsRebuild(offer, prefix, h + [m], rest, matches[1..], next);
      inserted := [first] + more;
      assert inserted[1..] == more;
      if |matches| > 1 { assert rest != ""; }
    }
  }

  /** The whole of a successful match. */
  lemma JoinedIsArgument(offer: Offer, prefix: string, arg: string, matches: seq<string>)
    requires (forall x :: Safe(offer(x), prefix)) && Joins(offer, prefix, [], arg, matches)
    ensures exists inserted: seq<bool> ::
              && |inserted| == |matches| && (matches != [] ==> !inserted[0])
              && Rebuild(prefix, matches, inserted) == arg && InsertedWhereMissing(prefix, matches, inserted)
  {
    var inserted := JoinsRebuild(offer, prefix, [], arg, matches, false);
  }

  /** No flag is a proper prefix of another one. */
  ghost predicate PrefixFree(flags: Flags) {
    forall f, g | f in flags && g in flags && f <= g :: f == g
  }

  function WithPrefix(prefix: string, xs: seq<string>): seq<string> {
    if xs == [] then [] else [prefix + xs[0]] + WithPrefix(prefix, xs[1..])
  }

  /** No rest of the joined argument starts with the prefix by itself. */
  ghost predicate Unmistakable(prefix: string, xs: seq<string>)
    decreases |xs|
  {
    |xs| > 1 ==> !(prefix <= Concat(xs[1..])) && Unmistakable(prefix, xs[1..])
  }

  /** Among prefix-free flags the one that was written first is the longest that matches. */
  lemma FirstMatches(flags: Flags, m: string, rest: string)
    requires PrefixFree(flags) && m in flags
    ensures IsLongestMatch([flags], m + rest, |m|)
  {
    var arg := m + rest;
    var i :| 0 <= i < |flags| && flags[i] == m;
    assert arg[..|m|] == m && [flags][0][i] == arg[..|m|];
    forall j | 0 <= j < |flags| && flags[j] <= arg ensures |flags[j]| <= |m| {
      if |m| <= |flags[j]| {
        assert m == arg[..|m|] == flags[j][..|m|];
        assert m <= flags[j] && flags[j] in flags;
      }
    }
  }

  /** Joining prefix-free flags behind one common prefix is undone by the loop. */
  lemma {:induction false} JoinThenMatch(flags: Flags, prefix: string, xs: seq<string>, h: seq<string>)
    requires prefix != "" && PrefixFree(flags)
    requires xs != [] && (forall x | x in xs :: x != "" && prefix + x in flags) && Unmistakable(prefix, xs)
    ensures Joins(_ => [flags], prefix, h, prefix + Concat(xs), WithPrefix(prefix, xs))
    decreases |xs|
  {
    var m, rest := prefix + xs[0], Concat(xs[1..]);
    var offer: Offer := _ => [flags];
    assert xs[0] in xs && m in flags;
    assert prefix + Concat(xs) == m + rest;
    FirstMatches(flags, m, rest);
    if |xs| > 1 {
      assert xs[1] in xs && rest != "" && |m| > |prefix|;
      assert forall x | x in xs[1..] :: x in xs;
      JoinThenMatch(flags, prefix, xs[1..], h + [m]);
    } else {
      assert xs[1..] == [] && rest == "";
    }
    assert Joins(offer, prefix, h + [m], Peel(prefix, m, rest), WithPrefix(prefix, xs[1..]));
    JoinsCons(offer, prefix, h, m, rest, WithPrefix(prefix, xs[1..]));
  }

  lemma JoinsCons(offer: Offer, prefix: string, h: seq<string>, m: string, rest: string, matches: seq<string>)
    requires m != "" && IsLongestMatch(offer(h), m + rest, |m|)
    requires Joins(offer, prefix, h + [m], Peel(prefix, m, rest), matches)
    ensures Joins(offer, prefix, h, m + rest, [m] + matches)
  {
    assert ([m] + matches)[1..] == matches && (m + rest)[|m|..] == rest;
  }

  const MIXED: seq<Flags> := [["--ya", "--yb"], ["-", "x"]]

  lemma NeverEnds(candidates: seq<Flags>, prefix: string, z: char, arg: string)
    requires !Safe(candidates, prefix) && Unused(candidates, z) && Endless(prefix, z, arg)
    ensures !Ends(candidates, prefix, arg)
  {
    forall n: nat ensures !TurnsAtMost(candidates, prefix, arg, n) {
      var matches, left := Diverges(candidates, prefix, z, [], arg, n + 1);
    }
  }

  lemma TwoFlags(x: string, a: char, b: char)
    requires a != b
    ensures Lcp([x + [a], x + [b]]) == x
  {
    var strs := [x + [a], x + [b]];
    forall q | AllStart(strs, q) ensures |q| <= |x| {
      assert strs[0] in strs && strs[1] in strs;
      DifferAt(strs[0], strs[1], q, |x|);
    }
    CommonPrefixOf(strs);
    CommonPrefixUnique(strs, Lcp(strs), x);
  }

  lemma MixedPrefix()
    ensures CommonFlagPrefix(MIXED) == "--y"
  {
    TwoFlags("--y", 'a', 'b');
    TwoFlags("", '-', 'x');
    var a, b: Flags := ["--y" + ['a'], "--y" + ['b']], ["" + ['-'], "" + ['x']];
    assert "--ya" == "--y" + ['a'] && "--yb" == "--y" + ['b'];
    assert "-" == "" + ['-'] && "x" == "" + ['x'];
    assert MIXED[0] == a && MIXED[1] == b && MIXED[1..] == [b];
    assert Gathered([b]) == [];
    assert Gathered(MIXED) == ["--y"];
  }

  /** A group whose own common prefix is not safe: "--y" begins with "-". */
  lemma MixedDiverges()
    ensures !Safe(MIXED, CommonFlagPrefix(MIXED)) && !Ends(MIXED, CommonFlagPrefix(MIXED), "--yz")
  {
    MixedPrefix();
    assert MIXED[1][0] == "-" && "-" in MIXED[1] && Offered(MIXED, "-");
    assert forall f | Offered(MIXED, f) :: f == "--ya" || f == "--yb" || f == "-" || f == "x";
    assert "--yz" == "--y" + "z";
    NeverEnds(MIXED, "--y", 'z', "--yz");
  }
}

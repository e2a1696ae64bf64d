/** The depth-first traverser over a group tree: an explicit stack of contexts that refines the
    recursive preorder. */
module Traverser {

  datatype Node = Param(name: string) | Group(children: seq<Node>, exclusive: bool)

  /** A position in the tree: the child index at every level from the root down. */
  type Path = seq<nat>

  datatype Context = Context(parent: Node, cur: nat, end: nat)

  /** No group of the tree is empty; descending into an empty one has no meaning in the source. */
  ghost predicate NoEmptyGroup(n: Node) {
    n.Group? ==> n.children != [] && forall c | c in n.children :: NoEmptyGroup(c)
  }

  /** Preorder of one subtree, as positions. */
  function Preorder(n: Node, path: Path): seq<Path>
    decreases n, 1, 0
  {
    [path] + if n.Group? then Forest(n, 0, |n.children|, path) else []
  }

  /** Preorder of the children lo, ..., hi - 1 of a group. */
  function Forest(g: Node, lo: nat, hi: nat, prefix: Path): seq<Path>
    requires g.Group? && hi <= |g.children|
    decreases g, 0, hi - lo
  {
    if lo >= hi then [] else Preorder(g.children[lo], prefix + [lo]) + Forest(g, lo + 1, hi, prefix)
  }

  ghost predicate ContextOk(c: Context) {
    c.parent.Group? && NoEmptyGroup(c.parent) && c.cur < c.end <= |c.parent.children|
  }

  function Here(c: Context): Node
    requires c.parent.Group? && c.cur < |c.parent.children|
  {
    c.parent.children[c.cur]
  }

  /** Each context is the one of the group its predecessor points at. */
  ghost predicate StackOk(s: seq<Context>) {
    && (forall i | 0 <= i < |s| :: ContextOk(s[i]))
    && (forall i {:trigger Linked(s, i)} | 0 <= i < |s| - 1 :: Linked(s, i))
  }

  ghost predicate Linked(s: seq<Context>, i: nat)
    requires i + 1 < |s|
  {
    && s[i].parent.Group? && s[i].cur < |s[i].parent.children|
    && s[i + 1].parent == Here(s[i])
  }

  function Cursors(s: seq<Context>): Path { seq(|s|, i requires 0 <= i < |s| => s[i].cur) }

  function Pop(s: seq<Context>): seq<Context>
    requires s != []
  {
    s[..|s| - 1]
  }

  function Top(s: seq<Context>): Context
    requires s != []
  {
    s[|s| - 1]
  }

  /** The later siblings of a context's current child and everything below them. */
  function Later(c: Context, prefix: Path): seq<Path>
    requires c.parent.Group? && c.end <= |c.parent.children|
  {
    Forest(c.parent, c.cur + 1, c.end, prefix)
  }

  /** What comes after everything below the current position of `s`. */
  ghost function After(s: seq<Context>): seq<Path>
    requires StackOk(s)
    decreases |s|
  {
    if s == [] then []
    else
      PrefixOk(s, |s| - 1);
      Later(Top(s), Cursors(Pop(s))) + After(Pop(s))
  }

  /** The rest of the walk, the current position first. */
  ghost function Remaining(s: seq<Context>): seq<Path>
    requires StackOk(s)
  {
    if s == [] then [] else Preorder(Here(Top(s)), Cursors(s)) + After(s)
  }

  function Begin(g: Node): seq<Context>
    requires g.Group?
  {
    if g.children == [] then [] else [Context(g, 0, |g.children|)]
  }

  function NextSibling(s: seq<Context>): seq<Context>
    decreases |s|
  {
    if s == [] then []
    else if Top(s).cur + 1 < Top(s).end then Pop(s) + [Top(s).(cur := Top(s).cur + 1)]
    else NextSibling(Pop(s))
  }

  function Increment(s: seq<Context>): seq<Context>
    requires StackOk(s)
  {
    if s == [] then []
    else if Here(Top(s)).Group? then s + [Context(Here(Top(s)), 0, |Here(Top(s)).children|)]
    else NextSibling(s)
  }

  /** The top context moved on by one. */
  lemma MovedOn(below: seq<Context>, c: Context)
    requires StackOk(below + [c]) && ContextOk(c) && c.cur + 1 < c.end
    ensures var d := c.(cur := c.cur + 1);
            && StackOk(below) && StackOk(below + [d])
            && Remaining(below + [d]) == Later(c, Cursors(below)) + After(below)
  {
    var d := c.(cur := c.cur + 1);
    Replaced(below, c, d);
    RemainingIs(below, d);
    FirstOfLater(c, Cursors(below));
    Assoc(Preorder(Here(d), Cursors(below) + [d.cur]), Later(d, Cursors(below)), After(below));
  }

  lemma FirstOfLater(c: Context, prefix: Path)
    requires ContextOk(c) && c.cur + 1 < c.end
    ensures var d := c.(cur := c.cur + 1);
            Later(c, prefix) == Preorder(Here(d), prefix + [d.cur]) + Later(d, prefix)
  {
  }

  lemma RemainingIs(below: seq<Context>, c: Context)
    requires StackOk(below + [c]) && ContextOk(c)
    ensures StackOk(below)
    ensures Remaining(below + [c])
         == Preorder(Here(c), Cursors(below) + [c.cur]) + (Later(c, Cursors(below)) + After(below))
  {
    AfterIs(below, c);
    TopAndPop(below, c);
  }

  /** The top of a stack may be replaced by any context of the same group. */
  lemma Replaced(below: seq<Context>, c: Context, d: Context)
    requires StackOk(below + [c]) && ContextOk(d) && d.parent == c.parent
    ensures StackOk(below) && StackOk(below + [d])
  {
    var s, t := below + [c], below + [d];
    PrefixOk(s, |below|);
    assert s[..|below|] == below;
    forall i | 0 <= i < |t| - 1 ensures Linked(t, i) {
      assert Linked(s, i) && ContextOk(s[i]);
    }
  }

  lemma TopAndPop(below: seq<Context>, d: Context)
    ensures Pop(below + [d]) == below && Top(below + [d]) == d
    ensures Cursors(below + [d]) == Cursors(below) + [d.cur]
  {
  }

  lemma AfterIs(below: seq<Context>, c: Context)
    requires StackOk(below + [c]) && ContextOk(c)
    ensures StackOk(below) && After(below + [c]) == Later(c, Cursors(below)) + After(below)
  {
    PrefixOk(below + [c], |below|);
    assert (below + [c])[..|below|] == below;
    TopAndPop(below, c);
  }

  lemma Assoc(a: seq<Path>, b: seq<Path>, c: seq<Path>)
    ensures a + (b + c) == a + b + c
  {
  }

  lemma PrefixOk(s: seq<Context>, k: nat)
    requires StackOk(s) && k <= |s|
    ensures StackOk(s[..k])
  {
    forall i | 0 <= i < k - 1 ensures Linked(s[..k], i) {
      assert Linked(s, i);
    }
  }

  lemma {:induction false} NextSiblingOk(s: seq<Context>)
    requires StackOk(s)
    ensures StackOk(NextSibling(s)) && Remaining(NextSibling(s)) == After(s)
    decreases |s|
  {
    if s != [] {
      var c, below := Top(s), Pop(s);
      assert s == below + [c] && ContextOk(c);
      AfterIs(below, c);
      if c.cur + 1 < c.end {
        MovedOn(below, c);
        assert NextSibling(s) == below + [c.(cur := c.cur + 1)];
      } else {
        NextSiblingOk(below);
        assert NextSibling(s) == NextSibling(below);
        assert Later(c, Cursors(below)) == [] && [] + After(below) == After(below);
      }
    }
  }

  lemma Descends(s: seq<Context>, c: Context)
    requires StackOk(s) && s != [] && ContextOk(c) && c.parent == Here(Top(s))
    ensures StackOk(s + [c])
    ensures Remaining(s + [c]) == Preorder(Here(c), Cursors(s) + [c.cur]) + (Later(c, Cursors(s)) + After(s))
  {
    var t := s + [c];
    forall i | 0 <= i < |t| - 1 ensures Linked(t, i) {
      if i < |s| - 1 { assert Linked(s, i); }
    }
    TopAndPop(s, c);
  }

  lemma IncrementOk(s: seq<Context>)
    requires StackOk(s) && s != []
    ensures StackOk(Increment(s)) && Remaining(s) == [Cursors(s)] + Remaining(Increment(s))
  {
    var n := Here(Top(s));
    assert NoEmptyGroup(n);
    var here, after := Preorder(n, Cursors(s)), After(s);
    if n.Group? {
      Descends(s, Context(n, 0, |n.children|));
      assert Forest(n, 0, |n.children|, Cursors(s)) ==
             Preorder(n.children[0], Cursors(s) + [0]) + Forest(n, 1, |n.children|, Cursors(s));
      Assoc([Cursors(s)], Forest(n, 0, |n.children|, Cursors(s)), after);
      Assoc(Preorder(n.children[0], Cursors(s) + [0]), Forest(n, 1, |n.children|, Cursors(s)), after);
    } else {
      NextSiblingOk(s);
      assert here == [Cursors(s)] + [] == [Cursors(s)];
    }
  }

  /** `p` leads to a node of the subtree `n`. */
  predicate IsPosition(n: Node, p: Path)
    decreases |p|
  {
    p == [] || (n.Group? && p[0] < |n.children| && IsPosition(n.children[p[0]], p[1..]))
  }

  ghost predicate Distinct(ps: seq<Path>) {
    forall i, j | 0 <= i < j < |ps| :: ps[i] != ps[j]
  }

  lemma {:induction false} PreorderPositions(n: Node, path: Path)
    ensures Distinct(Preorder(n, path))
    ensures forall p :: p in Preorder(n, path) <==> path <= p && IsPosition(n, p[|path|..])
    decreases n, 1, 0
  {
    var below := if n.Group? then Forest(n, 0, |n.children|, path) else [];
    if n.Group? { ForestPositions(n, 0, |n.children|, path); }
    forall j | 0 <= j < |below| ensures below[j] != path { assert below[j] in below; }
    forall p ensures p in Preorder(n, path) <==> path <= p && IsPosition(n, p[|path|..]) {
      if path <= p && |p| > |path| {
        assert p[|path|..][0] == p[|path|];
      }
      assert path <= p && |p| == |path| ==> p == path;
    }
  }

  lemma {:induction false} ForestPositions(g: Node, lo: nat, hi: nat, prefix: Path)
    requires g.Group? && hi <= |g.children|
    ensures Distinct(Forest(g, lo, hi, prefix))
    ensures forall p :: p in Forest(g, lo, hi, prefix) <==>
                        prefix < p && lo <= p[|prefix|] < hi && IsPosition(g, p[|prefix|..])
    decreases g, 0, hi - lo
  {
    if lo < hi {
      var first, more := Preorder(g.children[lo], prefix + [lo]), Forest(g, lo + 1, hi, prefix);
      PreorderPositions(g.children[lo], prefix + [lo]);
      ForestPositions(g, lo + 1, hi, prefix);
      forall p ensures p in first <==> prefix < p && p[|prefix|] == lo && IsPosition(g, p[|prefix|..]) {
        if prefix < p {
          assert p[|prefix|..][1..] == p[|prefix + [lo]|..];
          assert p[|prefix|] == lo ==> prefix + [lo] <= p;
        }
      }
      var all := first + more;
      forall i, j | 0 <= i < j < |all| ensures all[i] != all[j] {
        if i < |first| <= j {
          assert all[i] in first && all[j] in more;
        }
      }
    }
  }

  ghost function Visits(s: seq<Context>): seq<Path>
    requires StackOk(s)
    decreases |Remaining(s)|
  {
    if s == [] then []
    else
      IncrementOk(s);
      [Cursors(s)] + Visits(Increment(s))
  }

  lemma {:induction false} VisitsRemaining(s: seq<Context>)
    requires StackOk(s)
    ensures Visits(s) == Remaining(s)
    decreases |Remaining(s)|
  {
    if s != [] {
      IncrementOk(s);
      VisitsRemaining(Increment(s));
    }
  }

  /** Repeated ++ from the beginning visits exactly the preorder of the tree: every node below the
      root once, and then ends. */
  lemma WalkIsPreorder(g: Node)
    requires g.Group? && NoEmptyGroup(g)
    ensures StackOk(Begin(g))
    ensures Visits(Begin(g)) == Forest(g, 0, |g.children|, []) && Distinct(Visits(Begin(g)))
    ensures forall p :: p in Visits(Begin(g)) <==> p != [] && IsPosition(g, p)
  {
    var s := Begin(g);
    var root: Path := [];
    assert Pop(s) == [] && Cursors(s) == [0] == root + [0] && Cursors(Pop(s)) == root;
    assert Forest(g, 0, |g.children|, root) == Preorder(g.children[0], [0]) + Forest(g, 1, |g.children|, root);
    assert StackOk(s) && After(Pop(s)) == [];
    assert Remaining(s) == Forest(g, 0, |g.children|, root) by {
      assert After(s) == Forest(g, 1, |g.children|, root) + [];
    }
    VisitsRemaining(s);
    ForestPositions(g, 0, |g.children|, []);
    forall p ensures p in Visits(s) <==> p != [] && IsPosition(g, p) {
      assert root <= p && p[|root|..] == p;
    }
  }

  /** next_sibling skips exactly the subtree below the current position. */
  lemma SiblingSkipsSubtree(s: seq<Context>)
    requires StackOk(s) && s != []
    ensures StackOk(NextSibling(s))
    ensures Remaining(s) == Preorder(Here(Top(s)), Cursors(s)) + Remaining(NextSibling(s))
  {
    NextSiblingOk(s);
  }

  function SkipContext(c: Context): Context {
    if c.parent.Group? && c.parent.exclusive && c.cur < c.end then c.(end := c.cur + 1) else c
  }

  function SkipAlternatives(s: seq<Context>): seq<Context> {
    seq(|s|, i requires 0 <= i < |s| => SkipContext(s[i]))
  }

  /** `p` lies in a later sibling of the current position inside an enclosing exclusive group. */
  ghost predicate Alternative(s: seq<Context>, p: Path) {
    exists i | 0 <= i < |s| ::
      && s[i].parent.Group? && s[i].parent.exclusive
      && Cursors(s)[..i] < p && p[i] > s[i].cur
  }

  ghost function WithoutAlternatives(ps: seq<Path>, s: seq<Context>): seq<Path> {
    if ps == [] then []
    else (if Alternative(s, ps[0]) then [] else [ps[0]]) + WithoutAlternatives(ps[1..], s)
  }

  lemma {:induction false} WithoutJoin(a: seq<Path>, b: seq<Path>, s: seq<Context>)
    ensures WithoutAlternatives(a + b, s) == WithoutAlternatives(a, s) + WithoutAlternatives(b, s)
  {
    if a == [] {
      assert a + b == b;
    } else {
      assert (a + b)[1..] == a[1..] + b;
      WithoutJoin(a[1..], b, s);
    }
  }

  lemma {:induction false} WithoutUniform(ps: seq<Path>, s: seq<Context>, gone: bool)
    requires forall p | p in ps :: Alternative(s, p) == gone
    ensures WithoutAlternatives(ps, s) == if gone then [] else ps
  {
    if ps != [] {
      assert ps == [ps[0]] + ps[1..];
      WithoutUniform(ps[1..], s, gone);
    }
  }

  lemma SkipOk(s: seq<Context>)
    requires StackOk(s)
    ensures var t := SkipAlternatives(s);
            && StackOk(t) && Cursors(t) == Cursors(s)
            && |t| == |s| && forall k | 0 <= k < |s| :: t[k] == SkipContext(s[k])
  {
    var t := SkipAlternatives(s);
    forall i | 0 <= i < |t| - 1 ensures Linked(t, i) {
      assert Linked(s, i);
    }
  }

  /** Later siblings at one level are alternatives exactly when that level's group is exclusive. */
  lemma LevelAlternatives(s: seq<Context>, k: nat, p: Path)
    requires StackOk(s) && k < |s| && Cursors(s)[..k] < p && p[k] > s[k].cur
    ensures Alternative(s, p) <==> s[k].parent.exclusive
  {
    forall i | 0 <= i < |s| && i != k ensures !(Cursors(s)[..i] < p && p[i] > s[i].cur) {
      if i < k {
        assert p[i] == Cursors(s)[..k][i] == s[i].cur;
      } else {
        NotPrefix(Cursors(s)[..i], p, k);
      }
    }
  }

  lemma NotPrefix(q: Path, p: Path, k: nat)
    requires k < |q| && k < |p| && p[k] != q[k]
    ensures !(q <= p)
  {
  }

  lemma LaterGone(s: seq<Context>, k: nat)
    requires StackOk(s) && k < |s|
    ensures forall p | p in Later(s[k], Cursors(s)[..k]) :: Alternative(s, p) == s[k].parent.exclusive
  {
    var c, prefix := s[k], Cursors(s)[..k];
    ForestPositions(c.parent, c.cur + 1, c.end, prefix);
    forall p | p in Later(c, prefix) ensures Alternative(s, p) == c.parent.exclusive {
      LevelAlternatives(s, k, p);
    }
  }

  lemma LaterSkip(s: seq<Context>, k: nat)
    requires StackOk(s) && k < |s|
    ensures Later(SkipContext(s[k]), Cursors(s)[..k]) == WithoutAlternatives(Later(s[k], Cursors(s)[..k]), s)
  {
    LaterGone(s, k);
    WithoutUniform(Later(s[k], Cursors(s)[..k]), s, s[k].parent.exclusive);
  }

  lemma AfterLast(s: seq<Context>, k: nat)
    requires StackOk(s) && 0 < k <= |s|
    ensures StackOk(s[..k]) && StackOk(s[..k - 1])
    ensures After(s[..k]) == Later(s[k - 1], Cursors(s)[..k - 1]) + After(s[..k - 1])
  {
    PrefixOk(s, k);
    PrefixOk(s, k - 1);
    assert Pop(s[..k]) == s[..k - 1] && Top(s[..k]) == s[k - 1];
    assert Cursors(s[..k - 1]) == Cursors(s)[..k - 1];
  }

  lemma {:induction false} AfterSkip(s: seq<Context>, k: nat)
    requires StackOk(s) && k <= |s|
    ensures StackOk(SkipAlternatives(s)) && StackOk(s[..k]) && StackOk(SkipAlternatives(s)[..k])
    ensures After(SkipAlternatives(s)[..k]) == WithoutAlternatives(After(s[..k]), s)
    decreases k
  {
    SkipOk(s);
    var t := SkipAlternatives(s);
    PrefixOk(s, k);
    PrefixOk(t, k);
    if k > 0 {
      AfterLast(s, k);
      AfterLast(t, k);
      assert ContextOk(s[k - 1]);
      LaterSkip(s, k - 1);
      AfterSkip(s, k - 1);
      WithoutJoin(Later(s[k - 1], Cursors(s)[..k - 1]), After(s[..k - 1]), s);
    } else {
      assert s[..0] == [] && t[..0] == [];
    }
  }

  lemma BelowIsKept(s: seq<Context>, p: Path)
    requires Cursors(s) <= p
    ensures !Alternative(s, p)
  {
    forall i | 0 <= i < |s| ensures p[i] == s[i].cur {
      assert p[i] == Cursors(s)[i];
    }
  }

  /** After skip_alternatives the rest of the walk is what it was before, less exactly the later
      siblings inside every enclosing exclusive group. */
  lemma SkipFilters(s: seq<Context>)
    requires StackOk(s)
    ensures StackOk(SkipAlternatives(s))
    ensures Remaining(SkipAlternatives(s)) == WithoutAlternatives(Remaining(s), s)
  {
    SkipOk(s);
    if s != [] {
      var here := Preorder(Here(Top(s)), Cursors(s));
      HereIsKept(s);
      WithoutJoin(here, After(s), s);
      AfterSkip(s, |s|);
      assert s[..|s|] == s && SkipAlternatives(s)[..|s|] == SkipAlternatives(s);
      assert Here(Top(SkipAlternatives(s))) == Here(Top(s));
    }
  }

  /** Skipping takes nothing away below the current position. */
  lemma HereIsKept(s: seq<Context>)
    requires StackOk(s) && s != []
    ensures var here := Preorder(Here(Top(s)), Cursors(s)); WithoutAlternatives(here, s) == here
  {
    var here := Preorder(Here(Top(s)), Cursors(s));
    PreorderPositions(Here(Top(s)), Cursors(s));
    forall p | p in here ensures !Alternative(s, p) { BelowIsKept(s, p); }
    WithoutUniform(here, s, false);
  }

  /** What undo_point saves: the depth and the innermost context. */
  datatype Memento = Memento(level: nat, context: Context)

  function UndoPoint(s: seq<Context>): Memento {
    Memento(|s|, if s == [] then Context(Param(""), 0, 0) else Top(s))
  }

  function Undo(s: seq<Context>, m: Memento): seq<Context> {
    if m.level < 1 then s
    else if m.level <= |s| then s[..m.level - 1] + [m.context]
    else if s == [] && m.level == 1 then [m.context]
    else s
  }

  datatype Move = Next | Sibling | Skip

  function Moved(s: seq<Context>, move: Move): seq<Context>
    requires StackOk(s)
  {
    match move
    case Next => Increment(s)
    case Sibling => NextSibling(s)
    case Skip => SkipAlternatives(s)
  }

  lemma MovedOk(s: seq<Context>, move: Move)
    requires StackOk(s)
    ensures StackOk(Moved(s, move))
  {
    NextSiblingOk(s);
    SkipOk(s);
    if s != [] { IncrementOk(s); }
  }

  ghost function Walk(s: seq<Context>, moves: seq<Move>): (t: seq<Context>)
    requires StackOk(s)
    ensures StackOk(t)
    decreases |moves|
  {
    MovedOk(s, if moves == [] then Next else moves[0]);
    if moves == [] then s else Walk(Moved(s, moves[0]), moves[1..])
  }

  /** The walk never has fewer than `level` contexts. */
  ghost predicate StaysInside(s: seq<Context>, moves: seq<Move>, level: nat)
    requires StackOk(s)
    decreases |moves|
  {
    |s| >= level &&
    (moves != [] ==>
      (MovedOk(s, moves[0]); StaysInside(Moved(s, moves[0]), moves[1..], level)))
  }

  /** next_sibling drops contexts from the end and moves the last of those left. */
  lemma {:induction false} SiblingKeepsBelow(s: seq<Context>, k: nat)
    requires StackOk(s) && k < |NextSibling(s)|
    ensures |NextSibling(s)| <= |s| && NextSibling(s)[..k] == s[..k]
    decreases |s|
  {
    if s != [] && Top(s).cur + 1 >= Top(s).end {
      PrefixOk(s, |s| - 1);
      SiblingKeepsBelow(Pop(s), k);
    }
  }

  /** The context `c` after some moves inside a deeper group. */
  function Kept(c: Context, skipped: bool): Context { if skipped then SkipContext(c) else c }

  lemma MoveKeepsBelow(s: seq<Context>, move: Move, level: nat)
    requires StackOk(s) && level > 0 && |s| >= level && |Moved(s, move)| >= level
    ensures forall i | 0 <= i < level - 1 :: Moved(s, move)[i] == Kept(s[i], move == Skip)
  {
    if move == Skip {
      SkipOk(s);
    } else if move == Sibling || !Here(Top(s)).Group? {
      SiblingKeepsBelow(s, level - 1);
      assert forall i | 0 <= i < level - 1 :: NextSibling(s)[i] == NextSibling(s)[..level - 1][i] == s[..level - 1][i];
    }
  }

  /** Moves inside a group leave the contexts below it alone, except that skipping narrows them. */
  lemma {:induction false} WalkKeepsBelow(s: seq<Context>, moves: seq<Move>, level: nat)
    requires StackOk(s) && level > 0 && StaysInside(s, moves, level)
    ensures |Walk(s, moves)| >= level
    ensures forall i | 0 <= i < level - 1 :: Walk(s, moves)[i] == Kept(s[i], Skip in moves)
    decreases |moves|
  {
    if moves != [] {
      MovedOk(s, moves[0]);
      MoveKeepsBelow(s, moves[0], level);
      WalkKeepsBelow(Moved(s, moves[0]), moves[1..], level);
      assert Skip in moves <==> moves[0] == Skip || Skip in moves[1..];
    }
  }

  /** Everything still to come is, at some level, not before the cursor, and strictly behind it
      above the innermost level. */
  ghost predicate Ahead(s: seq<Context>, p: Path, i: nat) {
    i < |s| && i < |p| && Cursors(s)[..i] <= p && p[i] >= s[i].cur && (i < |s| - 1 ==> p[i] > s[i].cur)
  }

  lemma {:induction false} AfterAhead(s: seq<Context>, p: Path) returns (i: nat)
    requires StackOk(s) && p in After(s)
    ensures i < |s| && i < |p| && Cursors(s)[..i] <= p && p[i] > s[i].cur
    decreases |s|
  {
    var c, below := Top(s), Pop(s);
    PrefixOk(s, |s| - 1);
    if p in After(below) {
      i := AfterAhead(below, p);
      assert Cursors(below)[..i] == Cursors(s)[..i];
    } else {
      ForestPositions(c.parent, c.cur + 1, c.end, Cursors(below));
      i := |below|;
      assert Cursors(below) == Cursors(s)[..i];
    }
  }

  lemma RemainingAhead(s: seq<Context>, p: Path) returns (i: nat)
    requires StackOk(s) && p in Remaining(s)
    ensures Ahead(s, p, i)
  {
    if p in After(s) {
      i := AfterAhead(s, p);
    } else {
      PreorderPositions(Here(Top(s)), Cursors(s));
      i := |s| - 1;
      assert p[i] == Cursors(s)[i];
    }
  }

  /** Nothing of the walk that is left lies below `prefix`. */
  ghost predicate Gone(s: seq<Context>, prefix: Path)
    requires StackOk(s)
  {
    forall p | p in Remaining(s) :: !(prefix <= p)
  }

  /** Stepping out of a group leaves all of it behind. */
  lemma LeavingIsFinal(s: seq<Context>, level: nat)
    requires StackOk(s) && 0 < level <= |s| && |NextSibling(s)| < level
    ensures StackOk(NextSibling(s)) && Gone(NextSibling(s), Cursors(s)[..level - 1])
  {
    NextSiblingOk(s);
    var t := NextSibling(s);
    forall p | p in Remaining(t) ensures !(Cursors(s)[..level - 1] <= p) {
      var i := RemainingAhead(t, p);
      SiblingAdvances(s);
      assert Cursors(s)[..level - 1][i] == s[i].cur < p[i];
    }
  }

  lemma {:induction false} SiblingAdvances(s: seq<Context>)
    requires StackOk(s) && NextSibling(s) != []
    ensures var t := NextSibling(s);
            && |t| <= |s| && t[|t| - 1].cur == s[|t| - 1].cur + 1
            && forall i | 0 <= i < |t| - 1 :: t[i] == s[i]
    decreases |s|
  {
    if Top(s).cur + 1 >= Top(s).end {
      PrefixOk(s, |s| - 1);
      SiblingAdvances(Pop(s));
    }
  }

  lemma {:induction false} WithoutIn(ps: seq<Path>, s: seq<Context>, p: Path)
    requires p in WithoutAlternatives(ps, s)
    ensures p in ps
  {
    if p != ps[0] { WithoutIn(ps[1..], s, p); }
  }

  lemma GoneStays(s: seq<Context>, move: Move, prefix: Path)
    requires StackOk(s) && Gone(s, prefix)
    ensures StackOk(Moved(s, move)) && Gone(Moved(s, move), prefix)
  {
    MovedOk(s, move);
    if s != [] {
      IncrementOk(s);
      NextSiblingOk(s);
      SkipFilters(s);
      forall p | p in Remaining(Moved(s, move)) ensures p in Remaining(s) {
        if move == Next {
          assert p in [Cursors(s)] + Remaining(Increment(s));
        } else if move == Skip {
          WithoutIn(Remaining(s), s, p);
        }
      }
    }
  }

  lemma {:induction false} WalkStaysGone(s: seq<Context>, moves: seq<Move>, prefix: Path)
    requires StackOk(s) && Gone(s, prefix)
    ensures Gone(Walk(s, moves), prefix)
    decreases |moves|
  {
    if moves != [] {
      GoneStays(s, moves[0], prefix);
      WalkStaysGone(Moved(s, moves[0]), moves[1..], prefix);
    }
  }

  lemma {:induction false} WalkLeft(s: seq<Context>, moves: seq<Move>, level: nat)
    requires StackOk(s) && 0 < level <= |s| && !StaysInside(s, moves, level)
    ensures Gone(Walk(s, moves), Cursors(s)[..level - 1])
    decreases |moves|
  {
    MovedOk(s, moves[0]);
    var t := Moved(s, moves[0]);
    if |t| < level {
      assert t == NextSibling(s);
      LeavingIsFinal(s, level);
      WalkStaysGone(t, moves[1..], Cursors(s)[..level - 1]);
    } else {
      MoveKeepsBelow(s, moves[0], level);
      assert Cursors(t)[..level - 1] == Cursors(s)[..level - 1];
      WalkLeft(t, moves[1..], level);
    }
  }

  /** No group around the innermost one has alternatives left to skip. */
  predicate NoOuterAlternatives(s: seq<Context>) {
    forall i | 0 <= i < |s| - 1 ::
      s[i].parent.Group? && s[i].parent.exclusive && s[i].cur < s[i].end ==> s[i].end == s[i].cur + 1
  }

  /** undo after any moves returns to the saved position if and only if they never left the group it was
      saved in, leaving the outermost group being undone as well. It gives the saved stack back if and
      only if, besides, no alternatives of a group around it were skipped: those are not brought back. */
  lemma UndoRestores(s: seq<Context>, moves: seq<Move>)
    requires StackOk(s) && s != []
    ensures var t := Undo(Walk(s, moves), UndoPoint(s));
            && (Cursors(t) == Cursors(s) <==> StaysInside(s, moves, |s|) || |s| == 1)
            && (t == s <==> |s| == 1 || (StaysInside(s, moves, |s|) && (Skip !in moves || NoOuterAlternatives(s))))
  {
    if StaysInside(s, moves, |s|) {
      UndoInside(s, moves);
    } else {
      WalkLeft(s, moves, |s|);
      UndoOutside(s, Walk(s, moves));
    }
  }

  lemma UndoInside(s: seq<Context>, moves: seq<Move>)
    requires StackOk(s) && s != [] && StaysInside(s, moves, |s|)
    ensures var t := Undo(Walk(s, moves), UndoPoint(s));
            Cursors(t) == Cursors(s) && (t == s <==> Skip !in moves || NoOuterAlternatives(s))
  {
    WalkKeepsBelow(s, moves, |s|);
    var t := Undo(Walk(s, moves), UndoPoint(s));
    forall i | 0 <= i < |s| - 1 ensures t[i] == Kept(s[i], Skip in moves) {
      assert t[i] == Walk(s, moves)[i];
    }
    AllKept(s, t, Skip in moves);
  }

  lemma AllKept(s: seq<Context>, t: seq<Context>, skipped: bool)
    requires s != [] && |t| == |s| && t[|s| - 1] == s[|s| - 1]
    requires forall i | 0 <= i < |s| - 1 :: t[i] == Kept(s[i], skipped)
    ensures Cursors(t) == Cursors(s) && (t == s <==> !skipped || NoOuterAlternatives(s))
  {
    if skipped && !NoOuterAlternatives(s) {
      var i :| 0 <= i < |s| - 1 && s[i].parent.Group? && s[i].parent.exclusive && s[i].cur < s[i].end
               && s[i].end != s[i].cur + 1;
      assert t[i] != s[i];
    }
  }

  lemma UndoOutside(s: seq<Context>, t: seq<Context>)
    requires StackOk(s) && s != [] && StackOk(t) && Gone(t, Cursors(s)[..|s| - 1])
    ensures if |s| == 1 then Undo(t, UndoPoint(s)) == s else Cursors(Undo(t, UndoPoint(s))) != Cursors(s)
  {
    var u, level := Undo(t, UndoPoint(s)), |s|;
    if level == 1 {
      assert s == [Top(s)];
    } else if |t| >= level {
      assert Cursors(t) in Remaining(t);
      assert Cursors(t)[..level - 1] != Cursors(s)[..level - 1];
      assert Cursors(u)[..level - 1] == Cursors(t)[..level - 1];
    }
  }

  /** The traverser object. */
  class DepthFirstTraverser {
    var stack: seq<Context>

    constructor (cur: Node)
      requires cur.Group? && NoEmptyGroup(cur)
      ensures StackOk(stack) && stack == Begin(cur)
    {
      stack := if cur.children != [] then [Context(cur, 0, |cur.children|)] else [];
    }

    method Advance()
      requires StackOk(stack)
      modifies this
      ensures StackOk(stack) && stack == Increment(old(stack))
    {
      if stack == [] { return; }
      IncrementOk(stack);
      var top := Top(stack);
      var here := top.parent.children[top.cur];
      if here.Group? {
        stack := stack + [Context(here, 0, |here.children|)];
      } else {
        ToNextSibling();
      }
    }

    method ToNextSibling()
      requires StackOk(stack)
      modifies this
      ensures StackOk(stack) && stack == NextSibling(old(stack))
    {
      if stack == [] { return; }
      NextSiblingOk(stack);
      ghost var goal, left := NextSibling(stack), stack;
      stack := Pop(stack) + [Top(stack).(cur := Top(stack).cur + 1)];
      while Top(stack).cur == Top(stack).end
        invariant stack != [] && left != [] && StackOk(left) && NextSibling(left) == goal
        invariant stack == Pop(left) + [Top(left).(cur := Top(left).cur + 1)]
        decreases |stack|
      {
        stack := Pop(stack);
        PrefixOk(left, |left| - 1);
        left := Pop(left);
        assert stack == left;
        if stack == [] { return; }
        stack := Pop(stack) + [Top(stack).(cur := Top(stack).cur + 1)];
      }
    }

    method DoSkipAlternatives()
      requires StackOk(stack)
      modifies this
      ensures StackOk(stack) && stack == SkipAlternatives(old(stack))
    {
      SkipOk(stack);
      for i := 0 to |stack|
        invariant |stack| == |old(stack)|
        invariant forall k | 0 <= k < i :: stack[k] == SkipContext(old(stack)[k])
        invariant forall k | i <= k < |stack| :: stack[k] == old(stack)[k]
      {
        var c := stack[i];
        if c.parent.exclusive && c.cur < c.end {
          stack := stack[i := c.(end := c.cur + 1)];
        }
      }
    }

    method SavePoint() returns (m: Memento)
      ensures m == UndoPoint(stack) && Undo(stack, m) == stack
    {
      m := Memento(|stack|, if stack == [] then Context(Param(""), 0, 0) else Top(stack));
    }

    method GoBack(m: Memento)
      modifies this
      ensures stack == Undo(old(stack), m)
    {
      if m.level < 1 { return; }
      if m.level <= |stack| {
        stack := stack[..m.level];
        stack := stack[|stack| - 1 := m.context];
      } else if stack == [] && m.level == 1 {
        stack := [m.context];
      }
    }
  }
}

/** The kernel symbol table: two growing arenas, a sort, and a binary search by address. */
module Ksyms {
  import opened Wrappers
  import opened Text

  /** What a table element means: a name and an address. */
  datatype Entry = Entry(name: string, addr: nat)

  /** A table element: where its name starts in the string arena, and its address. */
  datatype Sym = Sym(off: nat, addr: nat)

  /** ksym_cmp: by address, then by name. */
  predicate Leq(x: Entry, y: Entry) {
    x.addr < y.addr || (x.addr == y.addr && LexLeq(x.name, y.name))
  }

  lemma LeqTotal(x: Entry, y: Entry)
    ensures Leq(x, y) || Leq(y, x)
    ensures Leq(x, y) && Leq(y, x) ==> x == y
  {
    LexTotal(x.name, y.name);
  }

  lemma LeqTransitive(x: Entry, y: Entry, z: Entry)
    requires Leq(x, y) && Leq(y, z)
    ensures Leq(x, z)
  {
    if x.addr == y.addr == z.addr { LexTransitive(x.name, y.name, z.name); }
  }

  ghost predicate Ordered(s: seq<Entry>) { forall i, j | 0 <= i < j < |s| :: Leq(s[i], s[j]) }

  /** Among the entries at or below `q`, `r` is the greatest: the highest address and, of those, the
      last name. */
  ghost predicate IsBest(list: seq<Entry>, q: nat, r: Entry) {
    r in list && r.addr <= q && forall e | e in list && e.addr <= q :: Leq(e, r)
  }

  /** The linear scan that the table stands for. */
  function Scan(list: seq<Entry>, q: nat): Option<Entry> {
    if list == [] then None
    else
      var best, e := Scan(list[..|list| - 1], q), list[|list| - 1];
      if e.addr <= q && (best.None? || Leq(best.value, e)) then Some(e) else best
  }

  lemma {:induction false} ScanIsBest(list: seq<Entry>, q: nat)
    ensures Scan(list, q).Some? ==> IsBest(list, q, Scan(list, q).value)
    ensures Scan(list, q) == None ==> forall e | e in list :: e.addr > q
  {
    if list != [] {
      var front, e := list[..|list| - 1], list[|list| - 1];
      ScanIsBest(front, q);
      assert list == front + [e];
      LeqTotal(e, e);
      if Scan(front, q).Some? {
        var best := Scan(front, q).value;
        LeqTotal(best, e);
        if e.addr <= q && Leq(best, e) {
          forall x | x in front && x.addr <= q ensures Leq(x, e) { LeqTransitive(x, best, e); }
        }
      }
    }
  }

  /** An ordered rearrangement of `list` answers as the scan of `list` does. */
  lemma BestIsScan(list: seq<Entry>, sorted: seq<Entry>, q: nat, i: int)
    requires Ordered(sorted) && multiset(list) == multiset(sorted) && -1 <= i < |sorted|
    requires i >= 0 ==> sorted[i].addr <= q
    requires forall j | i < j < |sorted| :: sorted[j].addr > q
    ensures Scan(list, q) == if i >= 0 then Some(sorted[i]) else None
  {
    assert forall e :: e in list <==> e in multiset(list);
    assert forall e :: e in sorted <==> e in multiset(sorted);
    ScanIsBest(list, q);
    if i >= 0 {
      var r := sorted[i];
      LeqTotal(r, r);
      forall e | e in list && e.addr <= q ensures Leq(e, r) {
        var j :| 0 <= j < |sorted| && sorted[j] == e;
      }
      assert r in list;
      LeqTotal(r, Scan(list, q).value);
    }
  }

  /** The C string at `off`: what precedes the next NUL. */
  function NameAt(strs: seq<char>, off: nat): string
    decreases |strs| - off
  {
    if off >= |strs| || strs[off] == '\0' then "" else [strs[off]] + NameAt(strs, off + 1)
  }

  function EntryOf(strs: seq<char>, s: Sym): Entry { Entry(NameAt(strs, s.off), s.addr) }

  function Entries(strs: seq<char>, syms: seq<Sym>): seq<Entry> {
    seq(|syms|, i requires 0 <= i < |syms| => EntryOf(strs, syms[i]))
  }

  /** The name at `off` is closed by a NUL inside the used part of the arena. */
  ghost predicate Closed(strs: seq<char>, off: nat) {
    exists k :: off <= k < |strs| && strs[k] == '\0'
  }

  lemma {:induction false} NameStable(strs: seq<char>, more: seq<char>, off: nat, k: nat)
    requires off <= k < |strs| && strs[k] == '\0'
    ensures NameAt(strs + more, off) == NameAt(strs, off)
    decreases k - off
  {
    if strs[off] != '\0' { NameStable(strs, more, off + 1, k); }
  }

  lemma {:induction false} NameWritten(strs: seq<char>, name: string, off: nat)
    requires '\0' !in name && off <= |name|
    ensures NameAt(strs + name + ['\0'], |strs| + off) == name[off..]
    decreases |name| - off
  {
    var s := strs + name + ['\0'];
    if off < |name| {
      assert s[|strs| + off] == name[off] && name[off] in name;
      NameWritten(strs, name, off + 1);
      assert name[off..] == [name[off]] + name[off + 1..];
    } else {
      assert s[|strs| + off] == '\0';
    }
  }

  /** qsort with ksym_cmp, as an insertion sort on the elements. */
  function InsertSym(strs: seq<char>, s: seq<Sym>, x: Sym): seq<Sym> {
    if s == [] || Leq(EntryOf(strs, x), EntryOf(strs, s[0])) then [x] + s
    else [s[0]] + InsertSym(strs, s[1..], x)
  }

  function SortSyms(strs: seq<char>, s: seq<Sym>): seq<Sym> {
    if s == [] then [] else InsertSym(strs, SortSyms(strs, s[1..]), s[0])
  }

  lemma EntriesCons(strs: seq<char>, x: Sym, s: seq<Sym>)
    ensures Entries(strs, [x] + s) == [EntryOf(strs, x)] + Entries(strs, s)
  {
  }

  lemma ConsOrdered(e: Entry, s: seq<Entry>)
    requires Ordered(s) && forall x | x in s :: Leq(e, x)
    ensures Ordered([e] + s)
  {
    forall j | 0 <= j < |s| ensures Leq(e, s[j]) { assert s[j] in s; }
  }

  lemma HeadLeast(s: seq<Entry>)
    requires s != [] && Ordered(s)
    ensures Ordered(s[1..]) && forall x | x in s[1..] :: Leq(s[0], x)
  {
    forall x | x in s[1..] ensures Leq(s[0], x) {
      var k :| 0 <= k < |s| - 1 && s[1..][k] == x;
      assert s[k + 1] == x;
    }
  }

  lemma BeforeAll(e: Entry, s: seq<Entry>)
    requires s != [] && Ordered(s) && Leq(e, s[0])
    ensures forall x | x in s :: Leq(e, x)
  {
    forall x | x in s ensures Leq(e, x) {
      var k :| 0 <= k < |s| && s[k] == x;
      if k > 0 { LeqTransitive(e, s[0], x); }
    }
  }

  lemma {:induction false} InsertSymOk(strs: seq<char>, s: seq<Sym>, x: Sym)
    requires Ordered(Entries(strs, s))
    ensures Ordered(Entries(strs, InsertSym(strs, s, x)))
    ensures multiset(Entries(strs, InsertSym(strs, s, x))) == multiset(Entries(strs, s)) + multiset{EntryOf(strs, x)}
    decreases |s|
  {
    var e, all := EntryOf(strs, x), Entries(strs, s);
    if s == [] || Leq(e, EntryOf(strs, s[0])) {
      EntriesCons(strs, x, s);
      if s != [] { BeforeAll(e, all); }
      ConsOrdered(e, all);
    } else {
      var rest := InsertSym(strs, s[1..], x);
      assert s == [s[0]] + s[1..];
      EntriesCons(strs, s[0], s[1..]);
      EntriesCons(strs, s[0], rest);
      HeadLeast(all);
      assert all[1..] == Entries(strs, s[1..]);
      InsertSymOk(strs, s[1..], x);
      LeqTotal(e, all[0]);
      Inserted(all[0], all[1..], e, Entries(strs, rest));
      ConsOrdered(all[0], Entries(strs, rest));
    }
  }

  lemma Inserted(h: Entry, s: seq<Entry>, e: Entry, after: seq<Entry>)
    requires Leq(h, e) && (forall x | x in s :: Leq(h, x)) && multiset(after) == multiset(s) + multiset{e}
    ensures forall x | x in after :: Leq(h, x)
  {
    forall x | x in after ensures Leq(h, x) {
      assert x in multiset(after);
      assert x == e || x in multiset(s);
    }
  }

  lemma SplitFirst<T>(s: seq<T>)
    requires s != []
    ensures s == [s[0]] + s[1..] && multiset(s) == multiset(s[1..]) + multiset{s[0]}
  {
    assert s == [s[0]] + s[1..];
  }

  lemma {:induction false} SortSymsOk(strs: seq<char>, s: seq<Sym>)
    ensures Ordered(Entries(strs, SortSyms(strs, s)))
    ensures multiset(Entries(strs, SortSyms(strs, s))) == multiset(Entries(strs, s))
    ensures |SortSyms(strs, s)| == |s| && multiset(SortSyms(strs, s)) == multiset(s)
    decreases |s|
  {
    if s != [] {
      SortSymsOk(strs, s[1..]);
      InsertSymOk(strs, SortSyms(strs, s[1..]), s[0]);
      InsertSymSame(strs, SortSyms(strs, s[1..]), s[0]);
      EntriesCons(strs, s[0], s[1..]);
      SplitFirst(s);
      SplitFirst(Entries(strs, s));
      assert Entries(strs, s)[1..] == Entries(strs, s[1..]);
    }
  }

  lemma {:induction false} InsertSymSame(strs: seq<char>, s: seq<Sym>, x: Sym)
    ensures |InsertSym(strs, s, x)| == |s| + 1 && multiset(InsertSym(strs, s, x)) == multiset(s) + multiset{x}
    decreases |s|
  {
    if s != [] && !Leq(EntryOf(strs, x), EntryOf(strs, s[0])) {
      InsertSymSame(strs, s[1..], x);
      assert s == [s[0]] + s[1..];
    }
  }

  /** Every offset in use denotes a closed name. */
  ghost predicate AllClosed(strs: seq<char>, syms: seq<Sym>) {
    forall i | 0 <= i < |syms| :: Closed(strs, syms[i].off)
  }

  lemma ClosedPermuted(strs: seq<char>, s: seq<Sym>, t: seq<Sym>)
    requires AllClosed(strs, s) && multiset(t) == multiset(s)
    ensures AllClosed(strs, t)
  {
    forall i | 0 <= i < |t| ensures Closed(strs, t[i].off) {
      assert t[i] in multiset(t);
      assert t[i] in multiset(s);
      var k :| 0 <= k < |s| && s[k] == t[i];
    }
  }

  /** Appending a name leaves every earlier one readable and adds the new one. */
  lemma AppendName(strs: seq<char>, syms: seq<Sym>, name: string, addr: nat)
    requires AllClosed(strs, syms) && '\0' !in name
    ensures var strs1, syms1 := strs + name + ['\0'], syms + [Sym(|strs|, addr)];
            AllClosed(strs1, syms1) && Entries(strs1, syms1) == Entries(strs, syms) + [Entry(name, addr)]
  {
    var strs1, syms1 := strs + name + ['\0'], syms + [Sym(|strs|, addr)];
    assert strs1 == strs + (name + ['\0']);
    forall i | 0 <= i < |syms|
      ensures Closed(strs1, syms[i].off) && NameAt(strs1, syms[i].off) == NameAt(strs, syms[i].off)
    {
      var k :| syms[i].off <= k < |strs| && strs[k] == '\0';
      assert strs1[k] == '\0';
      NameStable(strs, name + ['\0'], syms[i].off, k);
    }
    NameWritten(strs, name, 0);
    assert name[0..] == name && strs1[|strs| + |name|] == '\0';
    assert Closed(strs1, |strs|);
  }

  function GrownCap(cap: nat, needed: nat): nat {
    var c := cap * 4 / 3;
    var d := if c < needed then needed else c;
    if d < 1024 then 1024 else d
  }

  /** The table object. realloc may fail, and then gives up without changing what is there. */
  class SymbolTable {
    var syms: array<Sym>
    var symsSz: nat
    var strs: array<char>
    var strsSz: nat

    ghost predicate Valid()
      reads this, syms, strs
    {
      symsSz <= syms.Length && strsSz <= strs.Length && AllClosed(strs[..strsSz], syms[..symsSz])
    }

    /** The symbols in table order, names resolved. */
    ghost function Table(): seq<Entry>
      reads this, syms, strs
      requires symsSz <= syms.Length && strsSz <= strs.Length
    {
      Entries(strs[..strsSz], syms[..symsSz])
    }

    constructor ()
      ensures Valid() && Table() == [] && fresh(syms) && fresh(strs)
    {
      syms, symsSz := new Sym[0], 0;
      strs, strsSz := new char[0], 0;
    }

    method GrowStrs(needed: nat) returns (ok: bool)
      requires Valid()
      modifies this`strs
      ensures Valid() && (strs == old(strs) || fresh(strs))
      ensures strs[..strsSz] == old(strs[..strsSz]) && (ok ==> needed <= strs.Length)
    {
      if needed <= strs.Length { return true; }
      ok :| true;
      if !ok { return; }
      var grown := new char[GrownCap(strs.Length, needed)](_ => '\0');
      ghost var index, names := syms[..symsSz], strs[..strsSz];
      assert AllClosed(names, index);
      forall i | 0 <= i < strsSz { grown[i] := strs[i]; }
      assert grown[..strsSz] == names;
      strs := grown;
      assert syms[..symsSz] == index && strs[..strsSz] == names;
    }

    method GrowSyms() returns (ok: bool)
      requires Valid()
      modifies this`syms
      ensures Valid() && (syms == old(syms) || fresh(syms))
      ensures syms[..symsSz] == old(syms[..symsSz]) && (ok ==> symsSz < syms.Length)
    {
      if symsSz + 1 <= syms.Length { return true; }
      ok :| true;
      if !ok { return; }
      var cap := syms.Length * 4 / 3;
      if cap < 1024 { cap := 1024; }
      var grown := new Sym[cap](_ => Sym(0, 0));
      ghost var index, names := syms[..symsSz], strs[..strsSz];
      assert AllClosed(names, index);
      forall i | 0 <= i < symsSz { grown[i] := syms[i]; }
      assert grown[..symsSz] == index;
      syms := grown;
      assert syms[..symsSz] == index && strs[..strsSz] == names;
    }

    method CopyName(name: string)
      requires strsSz + |name| + 1 <= strs.Length
      modifies strs
      ensures strs[..strsSz + |name| + 1] == old(strs[..strsSz]) + name + ['\0']
    {
      forall i | 0 <= i < |name| { strs[strsSz + i] := name[i]; }
      strs[strsSz + |name|] := '\0';
    }

    /** Stores a symbol for which there is room. */
    method PutSymbol(name: string, addr: nat)
      requires Valid() && '\0' !in name && strsSz + |name| + 1 <= strs.Length && symsSz < syms.Length
      modifies this`symsSz, this`strsSz, syms, strs
      ensures Valid() && Table() == old(Table()) + [Entry(name, addr)]
    {
      ghost var used, index := strs[..strsSz], syms[..symsSz];
      AppendName(used, index, name, addr);
      syms[symsSz] := Sym(strsSz, addr);
      CopyName(name);
      strsSz := strsSz + |name| + 1;
      symsSz := symsSz + 1;
      assert syms[..symsSz] == index + [Sym(|used|, addr)];
    }

    /** Every stored offset still denotes its name, through all growths of the arenas. */
    method AddSymbol(name: string, addr: nat) returns (ok: bool)
      requires Valid() && '\0' !in name
      modifies this, syms, strs
      ensures Valid() && (strs == old(strs) || fresh(strs)) && (syms == old(syms) || fresh(syms))
      ensures Table() == if ok then old(Table()) + [Entry(name, addr)] else old(Table())
    {
      ok := GrowStrs(strsSz + |name| + 1);
      if ok { ok := GrowSyms(); }
      if ok { PutSymbol(name, addr); }
    }

    method Sort()
      requires Valid()
      modifies syms
      ensures Valid() && Ordered(Table()) && multiset(Table()) == multiset(old(Table()))
    {
      ghost var before, names := syms[..symsSz], strs[..strsSz];
      var sorted := SortSyms(strs[..strsSz], syms[..symsSz]);
      SortSymsOk(names, before);
      ClosedPermuted(names, before, sorted);
      forall i | 0 <= i < symsSz { syms[i] := sorted[i]; }
      assert syms[..symsSz] == sorted && strs[..strsSz] == names;
    }

    /** Loading: every line is added, then the table is sorted. */
    method Load(lines: seq<Entry>) returns (ok: bool)
      requires Valid() && Table() == [] && forall e | e in lines :: '\0' !in e.name
      modifies this, syms, strs
      ensures Valid() && (ok ==> Ordered(Table()) && multiset(Table()) == multiset(lines))
    {
      for i := 0 to |lines|
        invariant Valid() && (strs == old(strs) || fresh(strs)) && (syms == old(syms) || fresh(syms))
        invariant Table() == lines[..i]
      {
        assert lines[i] in lines;
        ok := AddSymbol(lines[i].name, lines[i].addr);
        if !ok { return; }
        assert lines[..i + 1] == lines[..i] + [lines[i]];
      }
      assert lines[..|lines|] == lines;
      Sort();
      return true;
    }

    /** The binary search finds what a scan of the symbols finds, in whatever order they came. */
    method MapAddr(addr: nat) returns (r: Option<nat>)
      requires Valid() && Ordered(Table())
      ensures r.Some? ==> r.value < symsSz
      ensures forall list | multiset(list) == multiset(Table()) ::
                Scan(list, addr) == if r.Some? then Some(Table()[r.value]) else None
    {
      var start, end := 0, symsSz as int - 1;
      while start < end
        invariant 0 <= start && start <= end + 1 && end < symsSz && (symsSz > 0 ==> start <= end)
        invariant start > 0 ==> syms[start].addr <= addr
        invariant forall j | end < j < symsSz :: Table()[j].addr > addr
      {
        var mid := start + (end - start + 1) / 2;
        if syms[mid].addr <= addr {
          start := mid;
        } else {
          forall j | mid <= j < symsSz ensures Table()[j].addr > addr {
            assert Table()[mid].addr == syms[mid].addr;
            assert j > mid ==> Leq(Table()[mid], Table()[j]);
          }
          end := mid - 1;
        }
      }
      r := if start == end && syms[start].addr <= addr then Some(start) else None;
      ghost var i := if r.Some? then start else -1;
      forall list | multiset(list) == multiset(Table())
        ensures Scan(list, addr) == if r.Some? then Some(Table()[r.value]) else None
      {
        assert i >= 0 ==> Table()[i].addr == syms[i].addr;
        BestIsScan(list, Table(), addr, i);
      }
    }
  }
}

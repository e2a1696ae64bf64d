/** The system call filter: a compiler from an allow list to a classic BPF program. */
module Seccomp {
  import opened Wrappers

  const WORD := 0x1_0000_0000
  const AUDIT_ARCH_X86_64 := 0xc000003e

  datatype Action = Kill | Allow

  /** The three kinds of instruction used; jump offsets count from the next instruction. */
  datatype Insn = Load(offset: nat) | JumpEq(k: nat, jt: nat, jf: nat) | Ret(action: Action)

  /** The words of seccomp_data that are loaded: the call number and the architecture. */
  datatype Data = Data(nr: nat, arch: nat)

  function Word(d: Data, offset: nat): Option<nat> {
    if offset == 0 then Some(d.nr) else if offset == 4 then Some(d.arch) else None
  }

  /** Running from `pc`; None stands for leaving the program or a bad load. */
  function Run(prog: seq<Insn>, pc: nat, acc: nat, d: Data): Option<Action>
    decreases |prog| - pc
  {
    if pc >= |prog| then None
    else match prog[pc]
      case Ret(action) => Some(action)
      case JumpEq(k, jt, jf) => Run(prog, pc + 1 + if acc == k then jt else jf, acc, d)
      case Load(offset) =>
        match Word(d, offset)
        case Some(w) => Run(prog, pc + 1, w, d)
        case None => None
  }

  /** What the kernel asks of a program: jumps stay inside it and it ends in a return. */
  predicate WellFormed(prog: seq<Insn>) {
    && prog != [] && prog[|prog| - 1].Ret?
    && forall i | 0 <= i < |prog| && prog[i].JumpEq? :: i + 1 + prog[i].jt < |prog| && i + 1 + prog[i].jf < |prog|
  }

  /** is_not_allow. */
  method IsNotAllow(syscallVec: seq<nat>, id: nat) returns (r: bool)
    ensures r <==> id !in syscallVec
  {
    r := true;
    for i := 0 to |syscallVec|
      invariant r && id !in syscallVec[..i]
    {
      assert syscallVec[..i + 1] == syscallVec[..i] + [syscallVec[i]];
      if id == syscallVec[i] { return false; }
    }
    assert syscallVec[..|syscallVec|] == syscallVec;
  }

  const PROLOGUE: seq<Insn> := [Load(4), JumpEq(AUDIT_ARCH_X86_64, 0, 2), Load(0), Ret(Allow)]

  function Rule(allowed: seq<nat>, i: nat): seq<Insn> {
    if i % WORD in allowed then [] else [JumpEq(i % WORD, 0, 1), Ret(Kill)]
  }

  function Rules(allowed: seq<nat>, i: nat, n: nat): seq<Insn>
    requires i <= n
    decreases n - i
  {
    if i == n then [] else Rule(allowed, i) + Rules(allowed, i + 1, n)
  }

  /** The appended section: the rules and the final return. */
  function Section(allowed: seq<nat>, i: nat, n: nat): seq<Insn>
    requires i <= n
  {
    Rules(allowed, i, n) + [Ret(Allow)]
  }

  lemma {:induction false} RulesSnoc(allowed: seq<nat>, i: nat, n: nat)
    requires i <= n
    ensures Rules(allowed, i, n + 1) == Rules(allowed, i, n) + Rule(allowed, n)
    decreases n - i
  {
    if i < n {
      RulesSnoc(allowed, i + 1, n);
    } else {
      assert Rules(allowed, n, n + 1) == Rule(allowed, n) + [];
    }
  }

  /** The instruction list that install_syscall_filter builds for a table of `size` names. */
  method BuildFilter(syscallVec: seq<nat>, size: nat) returns (filter: seq<Insn>)
    ensures filter == PROLOGUE + Section(syscallVec, 0, size)
  {
    filter := PROLOGUE;
    for i := 0 to size
      invariant filter == PROLOGUE + Rules(syscallVec, 0, i)
    {
      RulesSnoc(syscallVec, 0, i);
      var banned := IsNotAllow(syscallVec, i % WORD);
      if banned {
        filter := filter + [JumpEq(i % WORD, 0, 1)];
        filter := filter + [Ret(Kill)];
      }
    }
    filter := filter + [Ret(Allow)];
  }

  /** A program runs the same wherever it stands. */
  lemma {:induction false} RunShift(a: seq<Insn>, b: seq<Insn>, pc: nat, acc: nat, d: Data)
    ensures Run(a + b, |a| + pc, acc, d) == Run(b, pc, acc, d)
    decreases |b| - pc
  {
    if pc < |b| {
      assert (a + b)[|a| + pc] == b[pc];
      match b[pc]
      case Ret(_) =>
      case JumpEq(k, jt, jf) => RunShift(a, b, pc + 1 + if acc == k then jt else jf, acc, d);
      case Load(offset) =>
        var w := Word(d, offset);
        if w.Some? { RunShift(a, b, pc + 1, w.value, d); }
    }
  }

  predicate Banned(allowed: seq<nat>, n: nat, nr: nat) { nr < n && nr !in allowed }

  /** From rule `i` on, a number is killed exactly when a later table index has it and it is not allowed. */
  lemma {:induction false} SectionFrom(allowed: seq<nat>, i: nat, n: nat, nr: nat, d: Data)
    requires i <= n && nr < WORD
    ensures Run(Section(allowed, i, n), 0, nr, d)
            == Some(if nr !in allowed && exists j :: i <= j < n && j % WORD == nr then Kill else Allow)
    decreases n - i
  {
    if i < n {
      var rule, rest := Rule(allowed, i), Section(allowed, i + 1, n);
      assert Section(allowed, i, n) == rule + rest;
      SectionFrom(allowed, i + 1, n, nr, d);
      RunShift(rule, rest, 0, nr, d);
      if rule != [] {
        assert (rule + rest)[0] == JumpEq(i % WORD, 0, 1) && (rule + rest)[1] == Ret(Kill);
      } else {
        assert rule + rest == rest;
      }
      assert (exists j :: i <= j < n && j % WORD == nr) <==>
             i % WORD == nr || exists j :: i + 1 <= j < n && j % WORD == nr;
    }
  }

  /** The appended section, entered with a call number, kills exactly the table's numbers that
      are not on the list. */
  lemma SectionVerdict(allowed: seq<nat>, n: nat, nr: nat, d: Data)
    requires nr < WORD
    ensures Run(Section(allowed, 0, n), 0, nr, d) == Some(if Banned(allowed, n, nr) then Kill else Allow)
  {
    SectionFrom(allowed, 0, n, nr, d);
    if nr < n {
      assert nr % WORD == nr;
    } else {
      forall j | 0 <= j < n ensures j % WORD != nr { assert j < nr < WORD; }
    }
  }

  /** Jumps stay inside and the end is a return, for the section and the whole filter. */
  lemma {:induction false} RulesWellFormed(allowed: seq<nat>, i: nat, n: nat)
    requires i <= n
    ensures WellFormed(Section(allowed, i, n)) && |Section(allowed, i, n)| <= 1 + 2 * (n - i)
    decreases n - i
  {
    if i < n {
      var rule, rest := Rule(allowed, i), Section(allowed, i + 1, n);
      assert Section(allowed, i, n) == rule + rest;
      RulesWellFormed(allowed, i + 1, n);
      Prepend(rule, rest);
    }
  }

  lemma Prepend(a: seq<Insn>, b: seq<Insn>)
    requires WellFormed(b)
    requires forall i | 0 <= i < |a| && a[i].JumpEq? :: i + 1 + a[i].jt <= |a| && i + 1 + a[i].jf <= |a|
    ensures WellFormed(a + b)
  {
    var w := a + b;
    forall i | 0 <= i < |w| && w[i].JumpEq? ensures i + 1 + w[i].jt < |w| && i + 1 + w[i].jf < |w| {
      if i >= |a| { assert w[i] == b[i - |a|]; }
    }
  }

  /** The whole filter is accepted, its length fits `unsigned short` for tables up to 32765 names,
      and on the matching architecture the prologue returns before any rule is reached; on another
      architecture the rules are applied to the architecture word. */
  lemma FilterVerdict(allowed: seq<nat>, n: nat, d: Data)
    requires d.nr < WORD && d.arch < WORD
    ensures var filter := PROLOGUE + Section(allowed, 0, n);
            && WellFormed(filter)
            && (n <= 32765 ==> |filter| < 0x10000)
            && Run(filter, 0, 0, d)
               == Some(if d.arch != AUDIT_ARCH_X86_64 && Banned(allowed, n, d.arch) then Kill else Allow)
  {
    var section := Section(allowed, 0, n);
    var filter := PROLOGUE + section;
    RulesWellFormed(allowed, 0, n);
    Prepend(PROLOGUE, section);
    RunShift(PROLOGUE, section, 0, d.arch, d);
    SectionVerdict(allowed, n, d.arch, d);
    assert filter[0] == Load(4) && filter[1] == JumpEq(AUDIT_ARCH_X86_64, 0, 2);
    assert filter[2] == Load(0) && filter[3] == Ret(Allow);
    assert Run(filter, 0, 0, d) == Run(filter, 1, d.arch, d);
    if d.arch == AUDIT_ARCH_X86_64 {
      assert Run(filter, 2, d.arch, d) == Run(filter, 3, d.nr, d);
    } else {
      assert Run(filter, 1, d.arch, d) == Run(filter, 4, d.arch, d);
    }
  }

  /** For a call on the matching architecture the filter as written gives the list's verdict
      exactly when that verdict is to allow. */
  lemma PrologueDecides(allowed: seq<nat>, n: nat, d: Data)
    requires d.nr < WORD && d.arch == AUDIT_ARCH_X86_64
    ensures Run(PROLOGUE + Section(allowed, 0, n), 0, 0, d) == Run(Section(allowed, 0, n), 0, d.nr, d)
            <==> !Banned(allowed, n, d.nr)
  {
    FilterVerdict(allowed, n, d);
    SectionVerdict(allowed, n, d.nr, d);
  }
}

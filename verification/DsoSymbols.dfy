/** Process symbols in two levels: map lines grouped by file, and each file's own sorted symbols. */
module DsoSymbols {
  import opened Wrappers

  const U64: int := 0x1_0000_0000_0000_0000

  /** An executable, file-backed line of a maps file. */
  datatype MapLine = MapLine(start: nat, end: nat, fileOff: nat, name: string)

  datatype ElfType = EXEC | DYN | VDSO | UNKNOWN

  /** What reading a file's ELF header and .text section yields; None when .text is not found. */
  datatype Elf = Executable | Shared(text: Option<(nat, nat)>) | Other

  datatype Range = Range(start: nat, end: nat, fileOff: nat)

  datatype Dso = Dso(name: string, ranges: seq<Range>, kind: ElfType, shAddr: nat, shOffset: nat)

  /** A symbol of a file; `start` is an address in the file's own terms. */
  datatype FileSym = FileSym(name: string, start: nat)

  function KindOf(elf: string -> Elf, name: string): ElfType {
    if name == "[vdso]" then VDSO
    else match elf(name) case Executable => EXEC case Shared(_) => DYN case Other => UNKNOWN
  }

  function TextOf(elf: string -> Elf, name: string): (nat, nat) {
    if name != "[vdso]" && elf(name).Shared? && elf(name).text.Some? then elf(name).text.value else (0, 0)
  }

  predicate Readable(elf: string -> Elf, name: string) {
    name != "[vdso]" && elf(name).Shared? ==> elf(name).text.Some?
  }

  predicate Covers(start: nat, end: nat, addr: nat) { start < addr < end }

  /** The file-relative address that `addr` stands for in a mapping of a file. */
  function Translate(kind: ElfType, text: (nat, nat), start: nat, fileOff: nat, addr: nat): int {
    if kind == DYN || kind == VDSO then (addr - start + fileOff + text.0 - text.1) % U64 else addr
  }

  /** `x` and `y` are equal in 64-bit arithmetic. */
  predicate Congruent(x: int, y: int) { (x - y) % U64 == 0 }

  /** `offset` is where a file's own symbols have what is mapped at `addr`. A line maps the byte at
      file offset `o` to `start + (o - fileOff)`. In a shared file that byte has the address of .text
      plus its distance from the beginning of .text; in the vdso it has its file offset; in any other
      file it has the address it is mapped to. */
  ghost predicate Locates(elf: string -> Elf, l: MapLine, addr: nat, offset: int) {
    var o := l.fileOff + (addr - l.start);
    if l.name == "[vdso]" then 0 <= offset < U64 && Congruent(offset, o)
    else
      match elf(l.name)
      case Shared(Some(text)) => 0 <= offset < U64 && Congruent(offset, text.0 + (o - text.1))
      case _ => offset == addr
  }

  lemma TranslateLocates(elf: string -> Elf, l: MapLine, addr: nat)
    requires Readable(elf, l.name)
    ensures Locates(elf, l, addr, Translate(KindOf(elf, l.name), TextOf(elf, l.name), l.start, l.fileOff, addr))
  {
    var text := TextOf(elf, l.name);
    Wraps(addr - l.start + l.fileOff + text.0 - text.1);
  }

  lemma Wraps(x: int)
    ensures Congruent(x % U64, x)
  {
    assert x == U64 * (x / U64) + x % U64;
    Multiple(-(x / U64));
  }

  lemma Multiple(k: int)
    ensures k * U64 % U64 == 0
  {
  }

  /** There is one such place only. */
  lemma LocatesOnce(elf: string -> Elf, l: MapLine, addr: nat, x: int, y: int)
    requires Locates(elf, l, addr, x) && Locates(elf, l, addr, y)
    ensures x == y
  {
  }

  /** The lines of one file, in order. */
  function Named(lines: seq<MapLine>, name: string): seq<Range> {
    if lines == [] then []
    else
      var l := lines[|lines| - 1];
      Named(lines[..|lines| - 1], name) + if l.name == name then [Range(l.start, l.end, l.fileOff)] else []
  }

  /** `d` is what the lines and the file say of its name. */
  ghost predicate Describes(elf: string -> Elf, lines: seq<MapLine>, d: Dso) {
    && d.ranges == Named(lines, d.name) && d.kind == KindOf(elf, d.name)
    && (d.shAddr, d.shOffset) == TextOf(elf, d.name)
  }

  ghost predicate Lists(dsos: seq<Dso>, name: string) {
    exists i | 0 <= i < |dsos| :: dsos[i].name == name
  }

  /** The table holds exactly the lines, grouped by file name. */
  ghost predicate Groups(elf: string -> Elf, lines: seq<MapLine>, dsos: seq<Dso>) {
    && (forall i, j | 0 <= i < j < |dsos| :: dsos[i].name != dsos[j].name)
    && (forall l | l in lines :: Lists(dsos, l.name) && Readable(elf, l.name))
    && (forall i | 0 <= i < |dsos| :: Describes(elf, lines, dsos[i]))
  }

  lemma {:induction false} NamedHas(lines: seq<MapLine>, name: string, r: Range)
    ensures r in Named(lines, name) <==> MapLine(r.start, r.end, r.fileOff, name) in lines
  {
    if lines != [] {
      NamedHas(lines[..|lines| - 1], name, r);
      assert lines == lines[..|lines| - 1] + [lines[|lines| - 1]];
    }
  }

  /** No two lines overlap, as in a process's address space. */
  ghost predicate Disjoint(lines: seq<MapLine>) {
    forall i, j | 0 <= i < j < |lines| :: lines[i].end <= lines[j].start || lines[j].end <= lines[i].start
  }

  /** Lookup in the flat list: the first line that covers the address. */
  function Flat(lines: seq<MapLine>, addr: nat): Option<MapLine> {
    if lines == [] then None
    else if Covers(lines[0].start, lines[0].end, addr) then Some(lines[0])
    else Flat(lines[1..], addr)
  }

  lemma {:induction false} FlatFinds(lines: seq<MapLine>, addr: nat)
    ensures Flat(lines, addr).Some? ==>
              var l := Flat(lines, addr).value; l in lines && Covers(l.start, l.end, addr)
    ensures Flat(lines, addr) == None ==> forall l | l in lines :: !Covers(l.start, l.end, addr)
  {
    if lines != [] {
      FlatFinds(lines[1..], addr);
      assert lines == [lines[0]] + lines[1..];
    }
  }

  lemma CoveringIsUnique(lines: seq<MapLine>, addr: nat, l: MapLine)
    requires Disjoint(lines) && l in lines && Covers(l.start, l.end, addr)
    ensures Flat(lines, addr) == Some(l)
  {
    FlatFinds(lines, addr);
    var m := Flat(lines, addr).value;
    var i :| 0 <= i < |lines| && lines[i] == l;
    var j :| 0 <= j < |lines| && lines[j] == m;
    assert i < j || j < i || i == j;
  }

  /** The process table. */
  class Syms {
    const elf: string -> Elf
    var dsos: seq<Dso>
    ghost var lines: seq<MapLine>

    ghost predicate Valid()
      reads this
    {
      Groups(elf, lines, dsos)
    }

    constructor (elf: string -> Elf)
      ensures Valid() && lines == [] && dsos == [] && this.elf == elf
    {
      this.elf, dsos, lines := elf, [], [];
    }

    /** Adds a line to the entry of its file, making one if there is none. */
    method AddDso(line: MapLine) returns (ok: bool)
      requires Valid()
      modifies this
      ensures ok == Readable(elf, line.name)
      ensures ok ==> Valid() && lines == old(lines) + [line]
    {
      var i := 0;
      while i < |dsos| && dsos[i].name != line.name
        invariant i <= |dsos| && forall j | 0 <= j < i :: dsos[j].name != line.name
      {
        i := i + 1;
      }
      if i == |dsos| {
        FreshName(elf, lines, dsos, line.name);
        dsos := dsos + [Dso(line.name, [], UNKNOWN, 0, 0)];
      }
      var d := dsos[i];
      d := d.(ranges := d.ranges + [Range(line.start, line.end, line.fileOff)]);
      if line.name == "[vdso]" {
        d := d.(kind := VDSO);
      } else {
        match elf(line.name) {
          case Executable => d := d.(kind := EXEC);
          case Shared(text) =>
            d := d.(kind := DYN);
            if text == None {
              dsos := dsos[i := d];
              return false;
            }
            d := d.(shAddr := text.value.0, shOffset := text.value.1);
          case Other => d := d.(kind := UNKNOWN);
        }
      }
      dsos := dsos[i := d];
      LineAdded(elf, old(lines), old(dsos), line, dsos, i);
      lines := lines + [line];
      return true;
    }

    static method OffsetIn(d: Dso, r: Range, addr: nat) returns (offset: int)
      ensures offset == Translate(d.kind, (d.shAddr, d.shOffset), r.start, r.fileOff, addr)
    {
      if d.kind == DYN || d.kind == VDSO {
        offset := (addr - r.start + r.fileOff) % U64;
        offset := (offset + (d.shAddr - d.shOffset)) % U64;
      } else {
        offset := addr;
      }
    }

    /** The nested search over files and their ranges. */
    method FindDso(addr: nat) returns (found: Option<(nat, int)>)
      requires Valid()
      ensures found.Some? ==> found.value.0 < |dsos|
      ensures found == None ==> Flat(lines, addr) == None
      ensures found.Some? && Disjoint(lines) ==>
                var l := Flat(lines, addr);
                && l.Some? && dsos[found.value.0].name == l.value.name
                && found.value.1 == Translate(KindOf(elf, l.value.name), TextOf(elf, l.value.name),
                                              l.value.start, l.value.fileOff, addr)
      ensures found.Some? <==> exists l :: l in lines && l.start < addr < l.end
      ensures found.Some? && Disjoint(lines) ==>
                forall l | l in lines && l.start < addr < l.end ::
                  dsos[found.value.0].name == l.name && Locates(elf, l, addr, found.value.1)
    {
      for i := 0 to |dsos|
        invariant forall k, j | 0 <= k < i && 0 <= j < |dsos[k].ranges| ::
                    !Covers(dsos[k].ranges[j].start, dsos[k].ranges[j].end, addr)
      {
        var d := dsos[i];
        for j := 0 to |d.ranges|
          invariant forall k | 0 <= k < j :: !Covers(d.ranges[k].start, d.ranges[k].end, addr)
        {
          var r := d.ranges[j];
          if addr <= r.start || addr >= r.end { continue; }
          var offset := OffsetIn(d, r, addr);
          var line := MapLine(r.start, r.end, r.fileOff, d.name);
          assert r in d.ranges;
          NamedHas(lines, d.name, r);
          if Disjoint(lines) { CoversOnce(elf, lines, line, addr); }
          return Some((i, offset));
        }
      }
      NoneCovers(elf, lines, dsos, addr);
      FlatFinds(lines, addr);
      return None;
    }
  }

  lemma CoversOnce(elf: string -> Elf, lines: seq<MapLine>, line: MapLine, addr: nat)
    requires Disjoint(lines) && line in lines && Covers(line.start, line.end, addr) && Readable(elf, line.name)
    ensures Flat(lines, addr) == Some(line)
    ensures Locates(elf, line, addr,
                    Translate(KindOf(elf, line.name), TextOf(elf, line.name), line.start, line.fileOff, addr))
    ensures forall l | l in lines && l.start < addr < l.end :: l == line
  {
    forall l | l in lines && l.start < addr < l.end ensures l == line { CoveringIsUnique(lines, addr, l); }
    CoveringIsUnique(lines, addr, line);
    TranslateLocates(elf, line, addr);
  }

  lemma FreshName(elf: string -> Elf, lines: seq<MapLine>, dsos: seq<Dso>, name: string)
    requires Groups(elf, lines, dsos) && forall j | 0 <= j < |dsos| :: dsos[j].name != name
    ensures Named(lines, name) == []
  {
    if Named(lines, name) != [] { NamedLine(lines, name); }
  }

  lemma NamedLine(lines: seq<MapLine>, name: string)
    requires Named(lines, name) != []
    ensures exists l :: l in lines && l.name == name
  {
    var r := Named(lines, name)[0];
    NamedHas(lines, name, r);
    assert MapLine(r.start, r.end, r.fileOff, name).name == name;
  }

  lemma NamedSnoc(lines: seq<MapLine>, line: MapLine, name: string)
    ensures Named(lines + [line], name)
         == Named(lines, name) + if line.name == name then [Range(line.start, line.end, line.fileOff)] else []
  {
    assert (lines + [line])[..|lines|] == lines;
  }

  lemma LineAdded(elf: string -> Elf, lines: seq<MapLine>, before: seq<Dso>, line: MapLine, after: seq<Dso>, i: nat)
    requires Groups(elf, lines, before) && Readable(elf, line.name)
    requires i < |after| && |before| <= |after| <= |before| + 1 && (|after| > |before| ==> i == |before|)
    requires forall j | 0 <= j < |before| && j != i :: after[j] == before[j] && before[j].name != line.name
    requires i < |before| ==> before[i].name == line.name
    requires after[i] == Dso(line.name, Named(lines, line.name) + [Range(line.start, line.end, line.fileOff)],
                             KindOf(elf, line.name), TextOf(elf, line.name).0, TextOf(elf, line.name).1)
    ensures Groups(elf, lines + [line], after)
  {
    NamedSnoc(lines, line, line.name);
    forall j | 0 <= j < |after| ensures Describes(elf, lines + [line], after[j]) {
      if j != i {
        NamedSnoc(lines, line, before[j].name);
        assert Describes(elf, lines, before[j]);
      }
    }
    forall l | l in lines + [line] ensures Lists(after, l.name) {
      if l == line {
        assert after[i].name == l.name;
      } else {
        assert Lists(before, l.name);
        var k :| 0 <= k < |before| && before[k].name == l.name;
        assert after[k].name == l.name;
      }
    }
  }

  /** A line's range is one of its file's. */
  lemma LineInTable(elf: string -> Elf, lines: seq<MapLine>, dsos: seq<Dso>, l: MapLine)
    requires Groups(elf, lines, dsos) && l in lines
    ensures exists k, j :: 0 <= k < |dsos| && 0 <= j < |dsos[k].ranges|
              && dsos[k].ranges[j] == Range(l.start, l.end, l.fileOff)
  {
    var r := Range(l.start, l.end, l.fileOff);
    assert Lists(dsos, l.name);
    var i :| 0 <= i < |dsos| && dsos[i].name == l.name;
    NamedHas(lines, l.name, r);
    assert Describes(elf, lines, dsos[i]);
    var j :| 0 <= j < |dsos[i].ranges| && dsos[i].ranges[j] == r;
  }

  lemma NoneCovers(elf: string -> Elf, lines: seq<MapLine>, dsos: seq<Dso>, addr: nat)
    requires Groups(elf, lines, dsos)
    requires forall k, j | 0 <= k < |dsos| && 0 <= j < |dsos[k].ranges| ::
               !Covers(dsos[k].ranges[j].start, dsos[k].ranges[j].end, addr)
    ensures Flat(lines, addr) == None
  {
    FlatFinds(lines, addr);
    forall l | l in lines ensures !Covers(l.start, l.end, addr) { LineInTable(elf, lines, dsos, l); }
  }

  /** The comparison with a line's start is strict: the first address of a mapping is not found. */
  lemma FirstAddressMissed(lines: seq<MapLine>, l: MapLine)
    requires Disjoint(lines) && l in lines && l.start < l.end
    ensures Flat(lines, l.start) == None
  {
    FlatFinds(lines, l.start);
    forall m | m in lines ensures !Covers(m.start, m.end, l.start) {
      var i :| 0 <= i < |lines| && lines[i] == l;
      var j :| 0 <= j < |lines| && lines[j] == m;
      assert i < j || j < i || i == j;
    }
  }

  ghost predicate SortedSyms(s: seq<FileSym>) { forall i, j | 0 <= i < j < |s| :: s[i].start <= s[j].start }

  /** The last symbol that starts at or below an offset. */
  function LastAtOrBelow(s: seq<FileSym>, offset: int): Option<FileSym> {
    if s == [] then None
    else if s[|s| - 1].start <= offset then Some(s[|s| - 1])
    else LastAtOrBelow(s[..|s| - 1], offset)
  }

  lemma {:induction false} LastIs(s: seq<FileSym>, offset: int, i: int)
    requires -1 <= i < |s| && (i >= 0 ==> s[i].start <= offset)
    requires forall j | i < j < |s| :: s[j].start > offset
    ensures LastAtOrBelow(s, offset) == if i >= 0 then Some(s[i]) else None
  {
    if s != [] && i < |s| - 1 { LastIs(s[..|s| - 1], offset, i); }
  }

  /** `r` is the last symbol of the table that starts at or below `offset`. */
  ghost predicate IsLast(s: seq<FileSym>, offset: int, r: Option<FileSym>) {
    match r
    case None => forall x | x in s :: x.start > offset
    case Some(x) => x.start <= offset && exists i :: 0 <= i < |s| && s[i] == x && AllAbove(s, i + 1, offset)
  }

  ghost predicate AllAbove(s: seq<FileSym>, i: nat, offset: int) { forall j | i <= j < |s| :: s[j].start > offset }

  lemma {:induction false} LastIsLast(s: seq<FileSym>, offset: int)
    ensures IsLast(s, offset, LastAtOrBelow(s, offset))
  {
    if s != [] {
      var k := |s| - 1;
      if s[k].start <= offset {
        assert AllAbove(s, k + 1, offset);
      } else {
        var front, r := s[..k], LastAtOrBelow(s[..k], offset);
        LastIsLast(front, offset);
        assert s == front + [s[k]];
        if r.Some? {
          var i :| 0 <= i < k && front[i] == r.value && AllAbove(front, i + 1, offset);
          assert forall j | i + 1 <= j < k :: s[j] == front[j];
          assert s[i] == r.value && AllAbove(s, i + 1, offset);
        }
      }
    }
  }

  /** dso__find_sym on a loaded table. */
  method FindSym(syms: seq<FileSym>, offset: int) returns (r: Option<FileSym>)
    requires SortedSyms(syms)
    ensures r == LastAtOrBelow(syms, offset) && IsLast(syms, offset, r)
  {
    LastIsLast(syms, offset);
    var start, end := 0, |syms| - 1;
    while start < end
      invariant 0 <= start <= end + 1 && end < |syms| && (syms != [] ==> start <= end)
      invariant start > 0 ==> syms[start].start <= offset
      invariant forall j | end < j < |syms| :: syms[j].start > offset
    {
      var mid := start + (end - start + 1) / 2;
      if syms[mid].start <= offset { start := mid; } else { end := mid - 1; }
    }
    r := if start == end && syms[start].start <= offset then Some(syms[start]) else None;
    LastIs(syms, offset, if r.Some? then start else -1);
  }

  /** The whole lookup: `tables` gives each file's loaded symbols, None where loading fails. */
  method MapAddr(syms: Syms, tables: string -> Option<seq<FileSym>>, addr: nat) returns (r: Option<FileSym>)
    requires syms.Valid() && Disjoint(syms.lines)
    requires forall name | tables(name).Some? :: SortedSyms(tables(name).value)
    ensures r == match Flat(syms.lines, addr)
              case None => None
              case Some(l) =>
                if tables(l.name) == None then None
                else LastAtOrBelow(tables(l.name).value,
                                   Translate(KindOf(syms.elf, l.name), TextOf(syms.elf, l.name), l.start, l.fileOff,
                                             addr))
    ensures forall l | l in syms.lines && l.start < addr < l.end && tables(l.name).Some? ::
              exists offset :: Locates(syms.elf, l, addr, offset) && IsLast(tables(l.name).value, offset, r)
    ensures r.Some? ==> exists l :: l in syms.lines && l.start < addr < l.end
  {
    var found := syms.FindDso(addr);
    if found == None { return None; }
    var table := tables(syms.dsos[found.value.0].name);
    if table == None { return None; }
    r := FindSym(table.value, found.value.1);
  }
}

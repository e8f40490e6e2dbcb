/** The tools of the build loop together: tools/mips_find_functions.py sizes additions,
    tools/derive_boundary_merges.py and tools/fix_truncated_delay_slots.py write the same size file with
    different rules, tools/gen_symbols_toml.py reads it. */
module RepairLoop {

  import Basics
  import opened BoundaryRepair
  import opened DelaySlotRepair
  import FunctionSize
  import opened MipsDecoder
  import opened SymbolTable

  // ---- Two writers of one file ------------------------------------------------------------

  /** The fixer appends, and the generator takes the last line: the minimum of a function goes down exactly
      when it is truncated and ends more than one instruction below its minimum. Such a function has no room
      for its minimum, so the table does not show it until the entry behind it is dropped. */
  lemma {:induction false} FixLowersMinimum(p: Project, rom: Rom, lines: seq<(int, int)>, table: seq<Fn>, i: nat)
    requires IsTable(p, LastWins(lines), table) && i < |table|
    ensures var f, minimum := table[i], MinimumFor(LastWins(lines), table[i].vram);
            && (MinimumFor(LastWins(lines + Fixes(rom, table)), f.vram) < minimum <==>
                 rom.Truncated(f.vram, f.size) && f.size + 4 < minimum)
            && (f.size + 4 < minimum ==> Room(table, p.hi, i) < minimum)
  {
    hide Rom.Truncated, LastWins, Fixes, Chosen;
    MinimumAfter(rom, lines, table, i);
    assert Row(p, LastWins(lines), table, i);
    RowRoom(p, LastWins(lines), table, i);
    ClampedBelow(Chosen(p, table[i].vram).value.size, MinimumFor(LastWins(lines), table[i].vram), Room(table, p.hi, i));
  }

  lemma {:induction false} ClampedBelow(size: int, minimum: int, room: int)
    requires room > 0
    ensures Emitted(size, minimum, room) + 4 < minimum ==> room < minimum
  {
  }

  /** The next merge pass undoes it: it keeps the largest line, and the file it writes gives every function
      at least the size that any line of the old file had for it. */
  lemma {:induction false} DeriveRestoresMinimum(entries: set<int>, data: seq<Basics.Byte>, merges: set<int>,
                                                 lines: seq<(int, int)>, pairs: set<Pair>, r': Repairs,
                                                 written: seq<(int, int)>, i: nat)
    requires Accumulated(entries, data, Repairs(merges, LargestWins(lines)), pairs, r')
    requires IsFile(r'.need, written) && i < |lines|
    ensures MinimumFor(LastWins(written), lines[i].0) >= lines[i].1
  {
    hide IsJalTarget, LargestWins, LastWins, IsFile;
    forall v | v in LargestWins(lines)
      ensures LargestWins(lines)[v] >= 0
    {
      LargestIsLargest(lines, v);
    }
    AccumulatedNonNegative(LargestWins(lines), pairs, r'.need);
    FileReadsBack(r'.need, written);
    var v := lines[i].0;
    LargestIsLargest(lines, v);
    LineThere(lines, v, i);
    assert v in r'.need && LargestWins(lines)[v] <= r'.need[v];
  }

  // ---- An example --------------------------------------------------------------------------------

  // A function that ends with a jal right before the next entry, although a merge pass asked for 0x14 bytes
  const ASKED: seq<(int, int)> := [(0x400, 0x14)]

  function Split(drops: set<int>): Project {
    Project(0x400, 0x420, [Fn("caller", 0x400, 8), Fn("fragment", 0x408, 8)], map[], drops)
  }

  function SplitRom(): Rom {
    Rom([0, 0, 0, 0, 0x0C, 0, 0, 0, 0, 0, 0, 0, 0, 0, 0, 0, 0, 0, 0, 0], 0x400, 0)
  }

  function SplitTable(): seq<Fn> { [Fn("caller", 0x400, 8), Fn("fragment", 0x408, 8)] }

  function MergedTable(size: int): seq<Fn> { [Fn("caller", 0x400, size)] }

  /** The fixer asks for 0xC bytes. Once the fragment is dropped the generator emits 0xC instead of 0x14, and
      the branch to 0x410 for which the merge pass asked is outside again. */
  lemma {:induction false} BranchIsLostAgain()
    ensures IsTable(Split({}), LastWins(ASKED), SplitTable())
    ensures Fixes(SplitRom(), SplitTable()) == [(0x400, 0xC)]
    ensures IsTable(Split({0x408}), LastWins(ASKED), MergedTable(0x14))
    ensures IsTable(Split({0x408}), LastWins(ASKED + Fixes(SplitRom(), SplitTable())), MergedTable(0xC))
    ensures End(MergedTable(0x14)[0]) >= 0x410 + 4 > End(MergedTable(0xC)[0])
  {
    FixOfSplit();
    assert ASKED + [(0x400, 0xC)] == [(0x400, 0x14), (0x400, 0xC)];
    SplitIsTable();
    LastOfTwo((0x400, 0x14), (0x400, 0xC));
    LastOfOne((0x400, 0x14));
    MergedIsTable(LastWins(ASKED), 0x14);
    MergedIsTable(LastWins(ASKED + [(0x400, 0xC)]), 0xC);
  }

  lemma {:induction false} LastOfOne(a: (int, int))
    ensures LastWins([a]) == map[a.0 := a.1]
  {
    assert [a][..0] == [];
  }

  lemma {:induction false} LastOfTwo(a: (int, int), b: (int, int))
    ensures LastWins([a, b]) == map[a.0 := a.1][b.0 := b.1]
  {
    assert [a, b][..1] == [a];
    LastOfOne(a);
  }

  lemma {:induction false} SplitTruncated()
    ensures SplitRom().Truncated(0x400, 8) && !SplitRom().Truncated(0x408, 8)
  {
    var bytes := SplitRom().bytes;
    assert bytes[4..8] == [0x0C, 0, 0, 0] && bytes[12..16] == [0, 0, 0, 0];
    assert Basics.WordOf(bytes[4..8]) == 0x0C00_0000 && Basics.WordOf(bytes[12..16]) == 0;
    assert IsDelaySlotInstr(0x0C00_0000) && !IsDelaySlotInstr(0);
    hide Basics.WordOf, IsDelaySlotInstr;
  }

  lemma {:induction false} FixOfSplit()
    ensures Fixes(SplitRom(), SplitTable()) == [(0x400, 0xC)]
  {
    var rom, table := SplitRom(), SplitTable();
    SplitTruncated();
    hide Rom.Truncated;
    assert table[1..] == [table[1]] && table[1..][1..] == [];
    assert Fixes(rom, table[1..][1..]) == [];
    assert Fixes(rom, table[1..]) == [] + Fixes(rom, table[1..][1..]);
  }

  lemma {:induction false} SplitIsTable()
    ensures IsTable(Split({}), LastWins(ASKED), SplitTable())
  {
    var p, table := Split({}), SplitTable();
    LastOfOne((0x400, 0x14));
    hide LastWins;
    forall v
      ensures First(table, v).Some? <==> Chosen(p, v).Some?
    {
      FirstOfTwo(table[0], table[1], v);
    }
    FirstOfTwo(table[0], table[1], 0x400);
    FirstOfTwo(table[0], table[1], 0x408);
    assert Row(p, LastWins(ASKED), table, 0) && Row(p, LastWins(ASKED), table, 1);
  }

  lemma {:induction false} MergedIsTable(sizes: map<int, int>, size: int)
    requires 0x400 in sizes && sizes[0x400] == size && (size == 0xC || size == 0x14)
    ensures IsTable(Split({0x408}), sizes, MergedTable(size))
  {
    var p, table := Split({0x408}), MergedTable(size);
    forall v
      ensures First(table, v).Some? <==> Chosen(p, v).Some?
    {
      FirstOfTwo(p.raw[0], p.raw[1], v);
      FirstOfOne(table[0], v);
    }
    FirstOfTwo(p.raw[0], p.raw[1], 0x400);
    assert Row(p, sizes, table, 0);
  }

  // A ROM in which the fragment is called: one jal to 0x408
  const CALLED: seq<Basics.Byte> := [0x0C, 0x00, 0x01, 0x02]

  /** When the fragment is called the merge pass keeps it. What the pass asks for does not help then: the
      fragment stays chosen and the branch outside. */
  lemma {:induction false} EntryLeftInRange()
    ensures Accumulated({0x400, 0x408}, CALLED, Repairs({}, map[]), {(0x400, 0x410)}, Repairs({}, map[0x400 := 0x14]))
    ensures IsFile(map[0x400 := 0x14], ASKED) && IsTable(Split({}), LastWins(ASKED), SplitTable())
    ensures Between((0x400, 0x410), 0x408) && Chosen(Split({}), 0x408).Some?
    ensures End(SplitTable()[0]) < 0x410 + 4
  {
    SplitIsTable();
    FirstOfTwo(SplitTable()[0], SplitTable()[1], 0x408);
    FragmentIsKept();
    LineThere(ASKED, 0x400, 0);
  }

  lemma {:induction false} FragmentIsKept()
    ensures Accumulated({0x400, 0x408}, CALLED, Repairs({}, map[]), {(0x400, 0x410)}, Repairs({}, map[0x400 := 0x14]))
  {
    FragmentIsCalled();
    AskedIsNeeded();
    hide IsJalTarget, NeedAccumulated;
  }

  lemma {:induction false} FragmentIsCalled()
    ensures IsJalTarget(CALLED, 0x408)
  {
    assert JalBytes(0x408) == [0x0C, 0, 1, 2];
    assert Occurs(CALLED, JalBytes(0x408), 0);
  }

  lemma {:induction false} AskedIsNeeded()
    ensures NeedAccumulated(map[], {(0x400, 0x410)}, map[0x400 := 0x14])
  {
  }

  // ---- Additions that were sized ------------------------------------------------------------------

  // The image holds the words that were walked.
  ghost predicate Holds(rom: Rom, c: FunctionSize.Code) {
    forall a :: 0 <= a - rom.vram + rom.offset && a - rom.vram + rom.offset + 4 <= |rom.bytes| ==>
      Basics.WordOf(rom.bytes[a - rom.vram + rom.offset..a - rom.vram + rom.offset + 4]) == c.word(a)
  }

  lemma {:induction false} TargetsAreAligned(c: FunctionSize.Code, pc: int, t: int)
    requires pc % 4 == 0 && Follows(c.KindAt(pc), t)
    ensures t % 4 == 0
  {
    hide IsLegal;
    var w := c.word(pc);
    RelativeIsAligned(w, pc);
    RegionIsAligned(w, pc);
    hide RelativeTarget, RegionTarget;
  }

  lemma {:induction false} RelativeIsAligned(w: Basics.Word, pc: int)
    requires pc % 4 == 0
    ensures RelativeTarget(w, pc) % 4 == 0
  {
  }

  lemma {:induction false} RegionIsAligned(w: Basics.Word, pc: int)
    ensures RegionTarget(w, pc) % 4 == 0
  {
  }

  lemma {:induction false} ReachedIsAligned(c: FunctionSize.Code, entry: int, limit: int, s: set<int>)
    requires FunctionSize.Reachable(c, entry, limit, s) && entry % 4 == 0
    ensures forall pc :: pc in s ==> pc % 4 == 0
  {
    hide Classify, Follows, FallsThrough, FunctionSize.In;
    var t := set pc | pc in s && pc % 4 == 0;
    forall pc, target | pc in t && Follows(c.KindAt(pc), target) && FunctionSize.In(entry, limit, target)
      ensures target in t
    {
      TargetsAreAligned(c, pc, target);
    }
    assert FunctionSize.Closed(c, entry, limit, t);
  }

  /** The size of an aligned function is a multiple of four, and its last word is not a transfer that the
      scan would find, unless the limit or data cuts it off or it sits in a delay slot itself. */
  lemma {:induction false} SizedEndsWell(c: FunctionSize.Code, entry: int, limit: int, size: int)
    requires FunctionSize.IsSize(c, entry, limit, size) && entry % 4 == 0 && limit % 4 == 0 && entry < limit
    ensures size % 4 == 0 && size >= 4
    ensures IsDelaySlotInstr(c.word(entry + size - 4)) ==>
            || entry + size == limit || c.KindAt(entry + size).Invalid?
            || Terminates(c.KindAt(entry + size - 8))
  {
    hide Classify, IsDelaySlotInstr, FunctionSize.Reachable;
    var s, end :| FunctionSize.Reachable(c, entry, limit, s) && FunctionSize.LeastCover(c, entry, s, end)
      && size == if end < limit then end - entry else limit - entry;
    ReachedIsAligned(c, entry, limit, s);
    FunctionSize.EndIsAttained(c, entry, limit, s, end);
    EndIsAligned(c, entry, limit, s, end);
    hide FunctionSize.LeastCover;
    if end < limit && IsDelaySlotInstr(c.word(end - 4)) {
      DecodersAgree(c.word(end - 4), end - 4);
      if end - 4 in s {
        FunctionSize.DelaySlotsInside(c, entry, limit, s, end, end - 4);
      }
    }
  }

  lemma {:induction false} EndIsAligned(c: FunctionSize.Code, entry: int, limit: int, s: set<int>, end: int)
    requires FunctionSize.Reachable(c, entry, limit, s) && FunctionSize.LeastCover(c, entry, s, end)
    requires entry % 4 == 0
    ensures end % 4 == 0 && entry + 4 <= end
  {
    hide Classify, FunctionSize.Reachable;
    ReachedIsAligned(c, entry, limit, s);
    FunctionSize.EndIsAttained(c, entry, limit, s, end);
  }

  lemma {:induction false} TruncatedWord(rom: Rom, c: FunctionSize.Code, start: int, size: int)
    requires Holds(rom, c)
    ensures rom.Truncated(start, size) ==> IsDelaySlotInstr(c.word(start + size - 4))
  {
    hide IsDelaySlotInstr, Basics.WordOf;
  }

  /** An addition that func_size sized keeps its size in the generated table when it has the room and no
      larger minimum, and the delay-slot scan does not list it, with the same exceptions. */
  lemma {:induction false} SizedAdditionStays(p: Project, rom: Rom, c: FunctionSize.Code, limit: int,
                                              sizes: map<int, int>, table: seq<Fn>, i: nat)
    requires IsTable(p, sizes, table) && i < |table| && Holds(rom, c)
    requires var v := table[i].vram;
             && v in p.adds && v < limit && limit % 4 == 0
             && FunctionSize.IsSize(c, v, limit, p.adds[v].size)
             && MinimumFor(sizes, v) <= p.adds[v].size <= Room(table, p.hi, i)
    ensures var f, size := table[i], p.adds[table[i].vram].size;
            && f.size == size
            && (f.vram in LastWins(Fixes(rom, table)) ==>
                 || f.vram + size == limit || c.KindAt(f.vram + size).Invalid?
                 || Terminates(c.KindAt(f.vram + size - 8)))
  {
    hide Classify, IsDelaySlotInstr, Fixes, LastWins, FunctionSize.IsSize, Holds, Rom.Truncated;
    RowFits(p, sizes, table, i);
    assert Row(p, sizes, table, i);
    SizedEndsWell(c, table[i].vram, limit, p.adds[table[i].vram].size);
    FixesLookup(rom, table, table[i].vram);
    TruncatedWord(rom, c, table[i].vram, p.adds[table[i].vram].size);
  }
}

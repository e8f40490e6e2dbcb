/** tools/fix_truncated_delay_slots.py and the loop it is run in: scan the generated table for functions
    that end on a branch or jump, append larger sizes, generate again. */
module DelaySlotRepair {
  import Basics
  import MipsDecoder
  import opened SymbolTable

  // The ROM image, and the address and file offset of its section
  datatype Rom = Rom(bytes: seq<Basics.Byte>, vram: int, offset: int)
  {
    /** The last word of size bytes at vram is in the image and needs a delay slot. */
    predicate Truncated(start: int, size: int) {
      var off := start + size - 4 - vram + offset;
      && size >= 4 && 0 <= off && off + 4 <= |bytes|
      && MipsDecoder.IsDelaySlotInstr(Basics.WordOf(bytes[off..off + 4]))
    }
  }

  /** The size lines the scan appends. */
  function Fixes(rom: Rom, table: seq<Fn>): seq<(int, int)> {
    if table == [] then []
    else (if rom.Truncated(table[0].vram, table[0].size) then [(table[0].vram, table[0].size + 4)] else [])
         + Fixes(rom, table[1..])
  }

  method Scan(rom: Rom, table: seq<Fn>) returns (fixes: seq<(int, int)>)
    ensures fixes == Fixes(rom, table)
  {
    hide Rom.Truncated;
    fixes := [];
    for i := 0 to |table|
      invariant fixes + Fixes(rom, table[i..]) == Fixes(rom, table)
    {
      if rom.Truncated(table[i].vram, table[i].size) {
        fixes := fixes + [(table[i].vram, table[i].size + 4)];
      }
      assert table[i..][1..] == table[i + 1..];
    }
  }

  // ---- One round ---------------------------------------------------------------------

  lemma {:induction false} LastWinsOfConcat(a: seq<(int, int)>, b: seq<(int, int)>)
    ensures LastWins(a + b) == LastWins(a) + LastWins(b)
  {
    if b == [] {
      assert a + b == a;
    } else {
      assert (a + b)[..|a + b| - 1] == a + b[..|b| - 1];
      LastWinsOfConcat(a, b[..|b| - 1]);
    }
  }

  lemma {:induction false} FixesLookup(rom: Rom, table: seq<Fn>, v: int)
    requires Increasing(table)
    ensures v in LastWins(Fixes(rom, table)) <==>
            exists i :: 0 <= i < |table| && table[i].vram == v && rom.Truncated(v, table[i].size)
    ensures forall i :: 0 <= i < |table| && table[i].vram == v && rom.Truncated(v, table[i].size) ==>
            v in LastWins(Fixes(rom, table)) && LastWins(Fixes(rom, table))[v] == table[i].size + 4
  {
    hide Rom.Truncated;
    if table != [] {
      var head := if rom.Truncated(table[0].vram, table[0].size) then [(table[0].vram, table[0].size + 4)] else [];
      FixesLookup(rom, table[1..], v);
      LastWinsOfConcat(head, Fixes(rom, table[1..]));
      assert LastWins(head) == if head == [] then map[] else map[table[0].vram := table[0].size + 4];
      assert forall i :: 1 <= i < |table| ==> table[i] == table[1..][i - 1];
    }
  }

  /** The size after one round, from the size before it. */
  function Grown(rom: Rom, start: int, size: int, room: int): int {
    if rom.Truncated(start, size) && size + 4 <= room then size + 4 else size
  }

  lemma {:induction false} EmittedGrows(size: int, minimum: int, room: int)
    requires room > 0
    ensures var e := Emitted(size, minimum, room);
            Emitted(size, e + 4, room) == if e + 4 <= room then e + 4 else e
  {
  }

  lemma {:induction false} MinimumAfter(rom: Rom, lines: seq<(int, int)>, table: seq<Fn>, i: nat)
    requires Increasing(table) && i < |table|
    ensures MinimumFor(LastWins(lines + Fixes(rom, table)), table[i].vram) ==
            if rom.Truncated(table[i].vram, table[i].size) then table[i].size + 4
            else MinimumFor(LastWins(lines), table[i].vram)
  {
    hide Rom.Truncated, LastWins, Fixes;
    LastWinsOfConcat(lines, Fixes(rom, table));
    FixesLookup(rom, table, table[i].vram);
  }

  /** A round keeps every function and its address, grows exactly the truncated functions that have
      room, by one instruction, and shrinks none. */
  lemma {:induction false} RoundGrows(p: Project, rom: Rom, lines: seq<(int, int)>, table: seq<Fn>, table': seq<Fn>,
                                      i: nat)
    requires IsTable(p, LastWins(lines), table)
    requires IsTable(p, LastWins(lines + Fixes(rom, table)), table')
    ensures |table'| == |table|
    ensures i < |table| ==>
      Room(table', p.hi, i) == Room(table, p.hi, i) &&
      table'[i] == table[i].(size := Grown(rom, table[i].vram, table[i].size, Room(table, p.hi, i)))
  {
    hide Chosen, Rom.Truncated, Emitted, LastWins, Fixes, MinimumFor;
    SameAddresses(table, table');
    if i < |table| {
      RowFits(p, LastWins(lines), table, i);
      assert Row(p, LastWins(lines), table, i);
      assert Row(p, LastWins(lines + Fixes(rom, table)), table', i);
      MinimumAfter(rom, lines, table, i);
      var c := Chosen(p, table[i].vram).value;
      EmittedGrows(c.size, MinimumFor(LastWins(lines), table[i].vram), Room(table, p.hi, i));
      RowRoom(p, LastWins(lines), table, i);
    }
  }

  // How far a row may extend
  function Room(table: seq<Fn>, hi: int, i: nat): int
    requires i < |table|
  {
    Limit(table, hi, i) - table[i].vram
  }

  lemma {:induction false} RowRoom(p: Project, sizes: map<int, int>, table: seq<Fn>, i: nat)
    requires IsTable(p, sizes, table) && i < |table|
    ensures Room(table, p.hi, i) > 0 && table[i].size <= Room(table, p.hi, i) + 3
    ensures i + 1 < |table| ==> Room(table, p.hi, i) % 4 == 0 && table[i].size <= Room(table, p.hi, i)
    ensures table[i].size % 4 == 0
  {
    hide Chosen;
    RowFits(p, sizes, table, i);
    if i + 1 < |table| { RowFits(p, sizes, table, i + 1); }
    assert Row(p, sizes, table, i);
    EmittedFits(Chosen(p, table[i].vram).value.size, MinimumFor(sizes, table[i].vram), Room(table, p.hi, i));
  }

  // ---- Where the rounds lead -----------------------------------------------------------

  /** The size a function settles at: it grows over every word that needs a delay slot, as long as
      there is room. */
  function Settled(rom: Rom, start: int, size: int, room: int): (r: int)
    ensures size <= r
    ensures rom.Truncated(start, r) ==> r + 4 > room
    decreases room - size
  {
    if rom.Truncated(start, size) && size + 4 <= room then Settled(rom, start, size + 4, room) else size
  }

  /** It settles at the first size whose last word needs no delay slot or whose room is used up. */
  lemma {:induction false} SettledIsFirst(rom: Rom, start: int, size: int, room: int, k: nat)
    requires size + 4 * k < Settled(rom, start, size, room)
    ensures rom.Truncated(start, size + 4 * k) && size + 4 * k + 4 <= room
    decreases k
  {
    hide Rom.Truncated;
    if k > 0 { SettledIsFirst(rom, start, size + 4, room, k - 1); }
  }

  function SettledRow(p: Project, rom: Rom, table: seq<Fn>, i: nat): Fn
    requires i < |table|
  {
    table[i].(size := Settled(rom, table[i].vram, table[i].size, Room(table, p.hi, i)))
  }

  // Both tables settle at the same rows.
  ghost predicate SettleAlike(p: Project, rom: Rom, t: seq<Fn>, u: seq<Fn>) {
    |t| == |u| && forall i :: 0 <= i < |t| ==> SettledRow(p, rom, t, i) == SettledRow(p, rom, u, i)
  }

  // `to` is what `from` settles at.
  ghost predicate SettlesAt(p: Project, rom: Rom, from: seq<Fn>, to: seq<Fn>) {
    |from| == |to| && forall i :: 0 <= i < |from| ==> to[i] == SettledRow(p, rom, from, i)
  }

  lemma {:induction false} RoundSettlesAlike(p: Project, rom: Rom, lines: seq<(int, int)>, table: seq<Fn>,
                                             table': seq<Fn>)
    requires IsTable(p, LastWins(lines), table)
    requires IsTable(p, LastWins(lines + Fixes(rom, table)), table')
    ensures SettleAlike(p, rom, table, table')
    ensures table' == table || 0 <= Slack(table', p.hi) < Slack(table, p.hi)
    ensures table' == table || Fixes(rom, table) == [] ==> SettlesAt(p, rom, table, table)
  {
    hide Rom.Truncated, Emitted, Chosen, IsTable;
    RoundGrows(p, rom, lines, table, table', 0);
    forall i | 0 <= i < |table|
      ensures SettledRow(p, rom, table, i) == SettledRow(p, rom, table', i)
      ensures table[i].size <= table'[i].size <= Room(table, p.hi, i) + 3
      ensures table'[i] == table[i].(size := table'[i].size)
      ensures table' == table || Fixes(rom, table) == [] ==> table[i] == SettledRow(p, rom, table, i)
    {
      RoundGrows(p, rom, lines, table, table', i);
      RowRoom(p, LastWins(lines), table, i);
      NoFixes(rom, table, i);
    }
    SlackShrinks(p.hi, table, table');
    if table' != table {
      var i :| 0 <= i < |table| && table[i] != table'[i];
      assert table[i].size < table'[i].size;
    }
  }

  lemma {:induction false} NoFixes(rom: Rom, table: seq<Fn>, i: nat)
    requires i < |table|
    ensures Fixes(rom, table) == [] ==> !rom.Truncated(table[i].vram, table[i].size)
    ensures (forall k :: 0 <= k < |table| ==> !rom.Truncated(table[k].vram, table[k].size)) ==> Fixes(rom, table) == []
  {
    hide Rom.Truncated;
    if |table| == 1 {
    } else if i > 0 {
      NoFixes(rom, table[1..], i - 1);
    } else {
      NoFixes(rom, table[1..], 0);
    }
  }

  // The room not yet used, which every effective round reduces
  function Slack(table: seq<Fn>, hi: int): int {
    if table == [] then 0
    else Room(table, hi, 0) + 3 - table[0].size + Slack(table[1..], hi)
  }

  lemma {:induction false} SlackShrinks(hi: int, table: seq<Fn>, table': seq<Fn>)
    requires |table'| == |table|
    requires forall i :: 0 <= i < |table| ==> table'[i].vram == table[i].vram && table[i].size <= table'[i].size
    requires forall i :: 0 <= i < |table| ==> table'[i].size <= Room(table, hi, i) + 3
    ensures 0 <= Slack(table', hi) <= Slack(table, hi)
    ensures (exists i :: 0 <= i < |table| && table[i].size < table'[i].size) ==> Slack(table', hi) < Slack(table, hi)
  {
    if table != [] {
      var t, t' := table[1..], table'[1..];
      forall i | 0 <= i < |t|
        ensures t'[i].size <= Room(t, hi, i) + 3
      {
        assert Room(table, hi, i + 1) == Room(t, hi, i);
      }
      SlackShrinks(hi, t, t');
      assert Room(table, hi, 0) == Room(table', hi, 0);
      if i :| 0 <= i < |table| && table[i].size < table'[i].size {
        if i > 0 { assert t[i - 1].size < t'[i - 1].size; }
      }
    }
  }

  /** The loop: scan, append, generate, until the scan is silent or the table stays the same. It
      terminates, and its last table is what every row of the first one settles at. */
  method Repair(p: Project, rom: Rom, sizeLines: seq<(int, int)>, order: seq<int>)
    returns (first: seq<Fn>, last: seq<Fn>, lines: seq<(int, int)>)
    requires p.Valid() && Lists(p, order) && exists v :: Chosen(p, v).Some?
    ensures IsTable(p, LastWins(sizeLines), first) && IsTable(p, LastWins(lines), last)
    ensures SettlesAt(p, rom, first, last)
    ensures forall u :: IsTable(p, LastWins(lines + Fixes(rom, last)), u) ==> u == last
  {
    hide Chosen, IsTable, Fixes, Settled;
    lines := sizeLines;
    var g := Generate(p, lines, order);
    first, last := g.value, g.value;
    while true
      invariant IsTable(p, LastWins(lines), last) && SettleAlike(p, rom, first, last)
      decreases Slack(last, p.hi)
    {
      var fixes := Scan(rom, last);
      g := Generate(p, lines + fixes, order);
      RoundSettlesAlike(p, rom, lines, last, g.value);
      if g.value == last || fixes == [] {
        break;
      }
      lines, last := lines + fixes, g.value;
    }
    forall u | IsTable(p, LastWins(lines + Fixes(rom, last)), u)
      ensures u == last
    {
      TableIsUnique(p, LastWins(lines + Fixes(rom, last)), u, g.value);
      assert lines + [] == lines;
      if Fixes(rom, last) == [] { TableIsUnique(p, LastWins(lines), u, last); }
    }
  }

  /** At the fixpoint a function whose last word needs a delay slot ends exactly at the next entry; the
      last one ends within the word that the section end cuts off. */
  lemma {:induction false} StuckAtNextEntry(p: Project, rom: Rom, sizes: map<int, int>, from: seq<Fn>, to: seq<Fn>,
                                            i: nat)
    requires IsTable(p, sizes, from) && SettlesAt(p, rom, from, to) && i < |to|
    requires rom.Truncated(to[i].vram, to[i].size)
    ensures i + 1 < |to| ==> End(to[i]) == to[i + 1].vram
    ensures i + 1 == |to| ==> p.hi < End(to[i]) + 4
  {
    hide Rom.Truncated, Settled, IsTable;
    RowRoom(p, sizes, from, i);
    SettledStays(rom, from[i].vram, from[i].size, Room(from, p.hi, i));
    assert to[i] == SettledRow(p, rom, from, i);
    if i + 1 < |to| { assert to[i + 1].vram == from[i + 1].vram; }
  }

  lemma {:induction false} SettledStays(rom: Rom, start: int, size: int, room: int)
    requires size % 4 == 0
    ensures Settled(rom, start, size, room) % 4 == 0
    ensures size <= room ==> Settled(rom, start, size, room) <= room
    decreases room - size
  {
    hide Rom.Truncated;
    if rom.Truncated(start, size) && size + 4 <= room { SettledStays(rom, start, size + 4, room); }
  }

  // Some size that the rounds may give the row ends on a word that needs no delay slot.
  ghost predicate CanRest(rom: Rom, start: int, size: int, room: int) {
    exists k: nat :: (k == 0 || size + 4 * k <= room) && !rom.Truncated(start, size + 4 * k)
  }

  lemma {:induction false} SettledRests(rom: Rom, start: int, size: int, room: int)
    ensures !rom.Truncated(start, Settled(rom, start, size, room)) <==> CanRest(rom, start, size, room)
    decreases room - size
  {
    hide Rom.Truncated;
    if rom.Truncated(start, size) && size + 4 <= room {
      SettledRests(rom, start, size + 4, room);
      if k: nat :| (k == 0 || size + 4 + 4 * k <= room) && !rom.Truncated(start, size + 4 + 4 * k) {
        assert size + 4 * (k + 1) == size + 4 + 4 * k;
      }
      if k: nat :| (k == 0 || size + 4 * k <= room) && !rom.Truncated(start, size + 4 * k) {
        assert k > 0 && size + 4 + 4 * (k - 1) == size + 4 * k;
      }
    } else {
      assert size + 4 * 0 == size;
    }
  }

  /** What the ROM and the first table say about the end: the scan falls silent exactly when every function
      can rest, that is, when some word at its end or in the room behind it needs no delay slot. Repeating
      the tools alone does not repair a transfer right before the next entry. */
  lemma {:induction false} ScanFallsSilent(p: Project, rom: Rom, from: seq<Fn>, to: seq<Fn>)
    requires SettlesAt(p, rom, from, to)
    ensures Fixes(rom, to) == [] <==>
      forall i :: 0 <= i < |from| ==> CanRest(rom, from[i].vram, from[i].size, Room(from, p.hi, i))
  {
    hide Rom.Truncated, Settled, CanRest;
    forall i | 0 <= i < |to|
      ensures !rom.Truncated(to[i].vram, to[i].size) <==>
              CanRest(rom, from[i].vram, from[i].size, Room(from, p.hi, i))
      ensures Fixes(rom, to) == [] ==> !rom.Truncated(to[i].vram, to[i].size)
    {
      SettledRests(rom, from[i].vram, from[i].size, Room(from, p.hi, i));
      assert to[i] == SettledRow(p, rom, from, i);
      NoFixes(rom, to, i);
    }
    if to != [] { NoFixes(rom, to, 0); }
  }

  /** Two functions, the first of which ends with a jal right before the second. */
  function JalRom(): Rom { Rom([0, 0, 0, 0, 0x0C, 0, 0, 0, 0, 0, 0, 0], 0x400, 0) }

  function JalProject(): Project { Project(0x400, 0x40C, JalTable(), map[], {}) }

  function JalTable(): seq<Fn> { [Fn("caller", 0x400, 8), Fn("callee", 0x408, 4)] }

  /** For these the scan never falls silent. */
  lemma {:induction false} JalBeforeEntry(to: seq<Fn>)
    requires SettlesAt(JalProject(), JalRom(), JalTable(), to)
    ensures IsTable(JalProject(), map[], JalTable())
    ensures Fixes(JalRom(), to) != []
  {
    JalTableIsGenerated();
    JalIsTruncated();
    hide Rom.Truncated, IsTable;
    assert !CanRest(JalRom(), 0x400, 8, Room(JalTable(), 0x40C, 0));
    ScanFallsSilent(JalProject(), JalRom(), JalTable(), to);
  }

  lemma {:induction false} JalIsTruncated()
    ensures JalRom().Truncated(0x400, 8)
  {
    assert JalRom().bytes[4..8] == [0x0C, 0, 0, 0];
  }

  lemma {:induction false} JalTableIsGenerated()
    ensures IsTable(JalProject(), map[], JalTable())
  {
    var p, table := JalProject(), JalTable();
    forall v
      ensures First(table, v).Some? <==> Chosen(p, v).Some?
    {
      FirstOfTwo(table[0], table[1], v);
    }
    FirstOfTwo(table[0], table[1], 0x400);
    FirstOfTwo(table[0], table[1], 0x408);
    assert Row(p, map[], table, 0) && Row(p, map[], table, 1);
  }

  lemma {:induction false} SettledRowAt(p: Project, rom: Rom, from: seq<Fn>, to: seq<Fn>, i: nat)
    requires SettlesAt(p, rom, from, to) && i < |to|
    ensures i < |from| && to[i] == SettledRow(p, rom, from, i)
  {
  }

  /** What the merge pass repaired, the delay-slot loop keeps: a function that holds an instruction of its
      own still holds it, delay slot included, when the loop has settled, unless there is no room. */
  lemma {:induction false} RepairsStay(p: Project, rom: Rom, sizes: map<int, int>, from: seq<Fn>, to: seq<Fn>, i: nat,
                                       t: int)
    requires IsTable(p, sizes, from) && SettlesAt(p, rom, from, to) && i < |to|
    requires from[i].vram <= t && t % 4 == 0 && t + 4 <= End(from[i]) &&
             rom.Truncated(from[i].vram, t + 4 - from[i].vram)
    ensures t + 4 <= End(to[i])
    ensures t + 8 <= End(to[i]) || Room(from, p.hi, i) < t + 8 - from[i].vram
  {
    hide Rom.Truncated, IsTable, SettlesAt;
    SettledRowAt(p, rom, from, to, i);
    RowRoom(p, sizes, from, i);
    RowFits(p, sizes, from, i);
    var f, room := from[i], Room(from, p.hi, i);
    SettledStays(rom, f.vram, f.size, room);
    var r := Settled(rom, f.vram, f.size, room);
    assert t + 8 <= f.vram + r || r == t + 4 - f.vram;
  }
}

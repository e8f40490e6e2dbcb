/** tools/gen_symbols_toml.py: from the analysed functions and the hand-kept lists to the function
    table of one section. */
module SymbolTable {

  import opened Basics

  datatype Fn = Fn(name: string, vram: int, size: int)

  /** What one run reads: the section, the analysed functions in file order, the manual additions by
      address, and the union of the drop and merge lists. */
  datatype Project = Project(lo: int, hi: int, raw: seq<Fn>, adds: map<int, Fn>, drops: set<int>)
  {
    predicate Valid() { forall v :: v in adds ==> adds[v].vram == v }

    predicate Keeps(v: int) { lo <= v < hi && v !in drops && v % 4 == 0 }
  }

  // ---- Which functions are listed ----------------------------------------------

  function Kept(p: Project, fns: seq<Fn>): (r: seq<Fn>)
  {
    if fns == [] then []
    else if p.Keeps(fns[0].vram) && fns[0].vram !in p.adds then [fns[0]] + Kept(p, fns[1..])
    else Kept(p, fns[1..])
  }

  /** The additions in some order that lists each address once. */
  function Added(p: Project, order: seq<int>): (r: seq<Fn>)
    requires forall v :: v in order ==> v in p.adds
  {
    if order == [] then []
    else (if p.Keeps(order[0]) then [p.adds[order[0]]] else []) + Added(p, order[1..])
  }

  /** The stable sort by address of the host language. */
  function Sorted(fns: seq<Fn>): seq<Fn> {
    if fns == [] then [] else Insert(fns[0], Sorted(fns[1..]))
  }

  function Insert(f: Fn, fns: seq<Fn>): seq<Fn> {
    if fns == [] || f.vram <= fns[0].vram then [f] + fns else [fns[0]] + Insert(f, fns[1..])
  }

  function Dedup(fns: seq<Fn>): seq<Fn> {
    if |fns| < 2 then fns
    else
      var d := Dedup(fns[..|fns| - 1]);
      if d != [] && d[|d| - 1].vram == fns[|fns| - 1].vram then d else d + [fns[|fns| - 1]]
  }

  /** The first function of a list at address v. */
  function First(fns: seq<Fn>, v: int): Option<Fn> {
    if fns == [] then None else if fns[0].vram == v then Some(fns[0]) else First(fns[1..], v)
  }

  ghost predicate Ascending(fns: seq<Fn>) {
    forall i, j :: 0 <= i < j < |fns| ==> fns[i].vram <= fns[j].vram
  }

  ghost predicate Increasing(fns: seq<Fn>) {
    forall i, j :: 0 <= i < j < |fns| ==> fns[i].vram < fns[j].vram
  }

  lemma {:induction false} FirstOfConcat(a: seq<Fn>, b: seq<Fn>, v: int)
    ensures First(a + b, v) == if First(a, v).Some? then First(a, v) else First(b, v)
  {
    if a == [] {
      assert a + b == b;
    } else {
      assert (a + b)[1..] == a[1..] + b;
      FirstOfConcat(a[1..], b, v);
    }
  }

  lemma {:induction false} FirstSays(fns: seq<Fn>, v: int)
    ensures First(fns, v).Some? ==> First(fns, v).value in fns && First(fns, v).value.vram == v
    ensures First(fns, v).None? ==> forall f :: f in fns ==> f.vram != v
  {
    if fns != [] { FirstSays(fns[1..], v); }
  }

  lemma {:induction false} ConsAscends(f: Fn, fns: seq<Fn>)
    requires Ascending(fns) && (fns == [] || f.vram <= fns[0].vram)
    ensures Ascending([f] + fns)
  {
  }

  lemma {:induction false} InsertSorts(f: Fn, fns: seq<Fn>)
    requires Ascending(fns)
    ensures Ascending(Insert(f, fns)) && Insert(f, fns) != []
    ensures Insert(f, fns)[0].vram == if fns == [] || f.vram <= fns[0].vram then f.vram else fns[0].vram
  {
    if fns == [] || f.vram <= fns[0].vram {
      ConsAscends(f, fns);
    } else {
      InsertSorts(f, fns[1..]);
      ConsAscends(fns[0], Insert(f, fns[1..]));
    }
  }

  lemma {:induction false} InsertKeepsAll(f: Fn, fns: seq<Fn>)
    ensures multiset(Insert(f, fns)) == multiset([f] + fns)
  {
    if !(fns == [] || f.vram <= fns[0].vram) {
      InsertKeepsAll(f, fns[1..]);
      assert fns == [fns[0]] + fns[1..];
    }
  }

  lemma {:induction false} InsertIsStable(f: Fn, fns: seq<Fn>, v: int)
    requires Ascending(fns)
    ensures First(Insert(f, fns), v) == First([f] + fns, v)
  {
    assert ([f] + fns)[1..] == fns;
    if !(fns == [] || f.vram <= fns[0].vram) {
      var r := Insert(f, fns[1..]);
      InsertIsStable(f, fns[1..], v);
      assert ([fns[0]] + r)[1..] == r && ([f] + fns[1..])[1..] == fns[1..];
    }
  }

  /** The sort keeps every function and, at each address, the order of the list. */
  lemma {:induction false} SortIsStable(fns: seq<Fn>, v: int)
    ensures Ascending(Sorted(fns)) && multiset(Sorted(fns)) == multiset(fns)
    ensures First(Sorted(fns), v) == First(fns, v)
  {
    if fns != [] {
      SortIsStable(fns[1..], v);
      InsertSorts(fns[0], Sorted(fns[1..]));
      InsertKeepsAll(fns[0], Sorted(fns[1..]));
      InsertIsStable(fns[0], Sorted(fns[1..]), v);
      assert fns == [fns[0]] + fns[1..];
      assert ([fns[0]] + Sorted(fns[1..]))[1..] == Sorted(fns[1..]);
    }
  }

  lemma {:induction false} DedupIncreases(fns: seq<Fn>)
    requires Ascending(fns)
    ensures Increasing(Dedup(fns))
    ensures fns != [] ==> Dedup(fns) != [] && Dedup(fns)[|Dedup(fns)| - 1].vram == fns[|fns| - 1].vram
  {
    if |fns| >= 2 {
      DedupIncreases(fns[..|fns| - 1]);
    }
  }

  lemma {:induction false} FirstOfOne(f: Fn, v: int)
    ensures First([f], v) == if f.vram == v then Some(f) else None
  {
  }

  lemma {:induction false} DedupKeepsFirst(fns: seq<Fn>, v: int)
    requires Ascending(fns)
    ensures First(Dedup(fns), v) == First(fns, v)
  {
    if |fns| >= 2 {
      var init, last := fns[..|fns| - 1], fns[|fns| - 1];
      var d := Dedup(init);
      DedupKeepsFirst(init, v);
      DedupIncreases(init);
      assert fns == init + [last];
      hide First;
      FirstOfConcat(init, [last], v);
      FirstOfConcat(d, [last], v);
      FirstOfOne(last, v);
      FirstAt(d, |d| - 1);
    }
  }

  /** The listed functions before sizing: order lists the additions. */
  function Entries(p: Project, order: seq<int>): seq<Fn>
    requires forall v :: v in order ==> v in p.adds
  {
    Dedup(Sorted(Kept(p, p.raw) + Added(p, order)))
  }

  /** The function listed at address v: the addition, else the first analysed one, if v is kept. */
  function Chosen(p: Project, v: int): Option<Fn> {
    if !p.Keeps(v) then None
    else if v in p.adds then Some(p.adds[v])
    else First(p.raw, v)
  }

  lemma {:induction false} KeptFirst(p: Project, fns: seq<Fn>, v: int)
    ensures First(Kept(p, fns), v) == if p.Keeps(v) && v !in p.adds then First(fns, v) else None
  {
    if fns != [] {
      KeptFirst(p, fns[1..], v);
      assert ([fns[0]] + Kept(p, fns[1..]))[1..] == Kept(p, fns[1..]);
    }
  }

  lemma {:induction false} AddedFirst(p: Project, order: seq<int>, v: int)
    requires p.Valid() && forall u :: u in order ==> u in p.adds
    ensures First(Added(p, order), v) == if p.Keeps(v) && v in order then Some(p.adds[v]) else None
  {
    if order != [] {
      AddedFirst(p, order[1..], v);
      var head := if p.Keeps(order[0]) then [p.adds[order[0]]] else [];
      FirstOfConcat(head, Added(p, order[1..]), v);
    }
  }

  // Every address of the additions, in some order
  ghost predicate Lists(p: Project, order: seq<int>) {
    forall v :: v in order <==> v in p.adds
  }

  /** The listed entries are strictly increasing and are, address by address, the chosen functions. */
  lemma {:induction false} EntriesAreChosen(p: Project, order: seq<int>, v: int)
    requires p.Valid() && Lists(p, order)
    ensures Increasing(Entries(p, order)) && First(Entries(p, order), v) == Chosen(p, v)
  {
    var all := Kept(p, p.raw) + Added(p, order);
    KeptFirst(p, p.raw, v);
    AddedFirst(p, order, v);
    FirstOfConcat(Kept(p, p.raw), Added(p, order), v);
    SortIsStable(all, v);
    DedupKeepsFirst(Sorted(all), v);
    DedupIncreases(Sorted(all));
  }

  // ---- Sizes ---------------------------------------------------------------------

  /** The size written for a function with the given room up to the next entry. */
  function Emitted(size: int, minimum: int, room: int): int {
    var wanted := if minimum > size then minimum else size;
    var clamped := if wanted <= 0 || wanted > room then room else wanted;
    var aligned := clamped / 4 * 4;
    if aligned == 0 then 4 else aligned
  }

  function MinimumFor(sizes: map<int, int>, v: int): int { if v in sizes then sizes[v] else 0 }

  function Limit(fns: seq<Fn>, hi: int, i: nat): int
    requires i < |fns|
  {
    if i + 1 < |fns| then fns[i + 1].vram else hi
  }

  // Row i of the table: the entry with its size set
  predicate SizedRow(fns: seq<Fn>, hi: int, sizes: map<int, int>, table: seq<Fn>, i: int)
    requires 0 <= i < |fns| == |table|
  {
    table[i] == fns[i].(size := Emitted(fns[i].size, MinimumFor(sizes, fns[i].vram),
                                        Limit(fns, hi, i) - fns[i].vram))
  }

  predicate Sized(fns: seq<Fn>, hi: int, sizes: map<int, int>, table: seq<Fn>) {
    |table| == |fns| && forall i :: 0 <= i < |fns| ==> SizedRow(fns, hi, sizes, table, i)
  }

  // Row i is the chosen function at its address, sized by the larger of its own and its minimum size
  // and the room up to the next row.
  ghost predicate Row(p: Project, sizes: map<int, int>, table: seq<Fn>, i: int)
    requires 0 <= i < |table|
  {
    var c := Chosen(p, table[i].vram);
    c.Some? && table[i] == c.value.(size := Emitted(c.value.size, MinimumFor(sizes, table[i].vram),
                                                     Limit(table, p.hi, i) - table[i].vram))
  }

  /** What the generated table is: exactly the chosen addresses in increasing order, each row sized. */
  ghost predicate IsTable(p: Project, sizes: map<int, int>, table: seq<Fn>) {
    && Increasing(table)
    && (forall v :: First(table, v).Some? <==> Chosen(p, v).Some?)
    && (forall i :: 0 <= i < |table| ==> Row(p, sizes, table, i))
  }

  lemma {:induction false} FirstOfTwo(a: Fn, b: Fn, v: int)
    ensures First([a, b], v) == if a.vram == v then Some(a) else if b.vram == v then Some(b) else None
  {
    assert [a, b][1..] == [b];
    FirstOfOne(b, v);
  }

  lemma {:induction false} SizedFirst(fns: seq<Fn>, table: seq<Fn>, v: int)
    requires |table| == |fns| && forall i :: 0 <= i < |fns| ==> table[i].vram == fns[i].vram
    ensures First(table, v).Some? <==> First(fns, v).Some?
  {
    if fns != [] { SizedFirst(fns[1..], table[1..], v); }
  }

  lemma {:induction false} FirstAt(fns: seq<Fn>, i: nat)
    requires Increasing(fns) && i < |fns|
    ensures First(fns, fns[i].vram) == Some(fns[i])
  {
    if i > 0 { FirstAt(fns[1..], i - 1); }
  }

  lemma {:induction false} SizedIsTable(p: Project, order: seq<int>, sizes: map<int, int>, table: seq<Fn>)
    requires p.Valid() && Lists(p, order) && Sized(Entries(p, order), p.hi, sizes, table)
    ensures IsTable(p, sizes, table)
  {
    hide Entries, Chosen;
    var fns := Entries(p, order);
    SizedAddresses(fns, p.hi, sizes, table);
    forall v
      ensures First(table, v).Some? <==> Chosen(p, v).Some?
    {
      EntriesAreChosen(p, order, v);
      SizedFirst(fns, table, v);
    }
    EntriesAreChosen(p, order, 0);
    forall i | 0 <= i < |table|
      ensures Row(p, sizes, table, i)
    {
      assert SizedRow(fns, p.hi, sizes, table, i);
      EntriesAreChosen(p, order, table[i].vram);
      FirstAt(fns, i);
    }
  }

  lemma {:induction false} SizedAddresses(fns: seq<Fn>, hi: int, sizes: map<int, int>, table: seq<Fn>)
    requires Sized(fns, hi, sizes, table)
    ensures forall i :: 0 <= i < |fns| ==> table[i].vram == fns[i].vram
  {
    forall i | 0 <= i < |fns|
      ensures table[i].vram == fns[i].vram
    {
      assert SizedRow(fns, hi, sizes, table, i);
    }
  }

  /** A run with the same inputs always writes the same table. */
  lemma {:induction false} TableIsUnique(p: Project, sizes: map<int, int>, t: seq<Fn>, u: seq<Fn>)
    requires IsTable(p, sizes, t) && IsTable(p, sizes, u)
    ensures t == u
  {
    hide Chosen;
    SameAddresses(t, u);
    forall i | 0 <= i < |t|
      ensures t[i] == u[i]
    {
      assert Row(p, sizes, t, i) && Row(p, sizes, u, i);
    }
  }

  function HeadAddress(fns: seq<Fn>): int { if fns == [] then 0 else fns[0].vram }

  lemma {:induction false} SameAddresses(t: seq<Fn>, u: seq<Fn>)
    requires Increasing(t) && Increasing(u)
    requires forall v :: First(t, v).Some? <==> First(u, v).Some?
    ensures |t| == |u| && forall i :: 0 <= i < |t| ==> t[i].vram == u[i].vram
  {
    if t != [] && u != [] {
      assert First(t, t[0].vram).Some? && First(u, u[0].vram).Some?;
      FirstSays(u, t[0].vram);
      FirstSays(t, u[0].vram);
      forall v
        ensures First(t[1..], v).Some? <==> First(u[1..], v).Some?
      {
        FirstSays(t[1..], v);
        FirstSays(u[1..], v);
        assert First(t, v).Some? <==> First(u, v).Some?;
      }
      SameAddresses(t[1..], u[1..]);
      assert forall i :: 0 < i < |t| ==> t[i] == t[1..][i - 1] && u[i] == u[1..][i - 1];
    } else {
      var v := if t == [] then HeadAddress(u) else HeadAddress(t);
      assert First(t, v).Some? <==> First(u, v).Some?;
    }
  }

  // ---- The partition ---------------------------------------------------------------

  function End(f: Fn): int { f.vram + f.size }

  ghost predicate Partition(lo: int, hi: int, table: seq<Fn>) {
    && (forall i :: 0 <= i < |table| ==> lo <= table[i].vram && table[i].vram % 4 == 0)
    && (forall i :: 0 <= i < |table| ==> table[i].size > 0 && table[i].size % 4 == 0)
    && (forall i, j :: 0 <= i < j < |table| ==> End(table[i]) <= table[j].vram)
    && (forall i :: 0 <= i < |table| ==> End(table[i]) <= hi)
  }

  lemma {:induction false} EmittedFits(size: int, minimum: int, room: int)
    requires room > 0
    ensures Emitted(size, minimum, room) > 0 && Emitted(size, minimum, room) % 4 == 0
    ensures Emitted(size, minimum, room) <= room <==> room >= 4
  {
  }

  lemma {:induction false} LastRowDecides(p: Project, sizes: map<int, int>, table: seq<Fn>)
    requires IsTable(p, sizes, table) && table != []
    ensures Partition(p.lo, p.hi, table) <==> p.hi - table[|table| - 1].vram >= 4
  {
    forall i | 0 <= i < |table|
      ensures p.Keeps(table[i].vram)
      ensures table[i].size > 0 && table[i].size % 4 == 0
      ensures i + 1 < |table| ==> End(table[i]) <= table[i + 1].vram
      ensures i + 1 == |table| ==> (End(table[i]) <= p.hi <==> p.hi - table[i].vram >= 4)
    {
      RowFits(p, sizes, table, i);
    }
    forall i, j | 0 <= i < j < |table|
      ensures End(table[i]) <= table[j].vram
    {
      assert End(table[i]) <= table[i + 1].vram <= table[j].vram;
    }
    var last := |table| - 1;
    forall i | 0 <= i < |table| && p.hi - table[last].vram >= 4
      ensures End(table[i]) <= p.hi
    {
      if i < last { assert End(table[i]) <= table[last].vram; }
    }
    if Partition(p.lo, p.hi, table) {
      assert End(table[last]) <= p.hi;
    }
  }

  /** The written intervals are disjoint and word-aligned, and stay inside the section exactly when every
      function that the inputs choose has room for one instruction before the section end. */
  lemma {:induction false} TableIsPartition(p: Project, sizes: map<int, int>, table: seq<Fn>)
    requires IsTable(p, sizes, table)
    ensures Partition(p.lo, p.hi, table) <==> forall v :: Chosen(p, v).Some? ==> v + 4 <= p.hi
  {
    hide Chosen, Emitted;
    forall v | Chosen(p, v).Some?
      ensures table != [] && v <= table[|table| - 1].vram
    {
      FirstSays(table, v);
    }
    if table != [] {
      LastRowDecides(p, sizes, table);
      assert Row(p, sizes, table, |table| - 1);
    }
  }

  // A section whose end is not aligned, with one function in its last two bytes
  function Unaligned(): Project { Project(0x400, 0x402, [Fn("last", 0x400, 2)], map[], {}) }

  /** Its function is written with four bytes, past the section end. */
  lemma {:induction false} UnalignedIsOverrun()
    ensures var table := [Fn("last", 0x400, 4)];
            IsTable(Unaligned(), map[], table) && !Partition(0x400, 0x402, table)
  {
    var p, table := Unaligned(), [Fn("last", 0x400, 4)];
    forall v
      ensures First(table, v).Some? <==> Chosen(p, v).Some?
    {
      FirstOfOne(table[0], v);
      FirstOfOne(p.raw[0], v);
    }
    FirstOfOne(p.raw[0], 0x400);
    assert Row(p, map[], table, 0);
    assert End(table[0]) == 0x404;
  }

  lemma {:induction false} RowFits(p: Project, sizes: map<int, int>, table: seq<Fn>, i: nat)
    requires IsTable(p, sizes, table) && i < |table|
    ensures p.Keeps(table[i].vram)
    ensures table[i].size > 0 && table[i].size % 4 == 0
    ensures i + 1 < |table| ==> End(table[i]) <= table[i + 1].vram
    ensures i + 1 == |table| ==> (End(table[i]) <= p.hi <==> p.hi - table[i].vram >= 4)
  {
    assert Row(p, sizes, table, i);
    var c := Chosen(p, table[i].vram);
    if i + 1 < |table| {
      assert Row(p, sizes, table, i + 1) && table[i].vram < table[i + 1].vram;
    }
    EmittedFits(c.value.size, MinimumFor(sizes, table[i].vram), Limit(table, p.hi, i) - table[i].vram);
  }

  // ---- The table in terms of the files that are read ---------------------------------------

  /** What the lists declare at v: the manual addition, else the first analysed function there. */
  ghost predicate Declares(p: Project, v: int, f: Fn) {
    if v in p.adds then f == p.adds[v]
    else exists k :: 0 <= k < |p.raw| && p.raw[k] == f && f.vram == v && forall j :: 0 <= j < k ==> p.raw[j].vram != v
  }

  lemma {:induction false} FirstIs(fns: seq<Fn>, v: int, k: nat)
    requires k < |fns| && fns[k].vram == v && forall j :: 0 <= j < k ==> fns[j].vram != v
    ensures First(fns, v) == Some(fns[k])
    decreases k
  {
    if k > 0 { FirstIs(fns[1..], v, k - 1); }
  }

  lemma {:induction false} DeclaredIsChosen(p: Project, v: int, f: Fn)
    requires Declares(p, v, f) && p.lo <= v < p.hi && v % 4 == 0 && v !in p.drops
    ensures Chosen(p, v) == Some(f)
  {
    if v !in p.adds {
      var k :| 0 <= k < |p.raw| && p.raw[k] == f && f.vram == v && forall j :: 0 <= j < k ==> p.raw[j].vram != v;
      FirstIs(p.raw, v, k);
    }
  }

  /** Every word-aligned address of the section at which a function is declared, and which is not dropped,
      is listed, and no other. */
  lemma {:induction false} ListedExactly(p: Project, sizes: map<int, int>, table: seq<Fn>, v: int)
    requires IsTable(p, sizes, table)
    ensures (exists i :: 0 <= i < |table| && table[i].vram == v) <==>
            && p.lo <= v < p.hi && v % 4 == 0 && v !in p.drops
            && (v in p.adds || exists f :: f in p.raw && f.vram == v)
  {
    assert First(table, v).Some? <==> Chosen(p, v).Some?;
    FirstSays(table, v);
    FirstSays(p.raw, v);
    hide IsTable;
    if i :| 0 <= i < |table| && table[i].vram == v { assert table[i] in table; }
  }

  /** A listed function has its declared name. If its declared size and its minimum are not positive, or one
      of them exceeds the room, it fills up to the next entry; else it has the larger of the two. Sizes are
      rounded down to words, but at least one word. */
  lemma {:induction false} SizedExactly(p: Project, sizes: map<int, int>, table: seq<Fn>, i: nat, f: Fn)
    requires IsTable(p, sizes, table) && i < |table| && Declares(p, table[i].vram, f)
    ensures var v, size := table[i].vram, table[i].size;
            var wanted := if v in sizes && sizes[v] > f.size then sizes[v] else f.size;
            var next := if i + 1 < |table| then table[i + 1].vram else p.hi;
            && table[i].name == f.name && size % 4 == 0
            && (wanted <= 0 || wanted >= next - v ==>
                 if i + 1 < |table| then v + size == next
                 else if next - v >= 4 then next - 4 < v + size <= next
                 else size == 4)
            && (0 < wanted <= next - v ==> if wanted >= 4 then wanted - 4 < size <= wanted else size == 4)
  {
    assert Row(p, sizes, table, i);
    RowFits(p, sizes, table, i);
    if i + 1 < |table| { RowFits(p, sizes, table, i + 1); }
    DeclaredIsChosen(p, table[i].vram, f);
    hide IsTable, Row, Chosen;
  }

  // ---- The generator -----------------------------------------------------------------

  /** Sizes are read line by line; the last line for an address wins. */
  function LastWins(lines: seq<(int, int)>): map<int, int> {
    if lines == [] then map[]
    else LastWins(lines[..|lines| - 1])[lines[|lines| - 1].0 := lines[|lines| - 1].1]
  }

  // Line i is the last one for address v.
  predicate IsLastLine(lines: seq<(int, int)>, v: int, i: int) {
    0 <= i < |lines| && lines[i].0 == v && forall j :: i < j < |lines| ==> lines[j].0 != v
  }

  lemma {:induction false} LastWinsIsLast(lines: seq<(int, int)>, v: int)
    ensures v in LastWins(lines) <==> exists i :: IsLastLine(lines, v, i)
    ensures forall i :: IsLastLine(lines, v, i) ==> v in LastWins(lines) && LastWins(lines)[v] == lines[i].1
  {
    if lines != [] {
      var init, n := lines[..|lines| - 1], |lines| - 1;
      LastWinsIsLast(init, v);
      if lines[n].0 == v {
        assert IsLastLine(lines, v, n);
      } else {
        forall i
          ensures IsLastLine(lines, v, i) <==> IsLastLine(init, v, i)
        {
        }
      }
    }
  }

  /** The generator. None is the tool's refusal of a section without functions. `order` is the order
      in which the additions happen to be iterated. */
  method Generate(p: Project, sizeLines: seq<(int, int)>, order: seq<int>) returns (r: Option<seq<Fn>>)
    requires p.Valid() && Lists(p, order)
    ensures r.None? <==> forall v :: Chosen(p, v).None?
    ensures r.Some? ==> IsTable(p, LastWins(sizeLines), r.value) && r.value != []
  {
    var sizes: map<int, int> := map[];
    for i := 0 to |sizeLines|
      invariant sizes == LastWins(sizeLines[..i])
    {
      assert sizeLines[..i + 1][..i] == sizeLines[..i];
      sizes := sizes[sizeLines[i].0 := sizeLines[i].1];
    }
    assert sizeLines[..|sizeLines|] == sizeLines;

    var funcs := ReadFunctions(p, order);
    if funcs == [] {
      forall v ensures Chosen(p, v).None? { EntriesAreChosen(p, order, v); }
      return None;
    }
    var sorted := Sorted(funcs);
    assert multiset(sorted) == multiset(funcs) by { SortIsStable(funcs, 0); }
    assert funcs[0] in multiset(sorted);
    var deduped := RemoveDuplicates(sorted);
    DedupIncreases(sorted) by { SortIsStable(funcs, 0); }
    var table := AssignSizes(deduped, p.hi, sizes);
    SizedIsTable(p, order, sizes, table);
    FirstAt(table, 0);
    r := Some(table);
  }

  /** The size loop over the deduplicated list. */
  method AssignSizes(deduped: seq<Fn>, hi: int, sizes: map<int, int>) returns (table: seq<Fn>)
    ensures Sized(deduped, hi, sizes, table)
  {
    table := deduped;
    for i := 0 to |deduped|
      invariant |table| == |deduped|
      invariant forall k :: i <= k < |deduped| ==> table[k] == deduped[k]
      invariant forall k :: 0 <= k < i ==> SizedRow(deduped, hi, sizes, table, k)
    {
      var nextVram := if i + 1 < |deduped| then deduped[i + 1].vram else hi;
      var maxSize := nextVram - deduped[i].vram;
      var size := deduped[i].size;
      var ov := if deduped[i].vram in sizes then sizes[deduped[i].vram] else 0;
      if ov > size {
        size := ov;
      }
      if size <= 0 || size > maxSize {
        size := maxSize;
      }
      size := size / 4 * 4;
      if size == 0 {
        size := 4;
      }
      ghost var before := table;
      table := table[i := deduped[i].(size := size)];
      assert forall k :: 0 <= k < i ==>
               SizedRow(deduped, hi, sizes, before, k) ==> SizedRow(deduped, hi, sizes, table, k);
    }
  }

  /** The two filters: analysed functions first, then the additions that replace them. */
  method ReadFunctions(p: Project, order: seq<int>) returns (funcs: seq<Fn>)
    requires forall v :: v in order ==> v in p.adds
    ensures funcs == Kept(p, p.raw) + Added(p, order)
  {
    hide Project.Keeps;
    funcs := [];
    for i := 0 to |p.raw|
      invariant funcs + Kept(p, p.raw[i..]) == Kept(p, p.raw)
    {
      TailOfTail(p.raw, i);
      if p.Keeps(p.raw[i].vram) && p.raw[i].vram !in p.adds {
        Regroup(funcs, p.raw[i], Kept(p, p.raw[i + 1..]));
        funcs := funcs + [p.raw[i]];
      }
    }
    assert funcs + [] == funcs;
    var kept := funcs;
    funcs := ReadAdds(p, order);
    funcs := kept + funcs;
  }

  method ReadAdds(p: Project, order: seq<int>) returns (funcs: seq<Fn>)
    requires forall v :: v in order ==> v in p.adds
    ensures funcs == Added(p, order)
  {
    hide Project.Keeps, Added;
    funcs := [];
    for i := 0 to |order|
      invariant funcs + Added(p, order[i..]) == Added(p, order)
    {
      AddedFrom(p, order, i);
      if p.Keeps(order[i]) {
        Regroup(funcs, p.adds[order[i]], Added(p, order[i + 1..]));
        funcs := funcs + [p.adds[order[i]]];
      }
    }
    AddedFrom(p, order, |order|);
    assert funcs + [] == funcs;
  }

  lemma {:induction false} AddedFrom(p: Project, order: seq<int>, i: nat)
    requires i <= |order| && forall v :: v in order ==> v in p.adds
    ensures i == |order| ==> Added(p, order[i..]) == []
    ensures i < |order| ==>
      Added(p, order[i..])
        == (if p.Keeps(order[i]) then [p.adds[order[i]]] else []) + Added(p, order[i + 1..])
  {
    hide Project.Keeps;
    if i < |order| { TailOfTail(order, i); }
  }

  method RemoveDuplicates(fns: seq<Fn>) returns (deduped: seq<Fn>)
    ensures deduped == Dedup(fns)
  {
    deduped := [];
    for i := 0 to |fns|
      invariant deduped == Dedup(fns[..i])
    {
      assert fns[..i + 1][..i] == fns[..i];
      if deduped != [] && deduped[|deduped| - 1].vram == fns[i].vram {
        continue;
      }
      deduped := deduped + [fns[i]];
    }
    assert fns[..|fns|] == fns;
  }
}

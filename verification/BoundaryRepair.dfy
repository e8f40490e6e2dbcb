/** tools/derive_boundary_merges.py: the tool that repairs function boundaries between runs of the generator
    by merging fragments that a logged branch leads into. */
module BoundaryRepair {
  import opened Basics
  import MipsAssembler
  import MipsDecoder
  import opened SymbolTable

  // A logged branch: start of the branching function and the target it could not reach
  type Pair = (int, int)

  /** The jal word that calls vram, as four big-endian bytes. */
  function JalBytes(vram: int): seq<int>
  {
    var w := 0x0C00_0000 + vram % 0x1000_0000 / 4;
    [w / 0x100_0000, w / 0x1_0000 % 256, w / 256 % 256, w % 256]
  }

  /** The four bytes occur anywhere in the image, aligned or not. */
  predicate IsJalTarget(data: seq<Byte>, vram: int) {
    exists i :: 0 <= i < |data| && Occurs(data, JalBytes(vram), i)
  }

  predicate Occurs(data: seq<Byte>, bytes: seq<int>, i: int)
    requires 0 <= i < |data|
  {
    i + |bytes| <= |data| && forall k :: 0 <= k < |bytes| ==> data[i + k] == bytes[k]
  }

  /** A word anywhere in the image is a jal that calls v from somewhere in the 256 MB region of v. */
  ghost predicate IsCalled(data: seq<Byte>, v: int) {
    exists i, pc :: CallsAt(data, i, pc, v)
  }

  predicate CallsAt(data: seq<Byte>, i: int, pc: int, v: int) {
    && 0 <= i && i + 4 <= |data| && pc / 0x1000_0000 % 16 == v / 0x1000_0000
    && var w := WordOf(data[i..i + 4]);
       MipsDecoder.Opcode(w) == 3 && MipsDecoder.Classify(w, pc) == MipsDecoder.Call(v)
  }

  lemma {:induction false} JalOf(w: Word, pc: int, v: int)
    requires 0 <= v < 0x1_0000_0000 && v % 4 == 0 && pc / 0x1000_0000 % 16 == v / 0x1000_0000
    ensures MipsDecoder.Opcode(w) == 3 && MipsDecoder.Classify(w, pc) == MipsDecoder.Call(v) <==>
            w == 0x0C00_0000 + v % 0x1000_0000 / 4
  {
    var i := MipsAssembler.Direct(true, v);
    MipsAssembler.AssembledIsClassified(i, pc);
    MipsAssembler.DirectFields(3, pc, v);
    MipsAssembler.RegionIsInRegion(w, pc);
    MipsAssembler.InvalidIsReserved(w, pc);
    hide MipsDecoder.Opcode, MipsDecoder.RegionTarget, MipsDecoder.IsLegal, MipsAssembler.Reserved;
  }

  lemma {:induction false} JalBytesOccur(data: seq<Byte>, v: int, i: int)
    requires 0 <= i < |data|
    ensures Occurs(data, JalBytes(v), i) <==>
            i + 4 <= |data| && WordOf(data[i..i + 4]) == 0x0C00_0000 + v % 0x1000_0000 / 4
  {
    var w: Word := 0x0C00_0000 + v % 0x1000_0000 / 4;
    assert JalBytes(v) == BytesOf(w);
    hide JalBytes;
    WordRoundTrip(w);
    if i + 4 <= |data| {
      var b := data[i..i + 4];
      BytesRoundTrip(b);
      hide BytesOf, WordOf;
      assert WordOf(b) == w <==> b == BytesOf(w);
      assert Occurs(data, BytesOf(w), i) <==> b == BytesOf(w) by { OccursHere(data, BytesOf(w), i); }
    }
  }

  lemma {:induction false} OccursHere(data: seq<Byte>, bytes: seq<Byte>, i: nat)
    requires i + |bytes| <= |data| && i < |data|
    ensures Occurs(data, bytes, i) <==> data[i..i + |bytes|] == bytes
  {
    var part := data[i..i + |bytes|];
    assert forall k :: 0 <= k < |bytes| ==> part[k] == data[i + k];
  }

  /** The search of the image finds an entry exactly when the classifier finds a call of it. */
  lemma {:induction false} SearchFindsCalls(data: seq<Byte>, v: int)
    requires 0 <= v < 0x1_0000_0000 && v % 4 == 0
    ensures IsJalTarget(data, v) <==> IsCalled(data, v)
  {
    hide Occurs, MipsDecoder.Classify, MipsDecoder.Opcode, WordOf, JalBytes;
    if i, pc :| CallsAt(data, i, pc, v) {
      JalOf(WordOf(data[i..i + 4]), pc, v);
      JalBytesOccur(data, v, i);
    }
    if i :| 0 <= i < |data| && Occurs(data, JalBytes(v), i) {
      JalBytesOccur(data, v, i);
      JalOf(WordOf(data[i..i + 4]), v, v);
      assert CallsAt(data, i, v, v);
    }
  }

  // An address that an instruction can have
  predicate IsAddress(v: int) { 0 <= v < 0x1_0000_0000 && v % 4 == 0 }

  predicate Between(pair: Pair, v: int) { pair.0 < v <= pair.1 }

  function Required(pair: Pair): int { pair.1 - pair.0 + 4 }

  // The files carried from pass to pass
  datatype Repairs = Repairs(merges: set<int>, need: map<int, int>)

  /** What one pass over the logged pairs adds to the files of the passes before. */
  ghost predicate Accumulated(entries: set<int>, data: seq<Byte>, r: Repairs, pairs: set<Pair>, r': Repairs) {
    && (forall v :: v in r'.merges <==>
          v in r.merges || (v in entries && !IsJalTarget(data, v) && exists pair :: pair in pairs && Between(pair, v)))
    && NeedAccumulated(r.need, pairs, r'.need)
  }

  ghost predicate NeedAccumulated(need: map<int, int>, pairs: set<Pair>, need': map<int, int>) {
    && (forall p :: p in need ==> p in need' && need[p] <= need'[p])
    && (forall pair :: pair in pairs && Required(pair) > 0 ==> pair.0 in need' && Required(pair) <= need'[pair.0])
    && (forall p :: p in need' ==> (p in need && need'[p] == need[p]) || Attained(pairs, p, need'[p]))
  }

  ghost predicate Attained(pairs: set<Pair>, p: int, size: int) {
    size > 0 && (p, p + size - 4) in pairs
  }

  /** The files do not depend on the order of the pairs: only one outcome is possible. */
  lemma {:induction false} AccumulationIsUnique(entries: set<int>, data: seq<Byte>, r: Repairs, pairs: set<Pair>,
                                                a: Repairs, b: Repairs)
    requires Accumulated(entries, data, r, pairs, a) && Accumulated(entries, data, r, pairs, b)
    ensures a == b
  {
    assert forall v :: v in a.merges <==> v in b.merges;
    NeedBelow(r.need, pairs, a.need, b.need);
    NeedBelow(r.need, pairs, b.need, a.need);
    assert forall p :: p in a.need <==> p in b.need;
    assert forall p :: p in a.need ==> a.need[p] == b.need[p];
    assert a.need == b.need;
  }

  lemma {:induction false} NeedBelow(need: map<int, int>, pairs: set<Pair>, a: map<int, int>, b: map<int, int>)
    requires NeedAccumulated(need, pairs, a) && NeedAccumulated(need, pairs, b)
    ensures forall p :: p in a ==> p in b && a[p] <= b[p]
  {
    forall p | p in a
      ensures p in b && a[p] <= b[p]
    {
      if Attained(pairs, p, a[p]) {
        assert Required((p, p + a[p] - 4)) == a[p];
      }
    }
  }

  /** Two passes are one pass over all their pairs, so neither their order nor how the pairs are split
      into logs matters. */
  lemma {:induction false} PassesCompose(entries: set<int>, data: seq<Byte>, r: Repairs, first: set<Pair>, m: Repairs,
                                         second: set<Pair>, r': Repairs)
    requires Accumulated(entries, data, r, first, m) && Accumulated(entries, data, m, second, r')
    ensures Accumulated(entries, data, r, first + second, r')
  {
    forall v
      ensures v in r'.merges <==>
        || v in r.merges
        || (v in entries && !IsJalTarget(data, v) && exists pair :: pair in first + second && Between(pair, v))
    {
      if pair :| pair in first + second && Between(pair, v) {
        assert pair in first || pair in second;
      }
      if pair :| pair in first && Between(pair, v) {
        assert pair in first + second;
      }
      if pair :| pair in second && Between(pair, v) {
        assert pair in first + second;
      }
    }
  }

  /** Once clean, running again over the same log changes nothing. */
  lemma {:induction false} PassIsIdempotent(entries: set<int>, data: seq<Byte>, r: Repairs, pairs: set<Pair>,
                                            m: Repairs, r': Repairs)
    requires Accumulated(entries, data, r, pairs, m) && Accumulated(entries, data, m, pairs, r')
    ensures r' == m
  {
    assert Accumulated(entries, data, m, pairs, m);
    AccumulationIsUnique(entries, data, m, pairs, m, r');
  }

  // The two size files are read with different rules: here the largest line for an address counts.
  function LargestWins(lines: seq<(int, int)>): map<int, int> {
    if lines == [] then map[]
    else Raise(LargestWins(lines[..|lines| - 1]), lines[|lines| - 1].0, lines[|lines| - 1].1)
  }

  function Raise(need: map<int, int>, p: int, size: int): map<int, int> {
    var was := if p in need then need[p] else 0;
    need[p := if size > was then size else was]
  }

  predicate HasLine(lines: seq<(int, int)>, v: int) { exists i :: 0 <= i < |lines| && lines[i].0 == v }

  /** A size is the largest for an address: no line exceeds it, and it is on a line, or 0. */
  predicate IsLargest(lines: seq<(int, int)>, v: int, size: int) {
    && 0 <= size && (forall i :: 0 <= i < |lines| && lines[i].0 == v ==> lines[i].1 <= size)
    && (size == 0 || exists i :: 0 <= i < |lines| && lines[i] == (v, size))
  }

  lemma {:induction false} LargestIsLargest(lines: seq<(int, int)>, v: int)
    ensures v in LargestWins(lines) <==> HasLine(lines, v)
    ensures v in LargestWins(lines) ==> IsLargest(lines, v, LargestWins(lines)[v])
  {
    if lines != [] {
      var init, n := lines[..|lines| - 1], |lines| - 1;
      LargestIsLargest(init, v);
      assert HasLine(lines, v) <==> HasLine(init, v) || lines[n].0 == v;
      if v in LargestWins(init) {
        var was := LargestWins(init)[v];
        assert was == 0 || exists i :: 0 <= i < n && lines[i] == (v, was);
      }
      assert lines[n].0 == v ==> lines[n] == (v, lines[n].1);
    }
  }

  /** What the tool writes: one line for each address, in increasing order. */
  predicate IsFile(need: map<int, int>, lines: seq<(int, int)>) {
    && (forall i, j :: 0 <= i < j < |lines| ==> lines[i].0 < lines[j].0)
    && (forall i :: 0 <= i < |lines| ==> lines[i].0 in need && need[lines[i].0] == lines[i].1)
    && (forall v :: v in need ==> HasLine(lines, v))
  }

  lemma {:induction false} LineThere(lines: seq<(int, int)>, v: int, i: int)
    requires 0 <= i < |lines| && lines[i].0 == v
    ensures HasLine(lines, v)
  {
  }

  /** The writer; keys is sorted(need_size). */
  method WriteSizes(need: map<int, int>, keys: seq<int>) returns (lines: seq<(int, int)>)
    requires forall i, j :: 0 <= i < j < |keys| ==> keys[i] < keys[j]
    requires forall v :: v in keys <==> v in need
    ensures IsFile(need, lines)
  {
    hide HasLine;
    lines := [];
    for i := 0 to |keys|
      invariant |lines| == i
      invariant forall k :: 0 <= k < i ==> keys[k] in need && lines[k] == (keys[k], need[keys[k]])
    {
      assert keys[i] in keys;
      lines := lines + [(keys[i], need[keys[i]])];
    }
    forall v | v in need
      ensures HasLine(lines, v)
    {
      var k :| 0 <= k < |keys| && keys[k] == v;
      LineThere(lines, v, k);
    }
  }

  /** The written file means the same to the generator, for which the last line for an address counts, and
      to the next pass, for which the largest one does. */
  lemma {:induction false} FileReadsBack(need: map<int, int>, lines: seq<(int, int)>)
    requires IsFile(need, lines) && NonNegative(need)
    ensures LastWins(lines) == need && LargestWins(lines) == need
  {
    hide LastWins, LargestWins;
    forall v
      ensures v in LastWins(lines) <==> v in need
      ensures v in LargestWins(lines) <==> v in need
      ensures v in need ==> LastWins(lines)[v] == need[v] == LargestWins(lines)[v]
    {
      LastWinsIsLast(lines, v);
      LargestIsLargest(lines, v);
      if v in need {
        var i :| 0 <= i < |lines| && lines[i].0 == v;
        assert IsLastLine(lines, v, i);
      }
    }
  }

  lemma {:induction false} AccumulatedNonNegative(need: map<int, int>, pairs: set<Pair>, need': map<int, int>)
    requires NeedAccumulated(need, pairs, need') && NonNegative(need)
    ensures NonNegative(need')
  {
  }

  function Pairs(pairs: seq<Pair>): set<Pair> { set pair | pair in pairs }

  ghost predicate NonNegative(need: map<int, int>) { forall p :: p in need ==> need[p] >= 0 }

  function Entries(entryVrams: seq<int>): set<int> { set v | v in entryVrams }

  /** One pass of the tool. */
  method Derive(pairs: seq<Pair>, entryVrams: seq<int>, data: seq<Byte>, oldMerges: set<int>, oldSizes: seq<(int, int)>)
    returns (r: Repairs, kept: set<int>)
    requires forall i, j :: 0 <= i < j < |entryVrams| ==> entryVrams[i] < entryVrams[j]
    ensures Accumulated(Entries(entryVrams), data, Repairs(oldMerges, LargestWins(oldSizes)), Pairs(pairs), r)
    ensures forall v :: v in kept <==>
      v in entryVrams && IsJalTarget(data, v) && exists pair :: pair in pairs && Between(pair, v)
    ensures forall v :: IsAddress(v) ==>
      (v in kept <==> v in entryVrams && IsCalled(data, v) && exists pair :: pair in pairs && Between(pair, v))
    ensures forall v :: IsAddress(v) ==>
      (v in r.merges <==>
        || v in oldMerges
        || (v in entryVrams && !IsCalled(data, v) && exists pair :: pair in pairs && Between(pair, v)))
  {
    hide IsCalled, IsJalTarget;
    var need := LoadSizes(oldSizes);
    r, kept := Repairs(oldMerges, need), {};
    ghost var r0, entries := r, Entries(entryVrams);
    for i := 0 to |pairs|
      invariant NonNegative(r.need)
      invariant Accumulated(entries, data, r0, Pairs(pairs[..i]), r)
      invariant forall v :: v in kept <==>
        v in entryVrams && IsJalTarget(data, v) && exists pair :: pair in pairs[..i] && Between(pair, v)
    {
      ghost var before, keptBefore := r, kept;
      r, kept := DeriveOne(pairs[i], entryVrams, data, r, kept);
      PassesCompose(entries, data, r0, Pairs(pairs[..i]), before, {pairs[i]}, r);
      assert pairs[..i + 1] == pairs[..i] + [pairs[i]];
      assert Pairs(pairs[..i + 1]) == Pairs(pairs[..i]) + {pairs[i]};
      forall v
        ensures v in kept <==>
          v in entryVrams && IsJalTarget(data, v) && exists pair :: pair in pairs[..i + 1] && Between(pair, v)
      {
        assert pairs[i] in pairs[..i + 1];
        if pair :| pair in pairs[..i] && Between(pair, v) { assert pair in pairs[..i + 1]; }
      }
    }
    assert pairs[..|pairs|] == pairs;
    assert forall pair :: pair in Pairs(pairs) <==> pair in pairs;
    forall v | IsAddress(v)
      ensures IsJalTarget(data, v) <==> IsCalled(data, v)
    {
      SearchFindsCalls(data, v);
    }
  }

  method LoadSizes(lines: seq<(int, int)>) returns (need: map<int, int>)
    ensures need == LargestWins(lines) && NonNegative(need)
    ensures forall v :: v in need <==> HasLine(lines, v)
    ensures forall v :: v in need ==> IsLargest(lines, v, need[v])
  {
    hide HasLine, IsLargest;
    need := map[];
    for i := 0 to |lines|
      invariant NonNegative(need)
      invariant need == LargestWins(lines[..i])
    {
      assert lines[..i + 1][..i] == lines[..i];
      var (v, s) := lines[i];
      need := need[v := if v in need then (if s > need[v] then s else need[v]) else (if s > 0 then s else 0)];
    }
    assert lines[..|lines|] == lines;
    forall v
      ensures v in need <==> HasLine(lines, v)
      ensures v in need ==> IsLargest(lines, v, need[v])
    {
      LargestIsLargest(lines, v);
    }
  }

  predicate ListedIn(xs: seq<int>, lo: int, hi: int, v: int)
    requires 0 <= lo && hi <= |xs|
  {
    exists k :: lo <= k < hi && xs[k] == v
  }

  lemma {:induction false} SliceIsBetween(xs: seq<int>, pair: Pair, v: int)
    requires forall i, j :: 0 <= i < j < |xs| ==> xs[i] < xs[j]
    ensures ListedIn(xs, BisectRight(xs, pair.0), BisectRight(xs, pair.1), v) <==> v in xs && Between(pair, v)
  {
    hide BisectRight;
    var lo, hi := BisectRight(xs, pair.0), BisectRight(xs, pair.1);
    if v in xs && Between(pair, v) {
      var k :| 0 <= k < |xs| && xs[k] == v;
      assert lo <= k < hi;
    }
  }

  lemma {:induction false} NoneListed(xs: seq<int>, lo: int, hi: int)
    requires 0 <= hi <= lo <= |xs|
    ensures forall v :: !ListedIn(xs, lo, hi, v)
  {
  }

  lemma {:induction false} ListedNext(xs: seq<int>, lo: int, i: int, v: int)
    requires 0 <= lo <= i < |xs|
    ensures ListedIn(xs, lo, i + 1, v) <==> ListedIn(xs, lo, i, v) || v == xs[i]
  {
    if k :| lo <= k < i && xs[k] == v { assert lo <= k < i + 1; }
  }

  /** The body of the loop over the pairs. */
  method DeriveOne(pair: Pair, entryVrams: seq<int>, data: seq<Byte>, r: Repairs, kept: set<int>)
    returns (r': Repairs, kept': set<int>)
    requires NonNegative(r.need)
    requires forall i, j :: 0 <= i < j < |entryVrams| ==> entryVrams[i] < entryVrams[j]
    ensures NonNegative(r'.need)
    ensures Accumulated(Entries(entryVrams), data, r, {pair}, r')
    ensures forall v :: v in kept' <==> v in kept || (v in entryVrams && Between(pair, v) && IsJalTarget(data, v))
  {
    var merges: set<int>;
    merges, kept' := Absorb(entryVrams, data, BisectRight(entryVrams, pair.0), BisectRight(entryVrams, pair.1),
                            r.merges, kept);
    forall v
      ensures v in merges <==> v in r.merges || (v in entryVrams && Between(pair, v) && !IsJalTarget(data, v))
      ensures v in kept' <==> v in kept || (v in entryVrams && Between(pair, v) && IsJalTarget(data, v))
    {
      SliceIsBetween(entryVrams, pair, v);
    }
    var need := r.need;
    var req := pair.1 - pair.0 + 4;
    if req > (if pair.0 in need then need[pair.0] else 0) {
      need := need[pair.0 := req];
    }
    r' := Repairs(merges, need);
    assert pair in {pair} && Required(pair) == req && pair == (pair.0, pair.0 + req - 4);
  }

  /** The loop over entry_vrams[lo:hi]. */
  method Absorb(entryVrams: seq<int>, data: seq<Byte>, lo: nat, hi: nat, merges: set<int>, kept: set<int>)
    returns (merges': set<int>, kept': set<int>)
    requires lo <= |entryVrams| && hi <= |entryVrams|
    ensures forall v :: v in merges' <==> v in merges || (ListedIn(entryVrams, lo, hi, v) && !IsJalTarget(data, v))
    ensures forall v :: v in kept' <==> v in kept || (ListedIn(entryVrams, lo, hi, v) && IsJalTarget(data, v))
  {
    hide IsJalTarget, ListedIn;
    merges', kept' := merges, kept;
    NoneListed(entryVrams, lo, lo);
    if hi < lo { NoneListed(entryVrams, lo, hi); }
    var i := lo;
    while i < hi
      invariant lo <= i && (i <= hi || i == lo)
      invariant forall v :: v in merges' <==> v in merges || (ListedIn(entryVrams, lo, i, v) && !IsJalTarget(data, v))
      invariant forall v :: v in kept' <==> v in kept || (ListedIn(entryVrams, lo, i, v) && IsJalTarget(data, v))
    {
      var e := entryVrams[i];
      forall v
        ensures ListedIn(entryVrams, lo, i + 1, v) <==> ListedIn(entryVrams, lo, i, v) || v == e
      {
        ListedNext(entryVrams, lo, i, v);
      }
      if IsJalTarget(data, e) {
        kept' := kept' + {e};
      } else {
        merges' := merges' + {e};
      }
      i := i + 1;
    }
  }

  // ---- Both tools together ----------------------------------------------------------

  /** A function that is still chosen between a branching function and its target is a manual addition or
      the target of a jal somewhere in the image: every other entry was merged away. */
  lemma {:induction false} OnlyCalledAreChosen(p: Project, entries: set<int>, data: seq<Byte>, r: Repairs,
                                               pairs: set<Pair>, r': Repairs, pair: Pair, v: int)
    requires Accumulated(entries, data, r, pairs, r') && pair in pairs && Between(pair, v)
    requires (forall f :: f in p.raw ==> f.vram in entries) && r'.merges <= p.drops
    ensures Chosen(p, v).Some? ==> v in p.adds || (v in entries && IsJalTarget(data, v))
  {
    hide IsJalTarget;
    FirstSays(p.raw, v);
  }

  /** A table whose minimum for the branching function covers the target holds the whole instruction there
      exactly when no row lies after the function's start and up to the target. */
  lemma {:induction false} RowCoversBranch(p: Project, sizes: map<int, int>, table: seq<Fn>, pair: Pair, i: nat)
    requires IsTable(p, sizes, table) && i < |table| && table[i].vram == pair.0
    requires MinimumFor(sizes, pair.0) >= Required(pair)
    requires pair.0 <= pair.1 && pair.1 % 4 == 0 && pair.1 + 4 <= p.hi
    ensures pair.1 + 4 <= End(table[i]) <==> forall j :: 0 <= j < |table| ==> !Between(pair, table[j].vram)
  {
    hide Chosen, Emitted;
    assert Row(p, sizes, table, i) && Required(pair) > 0;
    RowFits(p, sizes, table, i);
    NextBeyond(p, sizes, table, pair, i);
    if forall j :: 0 <= j < |table| ==> !Between(pair, table[j].vram) {
      assert i + 1 < |table| ==> !Between(pair, table[i + 1].vram);
      EmittedCovers(Chosen(p, pair.0).value.size, MinimumFor(sizes, pair.0), Limit(table, p.hi, i) - pair.0,
                    Required(pair));
    }
  }

  lemma {:induction false} RowsAreChosen(p: Project, sizes: map<int, int>, table: seq<Fn>, pair: Pair)
    requires IsTable(p, sizes, table)
    ensures (forall j :: 0 <= j < |table| ==> !Between(pair, table[j].vram)) <==>
            (forall v :: Between(pair, v) ==> Chosen(p, v).None?)
  {
    hide Chosen;
    forall v | Chosen(p, v).Some?
      ensures exists j :: 0 <= j < |table| && table[j].vram == v
    {
      FirstSays(table, v);
    }
    forall j | 0 <= j < |table|
      ensures Chosen(p, table[j].vram).Some?
    {
      assert Row(p, sizes, table, j);
    }
  }

  /** The repair of a logged pair, from one tool to the other: the merge tool writes its sizes, the generator
      reads them and a merge list. When the branching function survives, its new body holds the whole
      instruction at the target exactly when the generator's inputs choose no function after its start and
      up to the target. */
  lemma {:induction false} BranchBecomesInternal(p: Project, entries: set<int>, data: seq<Byte>, r: Repairs,
                                                 pairs: set<Pair>, r': Repairs, sizeLines: seq<(int, int)>,
                                                 table: seq<Fn>, pair: Pair, i: nat)
    requires Accumulated(entries, data, r, pairs, r') && NonNegative(r.need) && pair in pairs
    requires IsFile(r'.need, sizeLines) && IsTable(p, LastWins(sizeLines), table)
    requires i < |table| && table[i].vram == pair.0
    requires pair.0 <= pair.1 && pair.1 % 4 == 0 && pair.1 + 4 <= p.hi
    ensures pair.1 + 4 <= End(table[i]) <==> forall v :: Between(pair, v) ==> Chosen(p, v).None?
  {
    hide IsJalTarget, Chosen, Emitted, IsTable, LastWins;
    AccumulatedNonNegative(r.need, pairs, r'.need);
    FileReadsBack(r'.need, sizeLines);
    RowCoversBranch(p, LastWins(sizeLines), table, pair, i);
    RowsAreChosen(p, LastWins(sizeLines), table, pair);
  }

  /** The repair theorem: with the merges of the pass on the drop list, a logged branch from p to t becomes
      internal unless a manual addition, or an entry that is called by a jal, lies after p and up to t. */
  lemma {:induction false} LoggedBranchIsRepaired(p: Project, entries: set<int>, data: seq<Byte>, r: Repairs,
                                                  pairs: set<Pair>, r': Repairs, sizeLines: seq<(int, int)>,
                                                  table: seq<Fn>, pair: Pair, i: nat)
    requires Accumulated(entries, data, r, pairs, r') && NonNegative(r.need) && pair in pairs
    requires IsFile(r'.need, sizeLines) && IsTable(p, LastWins(sizeLines), table)
    requires (forall f :: f in p.raw ==> f.vram in entries) && r'.merges <= p.drops
    requires i < |table| && table[i].vram == pair.0
    requires pair.0 <= pair.1 && pair.1 % 4 == 0 && pair.1 + 4 <= p.hi
    requires forall v :: Between(pair, v) ==> v !in p.adds && !(v in entries && IsJalTarget(data, v))
    ensures pair.1 + 4 <= End(table[i])
  {
    hide IsJalTarget, IsTable, Accumulated, IsFile, LastWins;
    forall v | Between(pair, v)
      ensures Chosen(p, v).None?
    {
      OnlyCalledAreChosen(p, entries, data, r, pairs, r', pair, v);
    }
    BranchBecomesInternal(p, entries, data, r, pairs, r', sizeLines, table, pair, i);
  }

  lemma {:induction false} NextBeyond(p: Project, sizes: map<int, int>, table: seq<Fn>, pair: Pair, i: nat)
    requires IsTable(p, sizes, table) && i < |table| && table[i].vram == pair.0 && pair.1 % 4 == 0
    ensures i + 1 < |table| && !Between(pair, table[i + 1].vram) ==> pair.1 + 4 <= table[i + 1].vram
    ensures forall j :: 0 <= j < |table| && Between(pair, table[j].vram) ==> i < j && table[i + 1].vram <= table[j].vram
  {
    hide Chosen, Emitted;
    if i + 1 < |table| { RowFits(p, sizes, table, i + 1); }
  }

  lemma {:induction false} EmittedCovers(size: int, minimum: int, room: int, required: int)
    requires 0 < required <= minimum && required <= room && required % 4 == 0
    ensures required <= Emitted(size, minimum, room)
  {
  }
}

/** rsp/njpgdspMain.cpp: the block loop of the JPEG microcode. It reads block k + 1 while block k is being
    decoded, writes block k - 1 over its own input, and can be preempted after every block: it saves seven
    registers in DMEM, stores DMEM in the yield buffer and stops, to be restored by a later run.
    The product of a matrix and its table, and what is done with the ordered coefficients, are left
    uninterpreted; DMA is atomic. */
module JpegBlockLoop {

  import opened Basics
  import opened SpMemory
  import JpegReorder
  import JpegDequantise

  const TABLES := 0x1E0   // constants and quantisation tables lie below the block
  const BLOCK := 0x1E0
  const SCRATCH := 0x4E0
  const OUTPUT := 0xC60

  // ---- One picture ------------------------------------------------------------------------

  // Four to six matrices a block: SequentialExactly says why not more.
  type Mode = m: int | 0 <= m <= 2

  type Low = t: seq<Byte> | |t| == TABLES witness seq(TABLES, _ => 0)

  /** What a picture is decoded with: its blocks start at base, tables is DMEM below the block, scale and
      finish are the uninterpreted parts of the decoding. */
  datatype Picture = Picture(base: nat, count: nat, mode: Mode, tables: Low, scale: JpegDequantise.Scaling,
                             finish: (seq<Byte>, Mode, seq<Byte>) -> seq<Byte>)
  {
    predicate Large() { 0 < mode }

    function Stride(): nat { if Large() then 0x300 else 0x200 }
    function OutLen(): nat { if Large() then 0x200 else 0x100 }

    /** Where block k starts. */
    function At(k: nat): nat { if Large() then base + 0x300 * k else base + 0x200 * k }

    function Block(m: seq<Byte>, k: nat): seq<Byte>
      requires At(k) + Stride() <= |m|
    {
      m[At(k)..At(k) + Stride()]
    }

    /** The coefficients of a block, in order. */
    function Dequantised(block: seq<Byte>): seq<Byte>
      requires |block| == Stride()
    {
      JpegDequantise.Coefficients(tables, mode, block, scale, mode + 4)
    }

    /** The decoded block: the sequential specification. */
    function Decoded(m: seq<Byte>, k: nat): seq<Byte>
      requires At(k) + Stride() <= |m|
    {
      finish(tables, mode, Dequantised(Block(m, k)))
    }

    // The bytes that the first done blocks are written to
    predicate Touched(done: nat, x: int) {
      base <= x < At(done) && if Large() then (x - base) % 0x300 < 0x200 else (x - base) % 0x200 < 0x100
    }

    ghost predicate Valid() {
      && 1 <= count < 0x8000_0000
      && (forall t, md, s :: |finish(t, md, s)| == OutLen())
    }
  }

  datatype Task = Task(flags: Word, dataPtr: Word, dataSize: Word, yieldPtr: Word, yieldSize: Word)
  {
    predicate InYieldBuffer(x: int) { yieldPtr <= x < yieldPtr + yieldSize }
  }

  // ---- What the entry code and the status register decide ------------------------------------

  /** The entry code reads the flags and the yield buffer only when the flag with value 2 is set. */
  predicate Rereads(flags: Word) { flags / 2 % 2 == 1 }

  /** Whether saved registers are restored: without that flag it is decided by what r22 holds already. */
  predicate Restores(flags: Word, r22: Word) { (if Rereads(flags) then flags else r22) % 2 == 1 }

  // The yield bit of SP_STATUS
  predicate YieldAsked(status: Word) { status / 0x80 % 2 == 1 }

  /** A task that finds the yield bit set when it enters stops before it has done anything. */
  predicate TurnedAway(flags: Word, entry: Word) { Rereads(flags) && YieldAsked(entry) }

  datatype Exit = Refused | Yielded | Done

  /** The flag of value 1 decides for every content of r22 exactly when the flag of value 2 is set. */
  lemma {:induction false} RestoreFollowsFlags(flags: Word)
    ensures (forall r22: Word :: Restores(flags, r22) <==> flags % 2 == 1) <==> Rereads(flags)
  {
    var other: Word := if flags % 2 == 1 then 0 else 1;
    assert !Rereads(flags) ==> (Restores(flags, other) <==> flags % 2 == 0);
    assert Rereads(flags) ==> forall r22: Word :: Restores(flags, r22) <==> flags % 2 == 1;
    hide Restores, Rereads;
  }

  /** The picture and the yield buffer lie in memory and do not meet; DMEM up to the saved registers fits
      in the yield buffer. */
  ghost predicate Fits(task: Task, pic: Picture, size: nat) {
    && pic.Valid() && size <= 0x80_0000 && pic.At(pic.count) <= size
    && 0x1FC <= task.yieldSize <= DMEM && task.yieldPtr + task.yieldSize <= size
    && (pic.At(pic.count) <= task.yieldPtr || task.yieldPtr + task.yieldSize <= pic.base)
  }

  /** Memory once the first `done` blocks were written: each decoded block covers the start of its own
      input, and outside the yield buffer nothing else changed. */
  ghost predicate Progress(task: Task, pic: Picture, orig: seq<Byte>, m: seq<Byte>, done: nat)
    requires Fits(task, pic, |orig|)
  {
    && |m| == |orig| && done <= pic.count
    && (forall k :: 0 <= k < done ==> BlockDone(task, pic, orig, m, k))
    && (forall x :: 0 <= x < |m| && !task.InYieldBuffer(x) && !pic.Touched(done, x) ==> m[x] == orig[x])
  }

  ghost predicate BlockDone(task: Task, pic: Picture, orig: seq<Byte>, m: seq<Byte>, k: nat)
    requires Fits(task, pic, |orig|) && |m| == |orig| && k < pic.count
  {
    m[pic.At(k)..pic.At(k) + pic.OutLen()] == pic.Decoded(orig, k)
  }

  lemma {:induction false} TouchedNext(pic: Picture, done: nat, x: int)
    ensures pic.Touched(done + 1, x) <==> pic.Touched(done, x) || pic.At(done) <= x < pic.At(done) + pic.OutLen()
    ensures pic.Touched(done, x) ==> x < pic.At(done)
  {
  }

  /** The next input block is still what it was. */
  lemma {:induction false} InputIntact(task: Task, pic: Picture, orig: seq<Byte>, m: seq<Byte>, done: nat, k: nat)
    requires Fits(task, pic, |orig|) && Progress(task, pic, orig, m, done) && done <= k < pic.count
    ensures pic.Block(m, k) == pic.Block(orig, k)
  {
    forall j | 0 <= j < pic.Stride()
      ensures pic.Block(m, k)[j] == pic.Block(orig, k)[j]
    {
      TouchedNext(pic, done, pic.At(k) + j);
    }
  }

  /** Writing the next decoded block makes one step of progress. */
  lemma {:induction false} WriteBlock(task: Task, pic: Picture, orig: seq<Byte>, m: seq<Byte>, done: nat)
    requires Fits(task, pic, |orig|) && Progress(task, pic, orig, m, done) && done < pic.count
    ensures Progress(task, pic, orig, Put(m, pic.At(done), pic.Decoded(orig, done)), done + 1)
  {
    var m' := Put(m, pic.At(done), pic.Decoded(orig, done));
    forall k | 0 <= k < done + 1
      ensures BlockDone(task, pic, orig, m', k)
    {
      if k < done {
        assert BlockDone(task, pic, orig, m, k);
        PutElsewhere(m, pic.At(done), pic.Decoded(orig, done), pic.At(k), pic.At(k) + pic.OutLen());
      }
    }
    forall x | 0 <= x < |m'| && !task.InYieldBuffer(x) && !pic.Touched(done + 1, x)
      ensures m'[x] == orig[x]
    {
      TouchedNext(pic, done, x);
    }
  }

  /** Writing into the yield buffer changes no progress. */
  lemma {:induction false} WriteYieldBuffer(task: Task, pic: Picture, orig: seq<Byte>, m: seq<Byte>, done: nat,
                                            bytes: seq<Byte>)
    requires Fits(task, pic, |orig|) && Progress(task, pic, orig, m, done) && |bytes| == task.yieldSize
    ensures Progress(task, pic, orig, Put(m, task.yieldPtr, bytes), done)
  {
    var m' := Put(m, task.yieldPtr, bytes);
    forall k | 0 <= k < done
      ensures BlockDone(task, pic, orig, m', k)
    {
      assert BlockDone(task, pic, orig, m, k);
      assert pic.base <= pic.At(k) && pic.At(k) + pic.OutLen() <= pic.At(pic.count);
      PutElsewhere(m, task.yieldPtr, bytes, pic.At(k), pic.At(k) + pic.OutLen());
    }
  }

  /** Two finished memories agree everywhere outside the yield buffer. */
  lemma {:induction false} OutputIsUnique(task: Task, pic: Picture, orig: seq<Byte>, m: seq<Byte>, n: seq<Byte>, x: int)
    requires Fits(task, pic, |orig|)
    requires Progress(task, pic, orig, m, pic.count) && Progress(task, pic, orig, n, pic.count)
    requires 0 <= x < |orig| && !task.InYieldBuffer(x)
    ensures m[x] == n[x]
  {
    if pic.Touched(pic.count, x) {
      var k := (x - pic.base) / pic.Stride();
      var j := (x - pic.base) % pic.Stride();
      assert x == pic.At(k) + j && 0 <= k < pic.count && j < pic.OutLen();
      assert BlockDone(task, pic, orig, m, k) && BlockDone(task, pic, orig, n, k);
      assert m[pic.At(k)..pic.At(k) + pic.OutLen()][j] == m[x];
      assert n[pic.At(k)..pic.At(k) + pic.OutLen()][j] == n[x];
    }
  }

  // ---- The microcode ---------------------------------------------------------------------------

  /** What DMEM holds for block b to go on with: the tables, and seven registers below 0x1FC. */
  ghost predicate Saved(pic: Picture, dmem: seq<Byte>, b: nat)
    requires |dmem| >= 0x1FC
  {
    && 1 <= b < pic.count && dmem[..TABLES] == pic.tables
    && WordOf(dmem[0x1E0..0x1E4]) == pic.count - b
    && WordOf(dmem[0x1E4..0x1E8]) == pic.At(b)
    && WordOf(dmem[0x1E8..0x1EC]) == pic.At(b - 1)
    && WordOf(dmem[0x1EC..0x1F0]) == pic.mode
    && WordOf(dmem[0x1F0..0x1F4]) == pic.Stride() - 1
    && WordOf(dmem[0x1F4..0x1F8]) == pic.OutLen() - 1
    && WordOf(dmem[0x1F8..0x1FC]) == pic.Stride()
  }

  // A word of the picture header in RDRAM
  function Header(task: Task, m: seq<Byte>, i: nat): Word
    requires task.dataPtr + 24 <= |m| && i < 6
  {
    WordOf(m[task.dataPtr + 4 * i..task.dataPtr + 4 * i + 4])
  }

  /** The header a fresh task starts from describes the picture: base, count, mode and the addresses of
      three quantisation tables; low is what the boot code left in DMEM below the tables. */
  ghost predicate Described(task: Task, pic: Picture, low: seq<Byte>, m: seq<Byte>) {
    && |low| == 0x60 && 24 <= task.dataSize <= DMEM - BLOCK && task.dataPtr + task.dataSize <= |m|
    && pic.base == Header(task, m, 0) && pic.count == Header(task, m, 1) && pic.mode == Header(task, m, 2)
    && (forall i :: 3 <= i < 6 ==> Header(task, m, i) + 0x80 <= |m|)
    && pic.tables == low + m[Header(task, m, 3)..Header(task, m, 3) + 0x80]
                         + m[Header(task, m, 4)..Header(task, m, 4) + 0x80]
                         + m[Header(task, m, 5)..Header(task, m, 5) + 0x80]
  }

  lemma {:induction false} HeaderLoaded(task: Task, m: seq<Byte>, dmem: seq<Byte>, i: nat)
    requires i < 6 && 24 <= task.dataSize <= DMEM - BLOCK && task.dataPtr + task.dataSize <= |m| && |dmem| == DMEM
    ensures var d := Put(dmem, BLOCK, m[task.dataPtr..task.dataPtr + task.dataSize]);
            WordOf(d[BLOCK + 4 * i..BLOCK + 4 * i + 4]) == Header(task, m, i)
  {
    var bytes := m[task.dataPtr..task.dataPtr + task.dataSize];
    PutHere(dmem, BLOCK, bytes, 4 * i, 4 * i + 4);
    SliceOfSlice(m, task.dataPtr, task.dataPtr + task.dataSize, 4 * i, 4 * i + 4);
  }

  // The seven words of the save area
  function SaveArea(r3: Word, r25: Word, r26: Word, r9: Word, r10: Word, r11: Word, r12: Word): (b: seq<Byte>)
    ensures |b| == 28
  {
    BytesOf(r3) + BytesOf(r25) + BytesOf(r26) + BytesOf(r9) + BytesOf(r10) + BytesOf(r11) + BytesOf(r12)
  }

  lemma {:induction false} SaveAreaReads(m: seq<Byte>, r3: Word, r25: Word, r26: Word, r9: Word, r10: Word, r11: Word,
                                         r12: Word)
    requires |m| >= 0x1FC
    ensures var d := Put(m, 0x1E0, SaveArea(r3, r25, r26, r9, r10, r11, r12));
            && d[..TABLES] == m[..TABLES] && d[0x1FC..] == m[0x1FC..]
            && WordOf(d[0x1E0..0x1E4]) == r3 && WordOf(d[0x1E4..0x1E8]) == r25 && WordOf(d[0x1E8..0x1EC]) == r26
            && WordOf(d[0x1EC..0x1F0]) == r9 && WordOf(d[0x1F0..0x1F4]) == r10 && WordOf(d[0x1F4..0x1F8]) == r11
            && WordOf(d[0x1F8..0x1FC]) == r12
  {
    hide WordOf, BytesOf;
    var s := SaveArea(r3, r25, r26, r9, r10, r11, r12);
    WordRoundTrip(r3); WordRoundTrip(r25); WordRoundTrip(r26); WordRoundTrip(r9);
    WordRoundTrip(r10); WordRoundTrip(r11); WordRoundTrip(r12);
    assert s[0..4] == BytesOf(r3) && s[4..8] == BytesOf(r25) && s[8..12] == BytesOf(r26) && s[12..16] == BytesOf(r9);
    assert s[16..20] == BytesOf(r10) && s[20..24] == BytesOf(r11) && s[24..28] == BytesOf(r12);
    hide SaveArea;
    PutHere(m, 0x1E0, s, 0, 4);
    PutHere(m, 0x1E0, s, 4, 8);
    PutHere(m, 0x1E0, s, 8, 12);
    PutHere(m, 0x1E0, s, 12, 16);
    PutHere(m, 0x1E0, s, 16, 20);
    PutHere(m, 0x1E0, s, 20, 24);
    PutHere(m, 0x1E0, s, 24, 28);
    PutElsewhere(m, 0x1E0, s, 0, TABLES);
    PutElsewhere(m, 0x1E0, s, 0x1FC, |m|);
  }

  class Microcode {
    const scale: JpegDequantise.Scaling
    const finish: (seq<Byte>, Mode, seq<Byte>) -> seq<Byte>
    var rdram: seq<Byte>
    var dmem: seq<Byte>
    var r2: Word
    var r3: Word
    var r9: Word
    var r10: Word
    var r11: Word
    var r12: Word
    var r22: Word
    var r23: Word
    var r24: Word
    var r25: Word
    var r26: Word
    var v24: JpegReorder.Matrix   // v24 to v31

    method DmaRead(dram: nat, mem: nat, len: nat)
      requires dram + len <= |rdram| && mem + len <= |dmem|
      modifies this`dmem
      ensures dmem == Put(old(dmem), mem, rdram[dram..dram + len])
    {
      dmem := Put(dmem, mem, rdram[dram..dram + len]);
    }

    method DmaWrite(mem: nat, dram: nat, len: nat)
      requires dram + len <= |rdram| && mem + len <= |dmem|
      modifies this`rdram
      ensures rdram == Put(old(rdram), dram, dmem[mem..mem + len])
    {
      rdram := Put(rdram, dram, dmem[mem..mem + len]);
    }

    method Store(p: nat, w: Word)
      requires p + 4 <= |dmem|
      modifies this`dmem
      ensures dmem == Put(old(dmem), p, BytesOf(w)) && Load(dmem, p) == w
    {
      WordRoundTrip(w);
      dmem := Put(dmem, p, BytesOf(w));
      assert dmem[p..p + 4] == BytesOf(w);
    }

    /** The task as the entry code sees it: without the flag of value 2 the pointer register stays. */
    function Seen(task: Task): Task
      reads this`r23
    {
      task.(yieldPtr := if Rereads(task.flags) then task.yieldPtr else r23)
    }

    /** L_1064 to L_10BC, with L_103C and L_1050: entry is what SP_STATUS reads at the start. */
    method Enter(task: Task, entry: Word) returns (refused: bool, restored: bool)
      requires |dmem| == DMEM
      modifies this
      ensures rdram == old(rdram) && dmem == old(dmem)
      ensures refused <==> TurnedAway(task.flags, entry)
      ensures refused ==> r22 == old(r22) && r23 == old(r23)
      ensures !refused ==>
        && (restored <==> Restores(task.flags, old(r22)))
        && r23 == old(Seen(task)).yieldPtr && r24 == task.yieldSize
      ensures !refused && restored ==>
        && r3 == Load(dmem, 0x1E0) && r25 == Load(dmem, 0x1E4) && r26 == Load(dmem, 0x1E8)
        && r9 == Load(dmem, 0x1EC) && r10 == Load(dmem, 0x1F0) && r11 == Load(dmem, 0x1F4)
        && r12 == Load(dmem, 0x1F8)
    {
      hide WordOf, Load;
      r2 := task.flags / 2 % 2;
      if r2 != 0 {
        if entry / 0x80 % 2 != 0 {
          return true, false;
        }
        r22 := task.flags;
        r23 := task.yieldPtr;
      }
      r24 := task.yieldSize;
      r22 := r22 % 2;
      if r22 == 0 {
        return false, false;
      }
      RestoreRegisters();
      return false, true;
    }

    /** The seven saved registers. */
    method RestoreRegisters()
      requires |dmem| == DMEM
      modifies this`r3, this`r9, this`r10, this`r11, this`r12, this`r25, this`r26
      ensures r3 == Load(dmem, 0x1E0) && r25 == Load(dmem, 0x1E4) && r26 == Load(dmem, 0x1E8)
      ensures r9 == Load(dmem, 0x1EC) && r10 == Load(dmem, 0x1F0) && r11 == Load(dmem, 0x1F4)
      ensures r12 == Load(dmem, 0x1F8)
    {
      hide WordOf, Load;
      r3 := Load(dmem, 0x1E0);
      r25 := Load(dmem, 0x1E4);
      r26 := Load(dmem, 0x1E8);
      r9 := Load(dmem, 0x1EC);
      r10 := Load(dmem, 0x1F0);
      r11 := Load(dmem, 0x1F4);
      r12 := Load(dmem, 0x1F8);
    }

    // The registers before block b is fetched
    ghost predicate Registers(task: Task, pic: Picture, b: nat)
      reads this
    {
      && |dmem| == DMEM && dmem[..TABLES] == pic.tables
      && r3 == pic.count - b && r9 == pic.mode
      && r10 == pic.Stride() - 1 && r11 == pic.OutLen() - 1 && r12 == pic.Stride()
      && r23 == task.yieldPtr && r24 == task.yieldSize
      && Add32(r26, r12) == pic.At(b)
    }

    /** L_10BC to L_1134: the header, the three tables, and the constants of the mode. */
    method Begin(task: Task, ghost pic: Picture)
      requires |dmem| == DMEM && Fits(task, pic, |rdram|) && Described(task, pic, dmem[..0x60], rdram)
      requires r23 == task.yieldPtr && r24 == task.yieldSize
      modifies this
      ensures rdram == old(rdram) && Registers(task, pic, 0) && r25 == pic.base
    {
      hide Picture.Valid, Picture.At, WordOf;
      ghost var was := dmem;
      DmaRead(task.dataPtr, BLOCK, task.dataSize);
      PutElsewhere(was, BLOCK, rdram[task.dataPtr..task.dataPtr + task.dataSize], 0, 0x60);
      forall i: nat | i < 6
        ensures Load(dmem, BLOCK + 4 * i) == Header(task, rdram, i)
      {
        HeaderLoaded(task, rdram, was, i);
      }
      LoadTables(task, pic);
      HeaderAt(task, 0);
      HeaderAt(task, 1);
      HeaderAt(task, 2);
      SetMode(task, pic);
    }

    lemma {:induction false} HeaderAt(task: Task, i: nat)
      requires |dmem| == DMEM && task.dataPtr + 24 <= |rdram| && i < 6
      requires forall j: nat :: j < 6 ==> Load(dmem, BLOCK + 4 * j) == Header(task, rdram, j)
      ensures Load(dmem, BLOCK + 4 * i) == Header(task, rdram, i)
    {
    }

    /** L_1104 to L_1134 */
    method SetMode(task: Task, ghost pic: Picture)
      requires |dmem| == DMEM && dmem[..TABLES] == pic.tables
      requires Load(dmem, 0x1E0) == pic.base && Load(dmem, 0x1E4) == pic.count && Load(dmem, 0x1E8) == pic.mode
      requires r23 == task.yieldPtr && r24 == task.yieldSize
      modifies this`r3, this`r9, this`r10, this`r11, this`r12, this`r25, this`r26
      ensures Registers(task, pic, 0) && r25 == pic.base
    {
      hide WordOf, Load, Add32, Sub32;
      r9 := Load(dmem, 0x1E8);
      r25 := Load(dmem, 0x1E0);
      r3 := Load(dmem, 0x1E4);
      if 0 < r9 < 0x8000_0000 {
        r10, r11, r12 := 0x2FF, 0x1FF, 0x300;
      } else {
        r10, r11, r12 := 0x1FF, 0xFF, 0x200;
      }
      AddSub(r25, r12);
      r26 := Sub32(r25, r12);
    }

    /** Three DMAs of 0x80 bytes, from the addresses in the last three header words. */
    method LoadTables(task: Task, ghost pic: Picture)
      requires |dmem| == DMEM && Fits(task, pic, |rdram|) && Described(task, pic, dmem[..0x60], rdram)
      requires forall i: nat :: i < 6 ==> Load(dmem, BLOCK + 4 * i) == Header(task, rdram, i)
      modifies this`dmem
      ensures |dmem| == DMEM && dmem[..TABLES] == pic.tables
      ensures forall i: nat :: i < 6 ==> Load(dmem, BLOCK + 4 * i) == Header(task, rdram, i)
    {
      hide WordOf, Picture.Valid, Picture.At, Load;
      LoadTable(task, 3, 0x60);
      LoadTable(task, 4, 0xE0);
      LoadTable(task, 5, 0x160);
    }

    method LoadTable(task: Task, n: nat, mem: nat)
      requires |dmem| == DMEM && task.dataPtr + 24 <= |rdram| && n < 6 && mem + 0x80 <= BLOCK
      requires forall i: nat :: i < 6 ==> Load(dmem, BLOCK + 4 * i) == Header(task, rdram, i)
      requires Header(task, rdram, n) + 0x80 <= |rdram|
      modifies this`dmem
      ensures |dmem| == DMEM
      ensures forall i: nat :: i < 6 ==> Load(dmem, BLOCK + 4 * i) == Header(task, rdram, i)
      ensures dmem[..mem + 0x80] == old(dmem)[..mem] + rdram[Header(task, rdram, n)..Header(task, rdram, n) + 0x80]
    {
      ghost var was := dmem;
      var dram := Load(dmem, BLOCK + 4 * n);
      DmaRead(dram, mem, 0x80);
      forall i: nat | i < 6
        ensures Load(dmem, BLOCK + 4 * i) == Header(task, rdram, i)
      {
        PutElsewhere(was, mem, rdram[dram..dram + 0x80], BLOCK + 4 * i, BLOCK + 4 * i + 4);
      }
    }

    // The block in DMEM
    ghost predicate Fetched(pic: Picture, orig: seq<Byte>, b: nat)
      reads this`dmem
    {
      |dmem| == DMEM && pic.At(b) + pic.Stride() <= |orig| && dmem[BLOCK..BLOCK + pic.Stride()] == pic.Block(orig, b)
    }

    // The coefficients of the block in DMEM
    ghost predicate Ready(pic: Picture, orig: seq<Byte>, b: nat)
      reads this`dmem
    {
      && |dmem| == DMEM && pic.At(b) + pic.Stride() <= |orig|
      && dmem[JpegReorder.ORDERED..JpegReorder.ORDERED + 0x80 * (pic.mode + 4)] == pic.Dequantised(pic.Block(orig, b))
    }

    // The decoded block in DMEM
    ghost predicate Produced(pic: Picture, orig: seq<Byte>, b: nat)
      reads this`dmem
    {
      |dmem| == DMEM && pic.At(b) + pic.Stride() <= |orig| &&
        dmem[OUTPUT..OUTPUT + pic.OutLen()] == pic.Decoded(orig, b)
    }

    /** L_1160 before block b: it is fetched, and unless the run starts with it, block b - 1 is decoded
        but not yet written. */
    ghost predicate InLoop(task: Task, pic: Picture, orig: seq<Byte>, b: nat)
      reads this
      requires Fits(task, pic, |orig|)
    {
      && pic.scale == scale && pic.finish == finish
      && b < pic.count && Registers(task, pic, b) && Fetched(pic, orig, b) && r25 == pic.At(b + 1)
      && if r2 == r3 then Progress(task, pic, orig, rdram, b)
         else b >= 1 && r2 > r3 && r26 == pic.At(b - 1)
              && Produced(pic, orig, b - 1) && Progress(task, pic, orig, rdram, b - 1)
    }

    /** L_186C: block b is decoded but not written, and the next one, if any, is fetched. */
    ghost predicate AfterBlock(task: Task, pic: Picture, orig: seq<Byte>, b: nat)
      reads this
      requires Fits(task, pic, |orig|)
    {
      && pic.scale == scale && pic.finish == finish
      && b < pic.count && Registers(task, pic, b + 1) && r26 == pic.At(b) && r25 == pic.At(b + 1) && r2 > r3
      && Produced(pic, orig, b) && Progress(task, pic, orig, rdram, b)
      && (b + 1 < pic.count ==> Fetched(pic, orig, b + 1))
    }

    lemma {:induction false} AtNext(pic: Picture, b: nat)
      ensures pic.At(b + 1) == pic.At(b) + pic.Stride()
      ensures pic.base <= pic.At(b) && (b < pic.count ==> pic.At(b) + pic.Stride() <= pic.At(pic.count))
    {
    }

    /** L_1138 to L_1160: the first fetch of a run. */
    method FirstFetch(task: Task, ghost pic: Picture, ghost orig: seq<Byte>, ghost b: nat)
      requires Fits(task, pic, |orig|) && Progress(task, pic, orig, rdram, b) && b < pic.count
      requires pic.scale == scale && pic.finish == finish
      requires Registers(task, pic, b) && r25 == pic.At(b)
      modifies this`dmem, this`r2, this`r25
      ensures InLoop(task, pic, orig, b) && r2 == r3 && rdram == old(rdram)
    {
      hide BlockDone;
      AtNext(pic, b);
      InputIntact(task, pic, orig, rdram, b, b);
      ghost var was := dmem;
      DmaRead(r25, BLOCK, r10 + 1);
      PutHere(was, BLOCK, pic.Block(orig, b), 0, pic.Stride());
      PutElsewhere(was, BLOCK, pic.Block(orig, b), 0, TABLES);
      assert pic.Block(orig, b)[0..pic.Stride()] == pic.Block(orig, b);
      r2 := r3;
      r25 := Add32(r25, r12);
    }

    /** L_1160 to L_186C: write the pending block, dequantise this one, fetch the next one into the space
        of this one, finish this one. */
    method DoBlock(task: Task, ghost pic: Picture, ghost orig: seq<Byte>, ghost b: nat)
      requires Fits(task, pic, |orig|) && InLoop(task, pic, orig, b)
      modifies this`rdram, this`dmem, this`r3, this`r26, this`v24
      ensures AfterBlock(task, pic, orig, b)
    {
      AtNext(pic, b);
      if r2 != r3 {
        FlushPending(task, pic, orig, b - 1);
      }
      Dequantise(task, pic, orig, b);
      Prefetch(task, pic, orig, b);
      Finish(task, pic, orig, b);
    }

    method FlushPending(task: Task, ghost pic: Picture, ghost orig: seq<Byte>, ghost b: nat)
      requires Fits(task, pic, |orig|) && b < pic.count && Produced(pic, orig, b) && Progress(task, pic, orig, rdram, b)
      requires r26 == pic.At(b) && r11 == pic.OutLen() - 1
      modifies this`rdram
      ensures Progress(task, pic, orig, rdram, b + 1)
      ensures |old(rdram)| == |orig|
      ensures rdram[task.yieldPtr..task.yieldPtr + task.yieldSize]
           == old(rdram)[task.yieldPtr..task.yieldPtr + task.yieldSize]
    {
      hide BlockDone;
      AtNext(pic, b);
      WriteBlock(task, pic, orig, rdram, b);
      PutElsewhere(rdram, pic.At(b), pic.Decoded(orig, b), task.yieldPtr, task.yieldPtr + task.yieldSize);
      DmaWrite(OUTPUT, r26, r11 + 1);
    }

    /** L_1174 to L_13D8, with the counters: the coefficients of the block. */
    method Dequantise(task: Task, ghost pic: Picture, ghost orig: seq<Byte>, ghost b: nat)
      requires Fits(task, pic, |orig|) && b < pic.count && pic.scale == scale
      requires Registers(task, pic, b) && Fetched(pic, orig, b)
      modifies this`dmem, this`r3, this`r26
      ensures Registers(task, pic, b + 1) && r26 == pic.At(b) && Ready(pic, orig, b)
    {
      hide JpegDequantise.Coefficients;
      AtNext(pic, b);
      r3 := Sub32(r3, 1);
      dmem := JpegDequantise.DequantiseBlock(dmem, r9, scale, v24, pic.Block(orig, b));
      r26 := Add32(r26, r12);
    }

    /** L_13D8 to L_13EC */
    method Prefetch(task: Task, ghost pic: Picture, ghost orig: seq<Byte>, ghost b: nat)
      requires Fits(task, pic, |orig|) && b < pic.count && Registers(task, pic, b + 1) && r25 == pic.At(b + 1)
      requires Progress(task, pic, orig, rdram, b) && Ready(pic, orig, b)
      modifies this`dmem
      ensures Registers(task, pic, b + 1) && Ready(pic, orig, b)
      ensures b + 1 < pic.count ==> Fetched(pic, orig, b + 1)
    {
      hide BlockDone;
      AtNext(pic, b + 1);
      if r3 != 0 {
        InputIntact(task, pic, orig, rdram, b, b + 1);
        ghost var was, block := dmem, pic.Block(orig, b + 1);
        DmaRead(r25, BLOCK, r10 + 1);
        PutHere(was, BLOCK, block, 0, pic.Stride());
        PutElsewhere(was, BLOCK, block, 0, TABLES);
        PutElsewhere(was, BLOCK, block, JpegReorder.ORDERED, JpegReorder.ORDERED + 0x80 * (pic.mode + 4));
        assert block[0..pic.Stride()] == block;
      }
    }

    /** L_13EC to L_186C: what is done with the coefficients leaves the output behind, and nothing is known
        of the rest of DMEM behind the block and of the vector registers. */
    method Finish(task: Task, ghost pic: Picture, ghost orig: seq<Byte>, ghost b: nat)
      requires Fits(task, pic, |orig|) && b < pic.count && pic.scale == scale && pic.finish == finish
      requires Registers(task, pic, b + 1) && (b + 1 < pic.count ==> Fetched(pic, orig, b + 1)) && Ready(pic, orig, b)
      modifies this`dmem, this`v24
      ensures Registers(task, pic, b + 1) && (b + 1 < pic.count ==> Fetched(pic, orig, b + 1))
      ensures Produced(pic, orig, b)
    {
      AtNext(pic, b);
      var out := finish(dmem[..TABLES], r9, dmem[JpegReorder.ORDERED..JpegReorder.ORDERED + 0x80 * (r9 + 4)]);
      v24 := *;
      var work: seq<Byte> := *;
      ghost var was := dmem;
      if |work| == DMEM - SCRATCH {   // any bytes at all
        dmem := Put(dmem, SCRATCH, work);
        PutElsewhere(was, SCRATCH, work, 0, TABLES);
        PutElsewhere(was, SCRATCH, work, BLOCK, BLOCK + pic.Stride());
        was := dmem;
      }
      dmem := Put(dmem, OUTPUT, out);
      PutHere(was, OUTPUT, out, 0, pic.OutLen());
      PutElsewhere(was, OUTPUT, out, 0, TABLES);
      PutElsewhere(was, OUTPUT, out, BLOCK, BLOCK + pic.Stride());
      assert out[0..pic.OutLen()] == out;
    }

    /** L_1874 from 1661: seven registers into DMEM, DMEM into the yield buffer. */
    method Save(task: Task, ghost pic: Picture, ghost orig: seq<Byte>, ghost b: nat)
      requires Fits(task, pic, |orig|) && AfterBlock(task, pic, orig, b) && b + 1 < pic.count
      modifies this`rdram, this`dmem
      ensures |rdram| == |orig| && |dmem| == DMEM && dmem[OUTPUT..] == old(dmem[OUTPUT..])
      ensures Progress(task, pic, orig, rdram, b)
      ensures Saved(pic, rdram[task.yieldPtr..task.yieldPtr + task.yieldSize], b + 1)
    {
      hide BlockDone, WordOf, BytesOf, SaveArea;
      AtNext(pic, b);
      ghost var was := dmem;
      StoreAll();
      SaveAreaReads(was, r3, r25, r26, r9, r10, r11, r12);
      ghost var saved := dmem[0..r24];
      SavedPrefix(pic, dmem, saved, b + 1);
      WriteYieldBuffer(task, pic, orig, rdram, b, saved);
      ghost var ram := rdram;
      DmaWrite(0, r23, r24);
      PutHere(ram, task.yieldPtr, saved, 0, task.yieldSize);
      assert saved[0..task.yieldSize] == saved;
      SliceOfSlice(dmem, 0x1FC, DMEM, OUTPUT - 0x1FC, DMEM - 0x1FC);
      SliceOfSlice(was, 0x1FC, DMEM, OUTPUT - 0x1FC, DMEM - 0x1FC);
    }

    method StoreAll()
      requires |dmem| == DMEM
      modifies this`dmem
      ensures dmem == Put(old(dmem), 0x1E0, SaveArea(r3, r25, r26, r9, r10, r11, r12))
    {
      hide BytesOf, Put, WordOf;
      ghost var m := dmem;
      Store(0x1E0, r3);
      Store(0x1E4, r25);
      PutAppend(m, 0x1E0, BytesOf(r3), BytesOf(r25));
      Store(0x1E8, r26);
      PutAppend(m, 0x1E0, BytesOf(r3) + BytesOf(r25), BytesOf(r26));
      Store(0x1EC, r9);
      PutAppend(m, 0x1E0, BytesOf(r3) + BytesOf(r25) + BytesOf(r26), BytesOf(r9));
      Store(0x1F0, r10);
      PutAppend(m, 0x1E0, BytesOf(r3) + BytesOf(r25) + BytesOf(r26) + BytesOf(r9), BytesOf(r10));
      Store(0x1F4, r11);
      PutAppend(m, 0x1E0, BytesOf(r3) + BytesOf(r25) + BytesOf(r26) + BytesOf(r9) + BytesOf(r10), BytesOf(r11));
      Store(0x1F8, r12);
      PutAppend(m, 0x1E0, BytesOf(r3) + BytesOf(r25) + BytesOf(r26) + BytesOf(r9) + BytesOf(r10) + BytesOf(r11),
                BytesOf(r12));
    }

    lemma {:induction false} NextInLoop(task: Task, pic: Picture, orig: seq<Byte>, b: nat)
      requires Fits(task, pic, |orig|) && b + 1 < pic.count && pic.scale == scale && pic.finish == finish
      requires Registers(task, pic, b + 1) && r26 == pic.At(b) && r25 == pic.At(b + 2) && r2 > r3
      requires Produced(pic, orig, b) && Progress(task, pic, orig, rdram, b) && Fetched(pic, orig, b + 1)
      ensures InLoop(task, pic, orig, b + 1)
    {
    }

    /** L_1874 with no block left: the last write. r22 keeps the status that was read on the way. */
    method Last(task: Task, status: Word, ghost pic: Picture, ghost orig: seq<Byte>, ghost b: nat)
      requires Fits(task, pic, |orig|) && AfterBlock(task, pic, orig, b)
      modifies this`rdram, this`r22
      ensures Progress(task, pic, orig, rdram, b + 1) && r22 == status
    {
      hide BlockDone;
      r22 := status;
      FlushPending(task, pic, orig, b);
    }

    /** L_1874 without a yield request. */
    method Continue(task: Task, ghost pic: Picture, ghost orig: seq<Byte>, ghost b: nat)
      requires Fits(task, pic, |orig|) && AfterBlock(task, pic, orig, b) && b + 1 < pic.count
      modifies this`r22, this`r25
      ensures InLoop(task, pic, orig, b + 1)
    {
      hide BlockDone, Progress, Produced, Fetched, Picture.Valid;
      AtNext(pic, b + 1);
      r22 := 0;
      r25 := Add32(r25, r12);
      NextInLoop(task, pic, orig, b);
    }

    /** L_1874 with a yield request: save, then write the decoded block. */
    method Yield(task: Task, ghost pic: Picture, ghost orig: seq<Byte>, ghost b: nat)
      requires Fits(task, pic, |orig|) && AfterBlock(task, pic, orig, b) && b + 1 < pic.count
      modifies this`rdram, this`dmem, this`r22, this`r25
      ensures Progress(task, pic, orig, rdram, b + 1) && r22 == 0x80 && |dmem| == DMEM
      ensures Saved(pic, rdram[task.yieldPtr..task.yieldPtr + task.yieldSize], b + 1)
    {
      hide BlockDone, Saved, Progress, Add32, Sub32, Picture.Valid;
      AtNext(pic, b);
      r22 := 0x80;
      AddSub(r25, r12);
      r25 := Add32(r25, r12);
      r25 := Sub32(r25, r12);
      ghost var was := dmem;
      Save(task, pic, orig, b);
      SliceOfSlice(was, OUTPUT, DMEM, 0, pic.OutLen());
      SliceOfSlice(dmem, OUTPUT, DMEM, 0, pic.OutLen());
      FlushPending(task, pic, orig, b);
    }

    lemma {:induction false} BlocksLeft(task: Task, pic: Picture, orig: seq<Byte>, b: nat)
      requires Fits(task, pic, |orig|)
      ensures InLoop(task, pic, orig, b) ==> b < pic.count
      ensures AfterBlock(task, pic, orig, b) ==>
        b < pic.count && r3 == pic.count - b - 1 && |dmem| == DMEM && r23 == task.yieldPtr
    {
    }

    /** L_1138 to the break: blocks until the last one is written, or until the status register asks for a
        yield after a block that is not the last; the decoded block is written either way. status(n) is
        what SP_STATUS reads when n blocks are left. */
    method Blocks(task: Task, status: nat -> Word, ghost pic: Picture, ghost orig: seq<Byte>, ghost b0: nat)
      returns (exit: Exit, ghost b: nat)
      requires Fits(task, pic, |orig|) && Progress(task, pic, orig, rdram, b0) && b0 < pic.count
      requires pic.scale == scale && pic.finish == finish
      requires Registers(task, pic, b0) && r25 == pic.At(b0)
      modifies this
      ensures b0 < b <= pic.count && Progress(task, pic, orig, rdram, b)
      ensures |dmem| == DMEM && r23 == task.yieldPtr && r22 == if exit.Yielded? then 0x80 else status(0)
      ensures exit == if b < pic.count then Yielded else Done
      ensures exit.Yielded? ==>
        YieldAsked(status(pic.count - b)) && Saved(pic, rdram[task.yieldPtr..task.yieldPtr + task.yieldSize], b)
      ensures forall left: nat :: pic.count - b < left < pic.count - b0 ==> !YieldAsked(status(left))
    {
      hide BlockDone, InLoop, AfterBlock, Registers, Saved, Picture.Valid, Picture.At, YieldAsked;
      FirstFetch(task, pic, orig, b0);
      b := b0;
      BlocksLeft(task, pic, orig, b);
      while true
        invariant b0 <= b < pic.count && InLoop(task, pic, orig, b)
        invariant forall left: nat :: pic.count - b <= left < pic.count - b0 ==> !YieldAsked(status(left))
        decreases pic.count - b
      {
        DoBlock(task, pic, orig, b);
        BlocksLeft(task, pic, orig, b);
        if r3 == 0 {
          Last(task, status(0), pic, orig, b);
          return Done, b + 1;
        }
        if YieldAsked(status(r3)) {
          Yield(task, pic, orig, b);
          return Yielded, b + 1;
        }
        Continue(task, pic, orig, b);
        b := b + 1;
      }
    }

    lemma {:induction false} Restored(task: Task, pic: Picture, b: nat)
      requires |dmem| == DMEM && Saved(pic, dmem, b) && Fits(task, pic, |rdram|)
      requires r3 == Load(dmem, 0x1E0) && r25 == Load(dmem, 0x1E4) && r26 == Load(dmem, 0x1E8) &&
               r9 == Load(dmem, 0x1EC)
      requires r10 == Load(dmem, 0x1F0) && r11 == Load(dmem, 0x1F4) && r12 == Load(dmem, 0x1F8)
      requires r23 == task.yieldPtr && r24 == task.yieldSize
      ensures Registers(task, pic, b) && r25 == pic.At(b)
    {
      hide WordOf;
      AtNext(pic, b - 1);
      AtNext(pic, b);
    }

    /** One RSP task. A task that restores must find the saved state of block b0 in DMEM; another one must
        find the header and starts with block 0, so that orig is the memory it starts in. Only a task that
        is turned away leaves r22 as it was. */
    method Run(task: Task, entry: Word, status: nat -> Word, ghost pic: Picture, ghost orig: seq<Byte>, ghost b0: nat)
      returns (exit: Exit, ghost b: nat)
      requires Fits(Seen(task), pic, |orig|) && Progress(Seen(task), pic, orig, rdram, b0) && b0 < pic.count
      requires pic.scale == scale && pic.finish == finish && |dmem| == DMEM
      requires TurnedAway(task.flags, entry) ||
               if Restores(task.flags, r22) then Saved(pic, dmem, b0)
               else b0 == 0 && Described(task, pic, dmem[..0x60], rdram)
      modifies this
      ensures |dmem| == DMEM && exit.Refused? == TurnedAway(task.flags, entry)
      ensures exit.Refused? ==> rdram == old(rdram) && dmem == old(dmem) && b == b0
      ensures exit.Refused? ==> r22 == old(r22) && r23 == old(r23)
      ensures !exit.Refused? ==>
        var seen := old(Seen(task));
        && b0 < b <= pic.count && Progress(seen, pic, orig, rdram, b)
        && r23 == seen.yieldPtr && r22 == (if exit.Yielded? then 0x80 else status(0))
        && exit == (if b < pic.count then Yielded else Done)
        && (exit.Yielded? ==> YieldAsked(status(pic.count - b)) &&
                              Saved(pic, rdram[seen.yieldPtr..seen.yieldPtr + seen.yieldSize], b))
        && forall left: nat :: pic.count - b < left < pic.count - b0 ==> !YieldAsked(status(left))
    {
      hide BlockDone, Saved, Described, Registers, Picture.Valid, Load, YieldAsked, Restores, TurnedAway;
      var seen := Seen(task);
      SameDescription(task, seen, pic, dmem[..0x60], rdram);
      var refused, restored := Enter(task, entry);
      if refused {
        return Refused, b0;
      }
      if restored {
        Restored(seen, pic, b0);
      } else {
        Begin(seen, pic);
        AtZero(pic);
      }
      exit, b := Blocks(seen, status, pic, orig, b0);
    }

    lemma {:induction false} AtZero(pic: Picture)
      ensures pic.At(0) == pic.base
    {
    }
  }

  // The yield pointer is not part of the description.
  lemma {:induction false} SameDescription(t: Task, u: Task, pic: Picture, low: seq<Byte>, m: seq<Byte>)
    requires t.dataPtr == u.dataPtr && t.dataSize == u.dataSize
    ensures Described(t, pic, low, m) <==> Described(u, pic, low, m)
  {
    hide WordOf;
  }

  lemma {:induction false} NoProgressYet(task: Task, pic: Picture, m: seq<Byte>)
    requires Fits(task, pic, |m|)
    ensures Progress(task, pic, m, m, 0) && 0 < pic.count
  {
  }

  lemma {:induction false} SameProgress(t: Task, u: Task, pic: Picture, orig: seq<Byte>, m: seq<Byte>, b: nat)
    requires t.yieldPtr == u.yieldPtr && t.yieldSize == u.yieldSize
    requires Fits(t, pic, |orig|) && Progress(t, pic, orig, m, b)
    ensures Fits(u, pic, |orig|) && Progress(u, pic, orig, m, b)
  {
    forall k | 0 <= k < b
      ensures BlockDone(u, pic, orig, m, k)
    {
      assert BlockDone(t, pic, orig, m, k);
    }
  }

  /** The saved state lies in the part of DMEM that the yield buffer holds. */
  lemma {:induction false} SavedPrefix(pic: Picture, m: seq<Byte>, n: seq<Byte>, b: nat)
    requires 0x1FC <= |n| <= |m| && m[..|n|] == n
    ensures Saved(pic, m, b) <==> Saved(pic, n, b)
  {
    hide WordOf;
    forall i, j | 0 <= i <= j <= |n|
      ensures m[i..j] == n[i..j]
    {
      SliceOfSlice(m, 0, |n|, i, j);
      assert m[0..|n|] == n;
    }
  }
}

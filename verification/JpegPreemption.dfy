/** rsp/njpgdspMain.cpp over several tasks: a picture is decoded by a task that may yield, and by the tasks
    that resume it. The registers live in a context that persists from task to task; DMEM does not. */
module JpegPreemption {

  import opened Basics
  import opened SpMemory
  import JpegReorder
  import JpegDequantise
  import opened JpegBlockLoop

  // ---- What one task does -------------------------------------------------------------------

  /** Blocks s up to b' of memory m are decoded, each over the start of its own input in m; outside the
      yield buffer nothing else changes. */
  ghost predicate Continues(task: Task, pic: Picture, m: seq<Byte>, s: nat, m': seq<Byte>, b': nat)
    requires Fits(task, pic, |m|)
  {
    && |m'| == |m| && s <= b' <= pic.count
    && (forall k :: s <= k < b' ==> BlockDone(task, pic, m, m', k))
    && (forall x :: 0 <= x < |m| && !task.InYieldBuffer(x) && (pic.Touched(b', x) ==> pic.Touched(s, x)) ==>
         m'[x] == m[x])
  }

  /** What one task that is not turned away does to memory m: it starts at block b if it restores, and else
      at block 0, and reads what is in m. */
  ghost predicate RunFrom(task: Task, pic: Picture, restored: bool, m: seq<Byte>, b: nat, m': seq<Byte>, b': nat)
    requires Fits(task, pic, |m|)
  {
    var s := if restored then b else 0;
    s < b' && Continues(task, pic, m, s, m', b')
  }

  lemma {:induction false} TouchedAt(pic: Picture, done: nat, x: int) returns (k: nat, j: nat)
    requires pic.Touched(done, x)
    ensures k < done && j < pic.OutLen() && x == pic.At(k) + j
  {
    k, j := (x - pic.base) / pic.Stride(), (x - pic.base) % pic.Stride();
  }

  lemma {:induction false} TouchedMore(pic: Picture, done: nat, more: nat, x: int)
    requires done <= more
    ensures pic.Touched(done, x) ==> pic.Touched(more, x)
  {
  }

  lemma {:induction false} DoneByte(task: Task, pic: Picture, orig: seq<Byte>, m: seq<Byte>, k: nat, j: nat)
    requires Fits(task, pic, |orig|) && |m| == |orig| && k < pic.count && j < pic.OutLen()
    requires BlockDone(task, pic, orig, m, k)
    ensures m[pic.At(k) + j] == pic.Decoded(orig, k)[j]
  {
    assert m[pic.At(k)..pic.At(k) + pic.OutLen()][j] == m[pic.At(k) + j];
  }

  /** Decoding from the first block that is not done yet is the same as progress on the original picture:
      the blocks still to be read are intact, and those already written stay. */
  lemma {:induction false} ContinuesExactly(task: Task, pic: Picture, orig: seq<Byte>, m: seq<Byte>, b: nat,
                                            m': seq<Byte>, b': nat)
    requires Fits(task, pic, |orig|) && Progress(task, pic, orig, m, b) && b <= b'
    ensures Continues(task, pic, m, b, m', b') <==> Progress(task, pic, orig, m', b')
  {
    hide Picture.Touched, BlockDone;
    if b' <= pic.count && |m'| == |orig| {
      forall k | b <= k < b'
        ensures BlockDone(task, pic, m, m', k) <==> BlockDone(task, pic, orig, m', k)
      {
        SameInput(task, pic, orig, m, b, m', k);
      }
      if Continues(task, pic, m, b, m', b') {
        forall k | 0 <= k < b
          ensures BlockDone(task, pic, orig, m', k)
        {
          WrittenStays(task, pic, orig, m, b, m', b', k);
        }
        forall x | 0 <= x < |m| && !task.InYieldBuffer(x) && !pic.Touched(b', x)
          ensures m'[x] == orig[x]
        {
          TouchedMore(pic, b, b', x);
        }
      }
      if Progress(task, pic, orig, m', b') {
        forall x | 0 <= x < |m| && !task.InYieldBuffer(x) && (pic.Touched(b', x) ==> pic.Touched(b, x))
          ensures m'[x] == m[x]
        {
          if pic.Touched(b, x) {
            var k, j := TouchedAt(pic, b, x);
            DoneByte(task, pic, orig, m, k, j);
            DoneByte(task, pic, orig, m', k, j);
          }
        }
      }
    }
  }

  lemma {:induction false} SameInput(task: Task, pic: Picture, orig: seq<Byte>, m: seq<Byte>, b: nat, m': seq<Byte>,
                                     k: nat)
    requires Fits(task, pic, |orig|) && Progress(task, pic, orig, m, b) && b <= k < pic.count && |m'| == |orig|
    ensures BlockDone(task, pic, m, m', k) <==> BlockDone(task, pic, orig, m', k)
  {
    InputIntact(task, pic, orig, m, b, k);
  }

  lemma {:induction false} WrittenStays(task: Task, pic: Picture, orig: seq<Byte>, m: seq<Byte>, b: nat,
                                        m': seq<Byte>, b': nat, k: nat)
    requires Fits(task, pic, |orig|) && Progress(task, pic, orig, m, b) && Continues(task, pic, m, b, m', b')
    requires k < b
    ensures BlockDone(task, pic, orig, m', k)
  {
    var lo, n := pic.At(k), pic.OutLen();
    assert BlockDone(task, pic, orig, m, k);
    assert lo + n <= pic.At(pic.count) && pic.base <= lo;
    forall x | lo <= x < lo + n
      ensures m'[x] == m[x]
    {
      BlockTouched(pic, k, b, x - lo);
    }
    assert m'[lo..lo + n] == m[lo..lo + n];
  }

  lemma {:induction false} BlockTouched(pic: Picture, k: nat, done: nat, j: nat)
    requires k < done && j < pic.OutLen()
    ensures pic.Touched(done, pic.At(k) + j)
  {
    if pic.Large() { LargeOffset(k, j); } else { SmallOffset(k, j); }
    assert pic.At(k) + pic.Stride() == pic.At(k + 1) <= pic.At(done);
  }

  lemma {:induction false} LargeOffset(k: nat, j: nat)
    requires j < 0x300
    ensures (0x300 * k + j) % 0x300 == j
  {
  }

  lemma {:induction false} SmallOffset(k: nat, j: nat)
    requires j < 0x200
    ensures (0x200 * k + j) % 0x200 == j
  {
  }

  // ---- Which flags make a resumed task go on ------------------------------------------------

  // m holds the first b blocks of orig decoded; whatever a task may make of it holds the first b' decoded.
  ghost predicate GoesOn(task: Task, pic: Picture, restored: bool, orig: seq<Byte>, m: seq<Byte>, b: nat,
                         m': seq<Byte>, b': nat)
    requires Fits(task, pic, |orig|)
  {
    Progress(task, pic, orig, m, b) && 0 < b < pic.count && RunFrom(task, pic, restored, m, b, m', b')
    ==> Progress(task, pic, orig, m', b')
  }

  /** The next task makes progress on the picture, whatever the picture is and wherever the last one stopped. */
  ghost predicate Transparent(restored: bool) {
    forall task, pic, orig, m, b, m', b' ::
      Fits(task, pic, |orig|) ==> GoesOn(task, pic, restored, orig, m, b, m', b')
  }

  /** A yielding task leaves 0x80 in r22. The task that follows it makes progress on every picture exactly
      when its flags contain both 1 and 2; otherwise there is a picture that it spoils. */
  lemma {:induction false} TransparentExactly(flags: Word)
    ensures Restores(flags, 0x80) <==> flags % 4 == 3
    ensures Transparent(Restores(flags, 0x80)) <==> flags % 4 == 3
  {
    assert Restores(flags, 0x80) <==> flags % 4 == 3;
    hide Restores, Transparent;
    RestoredGoesOn();
    RestartedDoesNot();
  }

  lemma {:induction false} RestoredGoesOn()
    ensures Transparent(true)
  {
    hide Progress, Fits, Continues;
    forall task, pic, orig, m, b: nat, m', b': nat | Fits(task, pic, |orig|) && Progress(task, pic, orig, m, b)
      ensures GoesOn(task, pic, true, orig, m, b, m', b')
    {
      SameLength(task, pic, orig, m, b);
      if b <= b' { ContinuesExactly(task, pic, orig, m, b, m', b'); }
    }
  }

  /** A task that starts over decodes the blocks that are done already a second time. It does no harm exactly
      when that gives what decoding them once gave. */
  lemma {:induction false} RestartIsHarmless(task: Task, pic: Picture, orig: seq<Byte>, m: seq<Byte>, b: nat,
                                             m': seq<Byte>, b': nat)
    requires Fits(task, pic, |orig|) && Progress(task, pic, orig, m, b) && RunFrom(task, pic, false, m, b, m', b')
    ensures Progress(task, pic, orig, m', if b < b' then b' else b) <==>
            forall k :: 0 <= k < b && k < b' ==> pic.Decoded(m, k) == pic.Decoded(orig, k)
  {
    hide Picture.Touched, Picture.Decoded;
    var n := if b < b' then b' else b;
    forall k | 0 <= k < b'
      ensures BlockDone(task, pic, orig, m', k) <==> pic.Decoded(m, k) == pic.Decoded(orig, k)
    {
      assert BlockDone(task, pic, m, m', k);
    }
    forall k | b <= k < b'
      ensures BlockDone(task, pic, orig, m', k)
    {
      SameInput(task, pic, orig, m, b, m', k);
    }
    forall k | b' <= k < b
      ensures BlockDone(task, pic, orig, m', k)
    {
      UntouchedBlock(task, pic, m, b', m', k);
      assert BlockDone(task, pic, orig, m, k);
    }
    forall x | 0 <= x < |m| && !task.InYieldBuffer(x) && !pic.Touched(n, x)
      ensures m'[x] == orig[x]
    {
      TouchedMore(pic, b, n, x);
      TouchedMore(pic, b', n, x);
    }
  }

  lemma {:induction false} UntouchedBlock(task: Task, pic: Picture, m: seq<Byte>, b': nat, m': seq<Byte>, k: nat)
    requires Fits(task, pic, |m|) && Continues(task, pic, m, 0, m', b') && b' <= k < pic.count
    ensures m'[pic.At(k)..pic.At(k) + pic.OutLen()] == m[pic.At(k)..pic.At(k) + pic.OutLen()]
  {
    var lo, n := pic.At(k), pic.OutLen();
    assert lo + n <= pic.At(pic.count) && pic.base <= lo && pic.At(b') <= lo;
    forall x | lo <= x < lo + n
      ensures m'[x] == m[x]
    {
      assert !pic.Touched(b', x);
    }
  }

  // ---- The picture that is spoiled --------------------------------------------------------------

  // Two blocks, of four matrices each, at address 0; decoding makes the first byte 1 if it is 0, and else 2.
  function Marked(c: seq<Byte>): (r: seq<Byte>)
    ensures |r| == 0x100 && r[0] == (if c != [] && c[0] == 0 then 1 else 2)
  {
    [if c != [] && c[0] == 0 then 1 else 2] + seq(0xFF, _ => 0)
  }

  function TwoBlocks(): Picture {
    Picture(0, 2, 0, seq(TABLES, _ => 0), (b, t, one) => b, (t, md, c) => Marked(c))
  }

  function TwoBlockTask(): Task { Task(2, 0, 0, 0x400, 0x200) }

  lemma {:induction false} TwoBlocksFit()
    ensures Fits(TwoBlockTask(), TwoBlocks(), 0x800)
  {
  }

  lemma {:induction false} FirstByte(m: seq<Byte>)
    requires |m| == 0x800
    ensures |TwoBlocks().Decoded(m, 0)| == 0x100
    ensures TwoBlocks().Decoded(m, 0)[0] == (if m[0] == 0 then 1 else 2)
  {
    hide JpegDequantise.Coefficients, Marked, JpegReorder.Slot;
    var pic := TwoBlocks();
    var block := pic.Block(m, 0);
    FirstCoefficient(pic.tables, block, pic.scale, 4);
  }

  lemma {:induction false} FirstCoefficient(low: Low, block: seq<Byte>, f: JpegDequantise.Scaling, n: nat)
    requires |block| == 0x200 && 1 <= n <= 4
    requires var first := JpegReorder.Slot(block, 0);
             f(first, JpegReorder.Slot(low, JpegDequantise.TableOf(0, 0)), low[..0x10]) == first
    ensures JpegDequantise.Coefficients(low, 0, block, f, n)[0] == block[0]
  {
    hide JpegReorder.Ordered;
    if n > 1 {
      FirstCoefficient(low, block, f, n - 1);
    } else {
      assert JpegDequantise.Coefficients(low, 0, block, f, 0) == [];
      FirstStaysFirst(JpegReorder.Slot(block, 0));
    }
  }

  lemma {:induction false} FirstStaysFirst(b: JpegReorder.Matrix)
    ensures JpegReorder.Ordered(b)[0] == b[0]
  {
    assert JpegReorder.Place(JpegReorder.Walk(0)) == 0;
    hide *;
    JpegReorder.OrderedIsZigZag(b, 0);
    assert JpegReorder.Ordered(b)[0..2][0] == b[0..2][0];
  }

  lemma {:induction false} FirstByteDone(task: Task, pic: Picture, orig: seq<Byte>, m: seq<Byte>)
    requires Fits(task, pic, |orig|) && |m| == |orig| && BlockDone(task, pic, orig, m, 0)
    ensures m[pic.base] == pic.Decoded(orig, 0)[0]
  {
    assert m[pic.base] == m[pic.At(0)..pic.At(0) + pic.OutLen()][0];
  }

  lemma {:induction false} FirstByteOfPut(m: seq<Byte>, bytes: seq<Byte>)
    requires bytes != [] && |bytes| <= |m|
    ensures Put(m, 0, bytes)[0] == bytes[0]
  {
  }

  // The picture is all zeros, and its first block was decoded.
  function Zeros(): seq<Byte> { seq(0x800, _ => 0) }

  function Once(): (m: seq<Byte>)
    ensures |m| == 0x800
  {
    FirstByte(Zeros());
    Put(Zeros(), 0, TwoBlocks().Decoded(Zeros(), 0))
  }

  lemma {:induction false} OnceIsProgress()
    ensures Once()[0] == 1
    ensures Fits(TwoBlockTask(), TwoBlocks(), 0x800) && Progress(TwoBlockTask(), TwoBlocks(), Zeros(), Once(), 1)
  {
    hide Picture.Decoded, Put, Progress;
    var task, pic, orig := TwoBlockTask(), TwoBlocks(), Zeros();
    TwoBlocksFit();
    FirstByte(orig);
    NoProgressYet(task, pic, orig);
    WriteBlock(task, pic, orig, orig, 0);
    FirstByteOfPut(orig, pic.Decoded(orig, 0));
  }

  /** A task that starts over on it decodes the first block a second time: however far it gets, it leaves no
      memory that holds the first blocks of the picture decoded. */
  lemma {:induction false} DecodedTwice()
    ensures Fits(TwoBlockTask(), TwoBlocks(), 0x800) && Progress(TwoBlockTask(), TwoBlocks(), Zeros(), Once(), 1)
    ensures forall m', b', done: nat :: RunFrom(TwoBlockTask(), TwoBlocks(), false, Once(), 1, m', b') && done > 0 ==>
              !Progress(TwoBlockTask(), TwoBlocks(), Zeros(), m', done)
  {
    hide Progress, RunFrom, Once;
    OnceIsProgress();
    forall m', b', done: nat | RunFrom(TwoBlockTask(), TwoBlocks(), false, Once(), 1, m', b') && done > 0
      ensures !Progress(TwoBlockTask(), TwoBlocks(), Zeros(), m', done)
    {
      RestartSpoils(m', b', done);
    }
  }

  lemma {:induction false} RestartSpoils(m': seq<Byte>, b': nat, done: nat)
    requires Fits(TwoBlockTask(), TwoBlocks(), 0x800)
    requires RunFrom(TwoBlockTask(), TwoBlocks(), false, Once(), 1, m', b') && done > 0
    ensures !Progress(TwoBlockTask(), TwoBlocks(), Zeros(), m', done)
  {
    hide Picture.Decoded, Progress, Once;
    var task, pic := TwoBlockTask(), TwoBlocks();
    OnceIsProgress();
    FirstByte(Zeros());
    FirstByte(Once());
    assert BlockDone(task, pic, Once(), m', 0);
    FirstByteDone(task, pic, Once(), m');
    if Progress(task, pic, Zeros(), m', done) {
      BlockIsDone(task, pic, Zeros(), m', 0, done);
      FirstByteDone(task, pic, Zeros(), m');
      assert false;
    }
  }

  lemma {:induction false} RestartedDoesNot()
    ensures !Transparent(false)
  {
    hide Picture.Decoded, Put, Progress, Continues, Once;
    var task, pic, m := TwoBlockTask(), TwoBlocks(), Once();
    OnceIsProgress();
    FirstByte(m);
    NoProgressYet(task, pic, m);
    WriteBlock(task, pic, m, m, 0);
    var m' := Put(m, pic.At(0), pic.Decoded(m, 0));
    ContinuesExactly(task, pic, m, m, 0, m', 1);
    RestartSpoils(m', 1, 1);
    assert !GoesOn(task, pic, false, Zeros(), m, 1, m', 1);
  }

  lemma {:induction false} BlockIsDone(task: Task, pic: Picture, orig: seq<Byte>, m: seq<Byte>, k: nat, done: nat)
    requires Fits(task, pic, |orig|) && Progress(task, pic, orig, m, done) && k < done
    ensures BlockDone(task, pic, orig, m, k)
  {
  }

  // ---- The tasks of one picture ---------------------------------------------------------------------

  /** How one task is started: its flags, SP_STATUS when it enters, and SP_STATUS after each block. */
  datatype Start = Start(flags: Word, entry: Word, status: nat -> Word)
  {
    predicate Runs() { !TurnedAway(flags, entry) }
  }

  // The number of tasks that are not turned away
  function Count(starts: seq<Start>): nat {
    if starts == [] then 0
    else Count(starts[..|starts| - 1]) + (if starts[|starts| - 1].Runs() then 1 else 0)
  }

  predicate Ran(starts: seq<Start>) { Count(starts) > 0 }

  /** A task is marked as resumed, or restores, only once a task before it has run; and the first that runs
      knows the yield buffer. */
  ghost predicate Orderly(starts: seq<Start>, yieldPtr: Word, r22: Word, r23: Word) {
    forall i :: 0 <= i < |starts| && starts[i].Runs() && !Ran(starts[..i]) ==>
      && starts[i].flags % 2 == 0 && !Restores(starts[i].flags, r22)
      && (Rereads(starts[i].flags) || r23 == yieldPtr)
  }

  /** Whether task i goes on where the last one has stopped. */
  predicate Resumes(starts: seq<Start>, i: nat)
    requires i < |starts|
  {
    starts[i].flags % 4 == 3 && Ran(starts[..i])
  }

  /** The last of the first n tasks that starts over, or 0 if there is none. */
  function LastFresh(starts: seq<Start>, n: nat): (i: nat)
    requires n <= |starts|
    ensures forall j :: i < j < n ==> !starts[j].Runs() || Resumes(starts, j)
    ensures i == 0 || (i < n && starts[i].Runs() && !Resumes(starts, i))
  {
    if n == 0 || (starts[n - 1].Runs() && !Resumes(starts, n - 1)) then (if n == 0 then 0 else n - 1)
    else LastFresh(starts, n - 1)
  }

  /** Every task that follows one that has run has the flags of value 1 and 2. */
  ghost predicate AllResumed(starts: seq<Start>) {
    forall i :: 0 <= i < |starts| && starts[i].Runs() && Ran(starts[..i]) ==> starts[i].flags % 4 == 3
  }

  // Bytes that decoding leaves alone
  ghost predicate Apart(task: Task, pic: Picture, lo: nat, len: nat) {
    && (lo + len <= pic.base || pic.At(pic.count) <= lo)
    && (lo + len <= task.yieldPtr || task.yieldPtr + task.yieldSize <= lo)
  }

  /** The header and the tables lie outside the blocks and the yield buffer. */
  ghost predicate HeaderApart(task: Task, pic: Picture, m: seq<Byte>) {
    && task.dataPtr + 24 <= |m| && Apart(task, pic, task.dataPtr, task.dataSize)
    && forall i :: 3 <= i < 6 ==> Apart(task, pic, Header(task, m, i), 0x80)
  }

  lemma {:induction false} ApartStays(task: Task, pic: Picture, orig: seq<Byte>, m: seq<Byte>, b: nat, lo: nat,
                                      len: nat)
    requires Fits(task, pic, |orig|) && Progress(task, pic, orig, m, b) && Apart(task, pic, lo, len)
    requires lo + len <= |orig|
    ensures m[lo..lo + len] == orig[lo..lo + len]
  {
    hide BlockDone, Picture.Valid;
    forall x | lo <= x < lo + len
      ensures m[x] == orig[x]
    {
      TouchedNext(pic, b, x);
    }
  }

  lemma {:induction false} DescriptionStays(task: Task, pic: Picture, boot: seq<Byte>, orig: seq<Byte>, m: seq<Byte>,
                                            b: nat)
    requires Fits(task, pic, |orig|) && Progress(task, pic, orig, m, b)
    requires Described(task, pic, boot, orig) && HeaderApart(task, pic, orig)
    ensures Described(task, pic, boot, m) && HeaderApart(task, pic, m)
  {
    hide WordOf, Progress, Fits, Apart;
    ApartStays(task, pic, orig, m, b, task.dataPtr, task.dataSize);
    assert |m| == |orig| by { SameLength(task, pic, orig, m, b); }
    forall i | 0 <= i < 6
      ensures Header(task, m, i) == Header(task, orig, i)
    {
      SliceOfSlice(m, task.dataPtr, task.dataPtr + task.dataSize, 4 * i, 4 * i + 4);
      SliceOfSlice(orig, task.dataPtr, task.dataPtr + task.dataSize, 4 * i, 4 * i + 4);
    }
    ApartStays(task, pic, orig, m, b, Header(task, orig, 3), 0x80);
    ApartStays(task, pic, orig, m, b, Header(task, orig, 4), 0x80);
    ApartStays(task, pic, orig, m, b, Header(task, orig, 5), 0x80);
  }

  lemma {:induction false} SameLength(task: Task, pic: Picture, orig: seq<Byte>, m: seq<Byte>, b: nat)
    requires Fits(task, pic, |orig|) && Progress(task, pic, orig, m, b)
    ensures |m| == |orig| && b <= pic.count
  {
  }

  /** The state between two tasks: what r22 and the yield buffer hold once a task has run. */
  ghost predicate Between(mc: Microcode, task: Task, pic: Picture, base: seq<Byte>, b: nat)
    reads mc
    requires Fits(task, pic, |base|)
  {
    && mc.scale == pic.scale && mc.finish == pic.finish && |mc.dmem| == DMEM
    && Progress(task, pic, base, mc.rdram, b)
    && (0 < b < pic.count ==>
         && mc.r22 == 0x80 && mc.r23 == task.yieldPtr
         && Saved(pic, mc.rdram[task.yieldPtr..task.yieldPtr + task.yieldSize], b))
  }

  /** The operating system loads DMEM before a task: from the yield buffer if the task is marked as resumed,
      else with the constants; nothing is known of the rest. The registers stay. */
  method LoadDmem(mc: Microcode, task: Task, flags: Word, boot: seq<Byte>)
    requires |mc.dmem| == DMEM && |boot| == 0x60 && task.yieldSize <= DMEM
    requires task.yieldPtr + task.yieldSize <= |mc.rdram|
    modifies mc`dmem
    ensures |mc.dmem| == DMEM
    ensures flags % 2 == 1 ==>
      mc.dmem[..task.yieldSize] == mc.rdram[task.yieldPtr..task.yieldPtr + task.yieldSize]
    ensures flags % 2 == 0 ==> mc.dmem[..0x60] == boot
  {
    var rest: seq<Byte> := *;
    if |rest| == DMEM {   // any bytes at all
      mc.dmem := rest;
    }
    if flags % 2 == 1 {
      mc.dmem := Put(mc.dmem, 0, mc.rdram[task.yieldPtr..task.yieldPtr + task.yieldSize]);
    } else {
      mc.dmem := Put(mc.dmem, 0, boot);
    }
  }

  lemma {:induction false} LoadedDmem(pic: Picture, d: seq<Byte>, saved: seq<Byte>, boot: seq<Byte>, b: nat)
    requires |d| == DMEM && pic.tables[..0x60] == boot && 0x1FC <= |saved| <= DMEM
    requires d[..|saved|] == saved && Saved(pic, saved, b)
    ensures Saved(pic, d, b) && d[..0x60] == boot
  {
    SavedPrefix(pic, d, saved, b);
    SliceOfSlice(d, 0, TABLES, 0, 0x60);
    assert d[0..TABLES] == pic.tables;
    hide WordOf;
  }

  lemma {:induction false} RestoresOnlyResumed(flags: Word)
    ensures Restores(flags, 0x80) <==> flags % 4 == 3
    ensures flags % 4 == 3 ==> flags % 2 == 1 && Rereads(flags)
  {
  }

  /** One task between two others does what RunFrom says. */
  method NextTask(mc: Microcode, task: Task, start: Start, boot: seq<Byte>,
                  ghost pic: Picture, ghost base: seq<Byte>, ghost b: nat)
    returns (done: bool, ghost b': nat)
    requires Fits(task, pic, |base|) && Between(mc, task, pic, base, b) && b < pic.count
    requires Described(task, pic, boot, mc.rdram) || (start.Runs() ==> Restores(start.flags, mc.r22))
    requires |boot| == 0x60 && pic.tables[..0x60] == boot
    requires start.Runs() && b == 0 ==>
      start.flags % 2 == 0 && !Restores(start.flags, mc.r22) && (Rereads(start.flags) || mc.r23 == task.yieldPtr)
    modifies mc
    ensures !start.Runs() ==> Between(mc, task, pic, base, b) && b' == b && !done
    ensures !start.Runs() ==> mc.rdram == old(mc.rdram) && mc.r22 == old(mc.r22) && mc.r23 == old(mc.r23)
    ensures start.Runs() ==>
      var restored := Restores(start.flags, old(mc.r22));
      && RunFrom(task, pic, restored, old(mc.rdram), b, mc.rdram, b')
      && Between(mc, task, pic, if restored then base else old(mc.rdram), b')
      && (done <==> b' == pic.count)
  {
    hide BlockDone, Described, Saved, Progress, Continues, Picture.Valid, Restores, Rereads;
    SameLength(task, pic, base, mc.rdram, b);
    ghost var was := mc.rdram;
    LoadDmem(mc, task, start.flags, boot);
    var now := task.(flags := start.flags);
    SameProgress(task, now, pic, base, was, b);
    SameDescription(task, now, pic, boot, was);
    NoProgressYet(now, pic, was);
    if b > 0 && start.flags % 2 == 1 {
      LoadedDmem(pic, mc.dmem, was[task.yieldPtr..task.yieldPtr + task.yieldSize], boot, b);
    }
    ghost var restored := Restores(start.flags, mc.r22);
    ghost var from, b0 := if restored then base else was, if restored then b else 0;
    RestoresOnlyResumed(start.flags);
    var exit;
    exit, b' := mc.Run(now, start.entry, start.status, pic, from, b0);
    if exit.Refused? {
      b' := b;
    } else {
      SameProgress(now, task, pic, from, mc.rdram, b');
      NoProgressYet(task, pic, was);
      ContinuesExactly(task, pic, from, was, b0, mc.rdram, b');
    }
    done := exit.Done?;
  }

  lemma {:induction false} CountGrows(starts: seq<Start>, i: nat)
    requires i <= |starts|
    ensures Count(starts[..i]) <= Count(starts)
    decreases |starts| - i
  {
    if i < |starts| {
      CountGrows(starts, i + 1);
      CountNext(starts, i);
    } else {
      assert starts[..i] == starts;
    }
  }

  lemma {:induction false} CountNext(starts: seq<Start>, i: nat)
    requires i < |starts|
    ensures Count(starts[..i + 1]) == Count(starts[..i]) + (if starts[i].Runs() then 1 else 0)
  {
    assert starts[..i + 1][..i] == starts[..i];
  }

  /** What happened so far: memory and the number of decoded blocks before each task, and now. */
  ghost predicate History(task: Task, pic: Picture, starts: seq<Start>, mems: seq<seq<Byte>>, counts: seq<nat>) {
    && 1 <= |mems| == |counts| <= |starts| + 1 && counts[0] == 0
    && (forall i :: 0 <= i < |mems| ==> Fits(task, pic, |mems[i]|))
    && (forall i :: 0 <= i < |mems| - 1 ==>
         Happened(task, pic, starts, i, mems[i], counts[i], mems[i + 1], counts[i + 1]))
  }

  ghost predicate Happened(task: Task, pic: Picture, starts: seq<Start>, i: nat, m: seq<Byte>, b: nat,
                           m': seq<Byte>, b': nat)
    requires i < |starts| && Fits(task, pic, |m|)
  {
    if starts[i].Runs() then RunFrom(task, pic, Resumes(starts, i), m, b, m', b') else m' == m && b' == b
  }

  /** The last task that starts over decides what is decoded: the memory that it finds. */
  lemma {:induction false} LastFreshDecides(task: Task, pic: Picture, starts: seq<Start>, mems: seq<seq<Byte>>,
                                            counts: seq<nat>, n: nat)
    requires History(task, pic, starts, mems, counts) && n < |mems|
    ensures var base := mems[LastFresh(starts, n)];
            Progress(task, pic, base, mems[n], counts[n])
    decreases n
  {
    hide Progress, Continues, Resumes, Start.Runs;
    if n == 0 {
      NoProgressYet(task, pic, mems[0]);
    } else {
      LastFreshDecides(task, pic, starts, mems, counts, n - 1);
      var base, was, m := mems[LastFresh(starts, n - 1)], mems[n - 1], mems[n];
      assert Happened(task, pic, starts, n - 1, was, counts[n - 1], m, counts[n]);
      if starts[n - 1].Runs() {
        NoProgressYet(task, pic, was);
        if Resumes(starts, n - 1) {
          ContinuesExactly(task, pic, base, was, counts[n - 1], m, counts[n]);
        } else {
          ContinuesExactly(task, pic, was, was, 0, m, counts[n]);
        }
      }
    }
  }

  /** If every task after the first that runs is marked as the microcode needs it, that is the memory at the
      very beginning. */
  lemma {:induction false} FirstDecides(task: Task, pic: Picture, starts: seq<Start>, mems: seq<seq<Byte>>,
                                        counts: seq<nat>, n: nat)
    requires History(task, pic, starts, mems, counts) && n < |mems| && AllResumed(starts)
    ensures mems[LastFresh(starts, n)] == mems[0]
    ensures Count(starts[..n]) <= counts[n] && (counts[n] > 0 ==> Ran(starts[..n]))
    ensures !Ran(starts[..n]) ==> mems[n] == mems[0]
    decreases n
  {
    hide Progress, Continues, Start.Runs;
    if n > 0 {
      FirstDecides(task, pic, starts, mems, counts, n - 1);
      CountNext(starts, n - 1);
      assert Happened(task, pic, starts, n - 1, mems[n - 1], counts[n - 1], mems[n], counts[n]);
    }
  }

  /** The tasks of one picture, started one after the other until one is done: each does what Happened says,
      so that LastFreshDecides and FirstDecides apply. If every task after the first that runs is marked as
      the microcode needs it, every block is decoded in place exactly once, nothing else changes outside the
      yield buffer, and as many tasks as there are blocks are enough, whatever yields were asked for. */
  method Decode(mc: Microcode, task: Task, starts: seq<Start>, boot: seq<Byte>, ghost pic: Picture)
    returns (done: bool, ghost mems: seq<seq<Byte>>, ghost counts: seq<nat>)
    requires Fits(task, pic, |mc.rdram|) && Described(task, pic, boot, mc.rdram)
    requires pic.scale == mc.scale && pic.finish == mc.finish && |mc.dmem| == DMEM
    requires Orderly(starts, task.yieldPtr, mc.r22, mc.r23)
    requires AllResumed(starts) || HeaderApart(task, pic, mc.rdram)
    modifies mc
    ensures History(task, pic, starts, mems, counts)
    ensures mems[0] == old(mc.rdram) && mems[|mems| - 1] == mc.rdram
    ensures done <==> counts[|counts| - 1] == pic.count
    ensures done || |mems| == |starts| + 1
    ensures Progress(task, pic, mems[LastFresh(starts, |mems| - 1)], mc.rdram, counts[|counts| - 1])
    ensures AllResumed(starts) ==> Progress(task, pic, old(mc.rdram), mc.rdram, counts[|counts| - 1])
    ensures AllResumed(starts) && Count(starts) >= pic.count ==> done
  {
    hide BlockDone, Described, Saved, Progress, Continues, Picture.Valid, HeaderApart, Restores, Rereads, Start.Runs;
    ghost var base, b := mc.rdram, 0;
    done, mems, counts := false, [base], [0];
    NoProgressYet(task, pic, base);
    BootIsLow(task, pic, boot, base);
    var i := 0;
    while i < |starts| && !done
      invariant 0 <= i <= |starts| && |base| == |old(mc.rdram)| && (done <==> b == pic.count)
      invariant |mems| == |counts| == i + 1 && mems[0] == old(mc.rdram) && mems[i] == mc.rdram && counts[i] == b
      invariant History(task, pic, starts, mems, counts)
      invariant Between(mc, task, pic, base, b)
      invariant Ran(starts[..i]) <==> b > 0
      invariant b == 0 ==> mc.rdram == old(mc.rdram) == base && mc.r22 == old(mc.r22) && mc.r23 == old(mc.r23)
      invariant AllResumed(starts) || (Described(task, pic, boot, base) && HeaderApart(task, pic, base))
      invariant b == 0 ==> Described(task, pic, boot, base)
    {
      ghost var was, r22, b0 := mc.rdram, mc.r22, b;
      SameLength(task, pic, base, was, b);
      RestoresOnlyResumed(starts[i].flags);
      CountNext(starts, i);
      if !AllResumed(starts) { DescriptionStays(task, pic, boot, base, was, b); }
      done, b := NextTask(mc, task, starts[i], boot, pic, base, b0);
      if starts[i].Runs() && !Restores(starts[i].flags, r22) {
        base := was;
      }
      SameLength(task, pic, base, mc.rdram, b);
      assert Happened(task, pic, starts, i, was, b0, mc.rdram, b);
      mems, counts := mems + [mc.rdram], counts + [b];
      i := i + 1;
    }
    LastFreshDecides(task, pic, starts, mems, counts, i);
    if AllResumed(starts) { FirstDecides(task, pic, starts, mems, counts, i); }
    SameLength(task, pic, base, mc.rdram, b);
    CountGrows(starts, i);
    assert i == |starts| ==> starts[..i] == starts;
  }

  lemma {:induction false} BootIsLow(task: Task, pic: Picture, boot: seq<Byte>, m: seq<Byte>)
    requires Described(task, pic, boot, m)
    ensures |boot| == 0x60 && pic.tables[..0x60] == boot
  {
    hide WordOf;
  }
}

/** rsp/njpgdspMain.cpp, L_1174 to L_13D8: the dequantisation of one block. The loop is software-pipelined:
    it stores the result of the last turn, computes that of this turn and loads the input of the next
    one. The first store is a dummy, the last load is not used. What is computed from a matrix and its
    quantisation table is left uninterpreted. */
module JpegDequantise {

  import opened Basics
  import opened SpMemory
  import opened JpegReorder

  const INPUT := 0x1E0
  const DUMMY := 0x4E0   // where the first turn stores the registers as it found them

  /** The product of a matrix and a table, with the constants at the start of DMEM. */
  type Scaling = (Matrix, Matrix, seq<Byte>) -> Matrix

  /** The number of matrices: mode + 2 with the first table, one each with the other two. */
  function Count(mode: int): nat { Turns(mode + 2) + 2 }

  /** Where the table of matrix i lies. */
  function TableOf(mode: int, i: nat): nat {
    if i < Turns(mode + 2) then 0x60 else if i == Turns(mode + 2) then 0xE0 else 0x160
  }

  /** The specification: matrix i is scaled by its own table. */
  function Direct(was: seq<Byte>, mode: int, f: Scaling, i: nat): Matrix
    requires |was| == DMEM && INPUT + 0x80 * (i + 1) <= DMEM
  {
    f(Slot(was, INPUT + 0x80 * i), Slot(was, TableOf(mode, i)), was[..0x10])
  }

  /** What the loop computes: matrix 6 lies where the dummy was stored, and the ones behind it where
      earlier results were. */
  function Scaled(was: seq<Byte>, mode: int, f: Scaling, stale: Matrix, i: nat): Matrix
    requires |was| == DMEM
    decreases i, 1
  {
    f(Loaded(was, mode, f, stale, i), Slot(was, TableOf(mode, i)), was[..0x10])
  }

  function Loaded(was: seq<Byte>, mode: int, f: Scaling, stale: Matrix, i: nat): Matrix
    requires |was| == DMEM
    decreases i, 0
  {
    if i < 6 then Slot(was, INPUT + 0x80 * i)
    else if i == 6 then stale
    else Scaled(was, mode, f, stale, i - 7)
  }

  ghost predicate SequentialFor(was: seq<Byte>, mode: int, f: Scaling, stale: Matrix)
    requires |was| == DMEM && INPUT + 0x80 * Count(mode) <= DMEM
  {
    forall i :: 0 <= i < Count(mode) ==> Scaled(was, mode, f, stale, i) == Direct(was, mode, f, i)
  }

  /** The loop computes what it should, whatever f is and whatever the registers held, exactly when there
      are at most six matrices. */
  lemma {:induction false} SequentialExactly(was: seq<Byte>, mode: int)
    requires |was| == DMEM && INPUT + 0x80 * Count(mode) <= DMEM
    ensures (forall f: Scaling, stale: Matrix :: SequentialFor(was, mode, f, stale)) <==> mode <= 2
  {
    if mode > 2 {
      SeventhIsLost(was, mode);
      var f: Scaling, stale: Matrix :| !SequentialFor(was, mode, f, stale);
    } else {
      forall f: Scaling, stale: Matrix
        ensures SequentialFor(was, mode, f, stale)
      {
      }
    }
  }

  /** With a seventh matrix the registers' old contents are taken for it. */
  lemma {:induction false} SeventhIsLost(was: seq<Byte>, mode: int)
    requires |was| == DMEM && INPUT + 0x80 * Count(mode) <= DMEM && mode > 2
    ensures exists f: Scaling, stale: Matrix :: !SequentialFor(was, mode, f, stale)
  {
    var same: Scaling := (b: Matrix, t: Matrix, c: seq<Byte>) => b;
    var there := Slot(was, DUMMY);
    var other: Byte := if there[0] == 0 then 1 else 0;
    var stale: Matrix := there[0 := other];
    assert stale[0] != there[0];
    assert Scaled(was, mode, same, stale, 6) == stale;
    assert Direct(was, mode, same, 6) == there;
    assert !SequentialFor(was, mode, same, stale);
  }

  // ---- The loop ----------------------------------------------------------------------------

  // Before turn i: what the registers and DMEM hold
  ghost predicate Pipe(was: seq<Byte>, m: seq<Byte>, mode: int, f: Scaling, stale: Matrix, i: nat,
                       loaded: Matrix, result: Matrix)
    requires |was| == DMEM && SCALED + 0x80 * i <= DMEM
  {
    && |m| == DMEM && m[..DUMMY] == was[..DUMMY]
    && loaded == Loaded(was, mode, f, stale, i)
    && result == (if i == 0 then stale else Scaled(was, mode, f, stale, i - 1))
    && (i > 0 ==> Slot(m, DUMMY) == stale)
    && forall j :: 0 <= j < i - 1 ==> Slot(m, SCALED + 0x80 * j) == Scaled(was, mode, f, stale, j)
  }

  lemma {:induction false} Below(was: seq<Byte>, m: seq<Byte>, p: nat, q: nat)
    requires |was| == |m| == DMEM && m[..DUMMY] == was[..DUMMY] && p <= q <= DUMMY
    ensures m[p..q] == was[p..q]
  {
    SliceOfSlice(m, 0, DUMMY, p, q);
    SliceOfSlice(was, 0, DUMMY, p, q);
    assert m[0..DUMMY] == was[0..DUMMY];
  }

  // The store of a turn
  lemma {:induction false} PipeStore(was: seq<Byte>, m: seq<Byte>, mode: int, f: Scaling, stale: Matrix, i: nat,
                                     loaded: Matrix, result: Matrix)
    requires |was| == DMEM && DUMMY + 0x80 * (i + 1) <= DMEM && SCALED + 0x80 * i <= DMEM
    requires Pipe(was, m, mode, f, stale, i, loaded, result)
    ensures var m' := Put(m, DUMMY + 0x80 * i, result);
            && m'[..DUMMY] == was[..DUMMY] && Slot(m', DUMMY) == stale
            && forall j :: 0 <= j < i ==> Slot(m', SCALED + 0x80 * j) == Scaled(was, mode, f, stale, j)
  {
    hide Scaled, Loaded;
    var p := DUMMY + 0x80 * i;
    PutElsewhere(m, p, result, 0, DUMMY);
    PutHere(m, p, result, 0, 0x80);
    if i > 0 { PutElsewhere(m, p, result, DUMMY, DUMMY + 0x80); }
    forall j | 0 <= j < i
      ensures Slot(Put(m, p, result), SCALED + 0x80 * j) == Scaled(was, mode, f, stale, j)
    {
      if j < i - 1 { PutElsewhere(m, p, result, SCALED + 0x80 * j, SCALED + 0x80 * j + 0x80); }
    }
  }

  // The load of a turn
  lemma {:induction false} PipeLoad(was: seq<Byte>, m: seq<Byte>, mode: int, f: Scaling, stale: Matrix, i: nat)
    requires |was| == |m| == DMEM && SCALED + 0x80 * i <= DMEM && m[..DUMMY] == was[..DUMMY] && Slot(m, DUMMY) == stale
    requires forall j :: 0 <= j < i ==> Slot(m, SCALED + 0x80 * j) == Scaled(was, mode, f, stale, j)
    ensures Slot(m, INPUT + 0x80 * (i + 1)) == Loaded(was, mode, f, stale, i + 1)
  {
    hide Scaled;
    if i + 1 < 6 {
      Below(was, m, INPUT + 0x80 * (i + 1), INPUT + 0x80 * (i + 1) + 0x80);
    } else if i + 1 > 6 {
      assert INPUT + 0x80 * (i + 1) == SCALED + 0x80 * (i - 6);
    }
  }

  ghost predicate Dequantised(was: seq<Byte>, m: seq<Byte>, mode: int, f: Scaling, stale: Matrix)
    requires |was| == DMEM && SCALED + 0x80 * Count(mode) <= DMEM
  {
    && |m| == DMEM && m[..DUMMY] == was[..DUMMY]
    && forall i :: 0 <= i < Count(mode) ==> Slot(m, SCALED + 0x80 * i) == Scaled(was, mode, f, stale, i)
  }

  /** One turn. */
  method Turn(was: seq<Byte>, m: seq<Byte>, r4: nat, r5: nat, ghost mode: int, f: Scaling, table: Matrix,
              one: seq<Byte>, loaded: Matrix, result: Matrix, ghost stale: Matrix, ghost i: nat)
    returns (dmem: seq<Byte>, loaded': Matrix, result': Matrix)
    requires |was| == DMEM && SCALED + 0x80 * (i + 1) <= DMEM && Pipe(was, m, mode, f, stale, i, loaded, result)
    requires r4 == INPUT + 0x80 * (i + 1) && r5 == DUMMY + 0x80 * i
    requires table == Slot(was, TableOf(mode, i)) && one == was[..0x10]
    ensures Pipe(was, dmem, mode, f, stale, i + 1, loaded', result')
  {
    PipeStore(was, m, mode, f, stale, i, loaded, result);
    dmem := Put(m, r5, result);
    result' := f(loaded, table, one);
    PipeLoad(was, dmem, mode, f, stale, i);
    loaded' := Slot(dmem, r4);
  }

  /** The two nested loops and the final store. stale is what registers v24 to v31 hold before. */
  method Dequantise(was: seq<Byte>, mode: int, f: Scaling, stale: Matrix) returns (dmem: seq<Byte>)
    requires |was| == DMEM && SCALED + 0x80 * Count(mode) <= DMEM
    ensures Dequantised(was, dmem, mode, f, stale)
  {
    hide Pipe, Scaled, Loaded;
    dmem := was;
    var one, loaded, result := dmem[..0x10], Slot(dmem, INPUT), stale;
    var r4, r5, r6, r7, r8 := INPUT + 0x80, DUMMY, 0x60, 3, mode + 2;
    ghost var i, end := 0, 0;
    PipeStart(was, mode, f, stale);
    while true
      invariant 1 <= r7 <= 3 && r6 == 0x60 + 0x80 * (3 - r7)
      invariant i == (if r7 == 3 then 0 else if r7 == 2 then Turns(mode + 2) else Turns(mode + 2) + 1)
      invariant r8 == (if r7 == 3 then mode + 2 else 1)
      invariant r4 == INPUT + 0x80 * (i + 1) && r5 == DUMMY + 0x80 * i && SCALED + 0x80 * i <= DMEM
      invariant Pipe(was, dmem, mode, f, stale, i, loaded, result)
      decreases r7
    {
      PipeKeepsTables(was, dmem, mode, f, stale, i, loaded, result, r6);
      var table := Slot(dmem, r6);
      r7 := r7 - 1;
      end := i + Turns(r8);
      while true
        invariant i + Turns(r8) == end
        invariant r4 == INPUT + 0x80 * (i + 1) && r5 == DUMMY + 0x80 * i && SCALED + 0x80 * i <= DMEM
        invariant forall j :: i <= j < end ==> TableOf(mode, j) == r6
        invariant Pipe(was, dmem, mode, f, stale, i, loaded, result)
        decreases end - i
      {
        dmem, loaded, result := Turn(was, dmem, r4, r5, mode, f, table, one, loaded, result, stale, i);
        r4, r8, r5, i := r4 + 0x80, r8 - 1, r5 + 0x80, i + 1;
        if r8 <= 0 {
          break;
        }
      }
      r8, r6 := 1, r6 + 0x80;
      if r7 <= 0 {
        break;
      }
    }
    PipeStore(was, dmem, mode, f, stale, i, loaded, result);
    dmem := Put(dmem, r5, result);
  }

  lemma {:induction false} PipeStart(was: seq<Byte>, mode: int, f: Scaling, stale: Matrix)
    requires |was| == DMEM
    ensures Pipe(was, was, mode, f, stale, 0, Slot(was, INPUT), stale)
  {
  }

  lemma {:induction false} PipeKeepsTables(was: seq<Byte>, m: seq<Byte>, mode: int, f: Scaling, stale: Matrix, i: nat,
                                           loaded: Matrix, result: Matrix, p: nat)
    requires |was| == DMEM && SCALED + 0x80 * i <= DMEM && p + 0x80 <= DUMMY
    requires Pipe(was, m, mode, f, stale, i, loaded, result)
    ensures |m| == DMEM && Slot(m, p) == Slot(was, p)
  {
    Below(was, m, p, p + 0x80);
  }

  // ---- Both loops over one block -----------------------------------------------------------------

  /** Matrix i of a block, dequantised and in raster order; low is DMEM below the block. */
  function Coefficient(low: seq<Byte>, mode: nat, block: seq<Byte>, f: Scaling, i: nat): Matrix
    requires |low| == INPUT && 0x80 * (i + 1) <= |block|
  {
    Ordered(f(Slot(block, 0x80 * i), Slot(low, TableOf(mode, i)), low[..0x10]))
  }

  /** The first n of them. */
  function Coefficients(low: seq<Byte>, mode: nat, block: seq<Byte>, f: Scaling, n: nat): (r: seq<Byte>)
    requires |low| == INPUT && 0x80 * n <= |block|
    ensures |r| == 0x80 * n
  {
    if n == 0 then [] else Coefficients(low, mode, block, f, n - 1) + Coefficient(low, mode, block, f, n - 1)
  }

  lemma {:induction false} CoefficientsAt(low: seq<Byte>, mode: nat, block: seq<Byte>, f: Scaling, n: nat,
                                          m: seq<Byte>, p: nat)
    requires |low| == INPUT && 0x80 * n <= |block| && p + 0x80 * n <= |m|
    requires forall i :: 0 <= i < n ==> Slot(m, p + 0x80 * i) == Coefficient(low, mode, block, f, i)
    ensures m[p..p + 0x80 * n] == Coefficients(low, mode, block, f, n)
  {
    if n > 0 {
      hide Coefficient;
      CoefficientsAt(low, mode, block, f, n - 1, m, p);
      assert m[p..p + 0x80 * n] == m[p..p + 0x80 * (n - 1)] + Slot(m, p + 0x80 * (n - 1));
    }
  }

  /** L_1174 to L_13D8 do what they should with a block of at most six matrices. */
  method DequantiseBlock(was: seq<Byte>, mode: nat, f: Scaling, stale: Matrix, ghost block: seq<Byte>)
    returns (dmem: seq<Byte>)
    requires |was| == DMEM && mode <= 2 && 0x80 * (mode + 4) <= |block| <= 0x300 && was[INPUT..INPUT + |block|] == block
    ensures |dmem| == DMEM && dmem[..INPUT] == was[..INPUT]
    ensures dmem[ORDERED..ORDERED + 0x80 * (mode + 4)] == Coefficients(was[..INPUT], mode, block, f, mode + 4)
  {
    hide Ordered, Coefficients, Scaled;
    var scaled := Dequantise(was, mode, f, stale);
    dmem := Reorder(scaled, mode);
    forall i | 0 <= i < mode + 4
      ensures Slot(dmem, ORDERED + 0x80 * i) == Coefficient(was[..INPUT], mode, block, f, i)
    {
      ScaledBlock(was, mode, f, stale, block, i);
      assert Slot(dmem, ORDERED + 0x80 * i) == OrderedTurn(scaled, i);
    }
    CoefficientsAt(was[..INPUT], mode, block, f, mode + 4, dmem, ORDERED);
    assert dmem[0..INPUT] == was[0..INPUT] by {
      SliceOfSlice(dmem, 0, ORDERED, 0, INPUT);
      SliceOfSlice(scaled, 0, ORDERED, 0, INPUT);
      Below(was, scaled, 0, INPUT);
      assert dmem[0..ORDERED] == scaled[0..ORDERED];
    }
  }

  lemma {:induction false} ScaledBlock(was: seq<Byte>, mode: nat, f: Scaling, stale: Matrix, block: seq<Byte>, i: nat)
    requires |was| == DMEM && mode <= 2 && i < mode + 4
    requires 0x80 * (mode + 4) <= |block| <= 0x300 && was[INPUT..INPUT + |block|] == block
    ensures Ordered(Scaled(was, mode, f, stale, i)) == Coefficient(was[..INPUT], mode, block, f, i)
  {
    SliceOfSlice(was, INPUT, INPUT + |block|, 0x80 * i, 0x80 * i + 0x80);
    SliceOfSlice(was, 0, INPUT, TableOf(mode, i), TableOf(mode, i) + 0x80);
    SliceOfSlice(was, 0, INPUT, 0, 0x10);
    assert was[0..INPUT] == was[..INPUT];
    assert was[..INPUT][..0x10] == was[..0x10];
  }
}

/** rsp/njpgdspMain.cpp, L_12A0: the coefficients of a block arrive in zig-zag order and are stored in
    transposed raster order. The order of A.3.6 of ITU-T T.81 is given by the walk it describes; the
    microcode has 64 fixed store offsets instead. */
module JpegReorder {

  import opened Basics
  import opened SpMemory

  /** The 64 halfwords of an eight by eight matrix. */
  type Matrix = b: seq<Byte> | |b| == 0x80 witness seq(0x80, _ => 0)

  const SCALED := 0x560    // dequantised matrices
  const ORDERED := 0x8E0   // matrices in raster order

  function Slot(m: seq<Byte>, p: nat): Matrix
    requires p + 0x80 <= |m|
  {
    m[p..p + 0x80]
  }

  // ---- The zig-zag order ----------------------------------------------------------------

  /** A cell of the matrix; rising tells in which direction the walk crosses its diagonal. */
  datatype Cell = Cell(row: nat, col: nat, rising: bool)
  {
    // The walk goes up on the even diagonals.
    predicate Inside() { row < 8 && col < 8 && (rising <==> (row + col) % 2 == 0) }
  }

  /** One step: up to the right, or down to the left, and along the border from one diagonal to the next. */
  function Next(c: Cell): Cell {
    if c.rising then
      if c.col == 7 then Cell(c.row + 1, 7, false)
      else if c.row == 0 then Cell(0, c.col + 1, false)
      else Cell(c.row - 1, c.col + 1, true)
    else
      if c.row == 7 then Cell(7, c.col + 1, true)
      else if c.col == 0 then Cell(c.row + 1, 0, true)
      else Cell(c.row + 1, c.col - 1, false)
  }

  function Walk(k: nat): Cell {
    if k == 0 then Cell(0, 0, true) else Next(Walk(k - 1))
  }

  /** Diagonal s holds the cells whose row and column add up to s; Start(s) cells lie on earlier ones. */
  function Length(s: nat): int { if s < 8 then s + 1 else 15 - s }
  function Start(s: nat): int { if s == 0 then 0 else Start(s - 1) + Length(s - 1) }

  /** The number of cells that the walk meets before a cell. */
  function Rank(c: Cell): int {
    var s := c.row + c.col;
    Start(s) + (if c.rising then c.col else c.row) - (if s < 8 then 0 else s - 7)
  }

  lemma {:induction false} NextIsInside(c: Cell)
    requires c.Inside() && !(c.row == c.col == 7)
    ensures Next(c).Inside()
  {
  }

  // A cell that is the last of its diagonal
  predicate Ends(c: Cell) {
    if c.rising then c.col == 7 || c.row == 0 else c.row == 7 || c.col == 0
  }

  lemma {:induction false} RankAlong(c: Cell)
    requires c.Inside() && !Ends(c)
    ensures Rank(Next(c)) == Rank(c) + 1
  {
    hide Start, Cell.Inside;
  }

  lemma {:induction false} RankAtEnd(c: Cell)
    requires c.Inside() && Ends(c) && !(c.row == c.col == 7)
    ensures Rank(c) == Start(c.row + c.col) + Length(c.row + c.col) - 1
  {
    hide Start;
  }

  lemma {:induction false} RankAtStart(c: Cell)
    requires c.Inside() && Ends(c) && !(c.row == c.col == 7)
    ensures Next(c).row + Next(c).col == c.row + c.col + 1 && Rank(Next(c)) == Start(c.row + c.col + 1)
  {
    hide Start;
  }

  lemma {:induction false} RankOfNext(c: Cell)
    requires c.Inside() && !(c.row == c.col == 7)
    ensures Next(c).Inside() && Rank(Next(c)) == Rank(c) + 1
  {
    NextIsInside(c);
    assert Start(c.row + c.col + 1) == Start(c.row + c.col) + Length(c.row + c.col);
    hide Start, Cell.Inside, Ends, Rank, Next;
    if Ends(c) {
      RankAtEnd(c);
      RankAtStart(c);
    } else {
      RankAlong(c);
    }
  }

  lemma {:induction false} StartIsMonotone(s: nat, t: nat)
    requires s <= t <= 15
    ensures Start(s) <= Start(t)
  {
    if s < t { StartIsMonotone(s, t - 1); }
  }

  lemma {:induction false} LastRank(c: Cell)
    ensures c.Inside() && c.row == c.col == 7 ==> Rank(c) == 63
  {
    AllCells();
    hide Start;
  }

  lemma {:induction false} AllCells()
    ensures Start(14) == 63 && Start(15) == 64
  {
    assert Start(7) == 28;
  }

  lemma {:induction false} RankRange(c: Cell)
    requires c.Inside()
    ensures Start(c.row + c.col) <= Rank(c) < Start(c.row + c.col + 1) && 0 <= Rank(c) < 64
  {
    var s := c.row + c.col;
    StartIsMonotone(0, s);
    StartIsMonotone(s + 1, 15);
    AllCells();
    assert Start(0) == 0 && Start(s + 1) == Start(s) + Length(s);
    hide Start;
  }

  /** The walk meets every cell of the matrix, exactly once. */
  lemma {:induction false} RankOfWalk(k: nat)
    requires k < 64
    ensures Walk(k).Inside() && Rank(Walk(k)) == k
  {
    if k > 0 {
      RankOfWalk(k - 1);
      LastRank(Walk(k - 1));
      hide Rank, Start, Next, Cell.Inside;
      RankOfNext(Walk(k - 1));
    }
  }

  lemma {:induction false} SameDiagonal(c: Cell, d: Cell)
    requires c.Inside() && d.Inside() && Rank(c) == Rank(d)
    ensures c.row + c.col == d.row + d.col
  {
    RankRange(c);
    RankRange(d);
    var s, t := c.row + c.col, d.row + d.col;
    hide Rank, Start, Cell.Inside;
    if s < t {
      StartIsMonotone(s + 1, t);
    } else if t < s {
      StartIsMonotone(t + 1, s);
    }
  }

  lemma {:induction false} RankIsInjective(c: Cell, d: Cell)
    requires c.Inside() && d.Inside() && Rank(c) == Rank(d)
    ensures c == d
  {
    SameDiagonal(c, d);
    assert c.rising == d.rising;
    hide Start;
  }

  lemma {:induction false} WalkOfRank(c: Cell)
    requires c.Inside()
    ensures 0 <= Rank(c) < 64 && Walk(Rank(c)) == c
  {
    RankRange(c);
    hide Rank, Start, Walk, Cell.Inside;
    RankOfWalk(Rank(c));
    RankIsInjective(c, Walk(Rank(c)));
  }

  // ---- The microcode's store offsets ------------------------------------------------------

  /** Where the eight lanes of a register are stored, in halfwords. */
  datatype Lanes = Lanes(a: nat, b: nat, c: nat, d: nat, e: nat, f: nat, g: nat, h: nat)
  {
    function At(j: nat): nat {
      if j == 0 then a else if j == 1 then b else if j == 2 then c else if j == 3 then d
      else if j == 4 then e else if j == 5 then f else if j == 6 then g else h
    }
  }

  /** The stores of register v24 + i. */
  function Stores(i: nat): Lanes {
    if i == 0 then Lanes(0x00, 0x08, 0x01, 0x02, 0x09, 0x10, 0x18, 0x11)
    else if i == 1 then Lanes(0x0A, 0x03, 0x04, 0x0B, 0x12, 0x19, 0x20, 0x28)
    else if i == 2 then Lanes(0x21, 0x1A, 0x13, 0x0C, 0x05, 0x06, 0x0D, 0x14)
    else if i == 3 then Lanes(0x1B, 0x22, 0x29, 0x30, 0x38, 0x31, 0x2A, 0x23)
    else if i == 4 then Lanes(0x1C, 0x15, 0x0E, 0x07, 0x0F, 0x16, 0x1D, 0x24)
    else if i == 5 then Lanes(0x2B, 0x32, 0x39, 0x3A, 0x33, 0x2C, 0x25, 0x1E)
    else if i == 6 then Lanes(0x17, 0x1F, 0x26, 0x2D, 0x34, 0x3B, 0x3C, 0x35)
    else Lanes(0x2E, 0x27, 0x2F, 0x36, 0x3D, 0x3E, 0x37, 0x3F)
  }

  function StoreOf(k: nat): nat
    requires k < 64
  {
    Stores(k / 8).At(k % 8)
  }

  /** Where a cell lies in the transposed matrix, and the cell that lies there. */
  function Place(c: Cell): nat { 8 * c.col + c.row }
  function CellAt(p: nat): Cell { Cell(p % 8, p / 8, (p % 8 + p / 8) % 2 == 0) }

  // Nine consecutive cells of the walk
  datatype Path = Path(a: Cell, b: Cell, c: Cell, d: Cell, e: Cell, f: Cell, g: Cell, h: Cell, n: Cell)
  {
    predicate Walked() {
      && b == Next(a) && c == Next(b) && d == Next(c) && e == Next(d)
      && f == Next(e) && g == Next(f) && h == Next(g) && n == Next(h)
    }

    // Eight stores go to the first eight of them; spelled out, as the solver goes astray in Place.
    predicate Stored(s: Lanes) {
      && s.a == 8 * a.col + a.row && s.b == 8 * b.col + b.row
      && s.c == 8 * c.col + c.row && s.d == 8 * d.col + d.row
      && s.e == 8 * e.col + e.row && s.f == 8 * f.col + f.row
      && s.g == 8 * g.col + g.row && s.h == 8 * h.col + h.row
    }
  }

  // The stores of one register after the other, each from the cell where the one before stopped

  lemma {:induction false} V24(p: Path)
    requires p.Walked() && p.a == Cell(0, 0, true)
    ensures p.Stored(Stores(0)) && p.n == Cell(2, 1, false)
  {
    assert p.b == Cell(0, 1, false) && p.c == Cell(1, 0, false);
    assert p.d == Cell(2, 0, true) && p.e == Cell(1, 1, true);
    assert p.f == Cell(0, 2, true) && p.g == Cell(0, 3, false);
    assert p.h == Cell(1, 2, false) && p.n == Cell(2, 1, false);
    hide Next;
  }

  lemma {:induction false} V25(p: Path)
    requires p.Walked() && p.a == Cell(2, 1, false)
    ensures p.Stored(Stores(1)) && p.n == Cell(1, 4, false)
  {
    assert p.b == Cell(3, 0, false) && p.c == Cell(4, 0, true);
    assert p.d == Cell(3, 1, true) && p.e == Cell(2, 2, true);
    assert p.f == Cell(1, 3, true) && p.g == Cell(0, 4, true);
    assert p.h == Cell(0, 5, false) && p.n == Cell(1, 4, false);
    hide Next;
  }

  lemma {:induction false} V26(p: Path)
    requires p.Walked() && p.a == Cell(1, 4, false)
    ensures p.Stored(Stores(2)) && p.n == Cell(3, 3, true)
  {
    assert p.b == Cell(2, 3, false) && p.c == Cell(3, 2, false);
    assert p.d == Cell(4, 1, false) && p.e == Cell(5, 0, false);
    assert p.f == Cell(6, 0, true) && p.g == Cell(5, 1, true);
    assert p.h == Cell(4, 2, true) && p.n == Cell(3, 3, true);
    hide Next;
  }

  lemma {:induction false} V27(p: Path)
    requires p.Walked() && p.a == Cell(3, 3, true)
    ensures p.Stored(Stores(3)) && p.n == Cell(4, 3, false)
  {
    assert p.b == Cell(2, 4, true) && p.c == Cell(1, 5, true);
    assert p.d == Cell(0, 6, true) && p.e == Cell(0, 7, false);
    assert p.f == Cell(1, 6, false) && p.g == Cell(2, 5, false);
    assert p.h == Cell(3, 4, false) && p.n == Cell(4, 3, false);
    hide Next;
  }

  lemma {:induction false} V28(p: Path)
    requires p.Walked() && p.a == Cell(4, 3, false)
    ensures p.Stored(Stores(4)) && p.n == Cell(3, 5, true)
  {
    assert p.b == Cell(5, 2, false) && p.c == Cell(6, 1, false);
    assert p.d == Cell(7, 0, false) && p.e == Cell(7, 1, true);
    assert p.f == Cell(6, 2, true) && p.g == Cell(5, 3, true);
    assert p.h == Cell(4, 4, true) && p.n == Cell(3, 5, true);
    hide Next;
  }

  lemma {:induction false} V29(p: Path)
    requires p.Walked() && p.a == Cell(3, 5, true)
    ensures p.Stored(Stores(5)) && p.n == Cell(7, 2, false)
  {
    assert p.b == Cell(2, 6, true) && p.c == Cell(1, 7, true);
    assert p.d == Cell(2, 7, false) && p.e == Cell(3, 6, false);
    assert p.f == Cell(4, 5, false) && p.g == Cell(5, 4, false);
    assert p.h == Cell(6, 3, false) && p.n == Cell(7, 2, false);
    hide Next;
  }

  lemma {:induction false} V30(p: Path)
    requires p.Walked() && p.a == Cell(7, 2, false)
    ensures p.Stored(Stores(6)) && p.n == Cell(6, 5, false)
  {
    assert p.b == Cell(7, 3, true) && p.c == Cell(6, 4, true);
    assert p.d == Cell(5, 5, true) && p.e == Cell(4, 6, true);
    assert p.f == Cell(3, 7, true) && p.g == Cell(4, 7, false);
    assert p.h == Cell(5, 6, false) && p.n == Cell(6, 5, false);
    hide Next;
  }

  lemma {:induction false} V31(p: Path)
    requires p.Walked() && p.a == Cell(6, 5, false)
    ensures p.Stored(Stores(7)) && p.n == Cell(8, 7, false)
  {
    assert p.b == Cell(7, 4, false) && p.c == Cell(7, 5, true);
    assert p.d == Cell(6, 6, true) && p.e == Cell(5, 7, true);
    assert p.f == Cell(6, 7, false) && p.g == Cell(7, 6, false);
    assert p.h == Cell(7, 7, true) && p.n == Cell(8, 7, false);
    hide Next;
  }

  // The cell that register v24 + i starts with
  function First(i: nat): Cell {
    if i == 0 then Cell(0, 0, true)
    else if i == 1 then Cell(2, 1, false)
    else if i == 2 then Cell(1, 4, false)
    else if i == 3 then Cell(3, 3, true)
    else if i == 4 then Cell(4, 3, false)
    else if i == 5 then Cell(3, 5, true)
    else if i == 6 then Cell(7, 2, false)
    else if i == 7 then Cell(6, 5, false)
    else Cell(8, 7, false)
  }

  lemma {:induction false} RegisterStored(i: nat, p: Path)
    requires i < 8 && p.Walked() && p.a == First(i)
    ensures p.Stored(Stores(i)) && p.n == First(i + 1)
  {
    hide Path.Walked, Path.Stored, Stores;
    if i == 0 { V24(p); } else if i == 1 { V25(p); } else if i == 2 { V26(p); } else if i == 3 { V27(p); }
    else if i == 4 { V28(p); } else if i == 5 { V29(p); } else if i == 6 { V30(p); } else { V31(p); }
  }

  // The walk from its k-th cell
  function PathFrom(k: nat): Path {
    Path(Walk(k), Walk(k + 1), Walk(k + 2), Walk(k + 3), Walk(k + 4), Walk(k + 5), Walk(k + 6), Walk(k + 7),
         Walk(k + 8))
  }

  lemma {:induction false} PathIsWalked(k: nat)
    ensures PathFrom(k).Walked()
  {
    hide Next;
  }

  lemma {:induction false} AllStoredFrom(i: nat)
    requires i < 8
    ensures PathFrom(8 * i).a == First(i)
    ensures PathFrom(8 * i).Stored(Stores(i)) && PathFrom(8 * i).n == First(i + 1)
  {
    WalkStarts();
    hide Walk, Stores, Path.Stored, Path.Walked, First;
    if i > 0 {
      AllStoredFrom(i - 1);
      assert PathFrom(8 * (i - 1)).n == PathFrom(8 * i).a;
    }
    PathIsWalked(8 * i);
    RegisterStored(i, PathFrom(8 * i));
  }

  lemma {:induction false} WalkStarts()
    ensures Walk(0) == First(0)
  {
  }

  lemma {:induction false} StoredAt(k: nat, s: Lanes, j: nat)
    requires PathFrom(k).Stored(s) && j < 8
    ensures s.At(j) == Place(Walk(k + j))
  {
    hide Walk;
    if j < 4 {
      if j < 2 { if j == 0 {} else {} } else if j == 2 {} else {}
    } else {
      if j < 6 { if j == 4 {} else {} } else if j == 6 {} else {}
    }
  }

  /** The k-th store goes where the k-th cell of the walk lies in the transposed matrix. */
  lemma {:induction false} StoresFollowWalk(k: nat)
    requires k < 64
    ensures StoreOf(k) == Place(Walk(k))
  {
    hide Walk, Place, Stores, PathFrom, Path.Stored, First, Lanes.At;
    AllStoredFrom(k / 8);
    StoredAt(8 * (k / 8), Stores(k / 8), k % 8);
    assert k == 8 * (k / 8) + k % 8;
  }

  lemma {:induction false} PlaceOfCell(p: nat)
    requires p < 64
    ensures CellAt(p).Inside() && Place(CellAt(p)) == p
  {
  }

  lemma {:induction false} CellOfPlace(c: Cell)
    requires c.Inside()
    ensures Place(c) < 64 && CellAt(Place(c)) == c
  {
  }

  /** Different stores go to different places. */
  lemma {:induction false} RankOfStore(k: nat)
    requires k < 64
    ensures StoreOf(k) < 64 && CellAt(StoreOf(k)) == Walk(k) && Rank(CellAt(StoreOf(k))) == k
  {
    hide *;
    StoresFollowWalk(k);
    RankOfWalk(k);
    CellOfPlace(Walk(k));
  }

  /** Every place is stored to. */
  lemma {:induction false} StoreOfRank(p: nat)
    requires p < 64
    ensures 0 <= Rank(CellAt(p)) < 64 && StoreOf(Rank(CellAt(p))) == p
  {
    hide *;
    PlaceOfCell(p);
    WalkOfRank(CellAt(p));
    StoresFollowWalk(Rank(CellAt(p)));
  }

  // ---- The loop ------------------------------------------------------------------------------

  /** The matrix in transposed raster order of a matrix in zig-zag order. */
  function Ordered(b: Matrix): Matrix {
    seq<Byte>(0x80, x requires 0 <= x < 0x80 => OrderedAt(b, x))
  }

  function OrderedAt(b: Matrix, x: nat): Byte
    requires x < 0x80
  {
    StoreOfRank(x / 2);
    b[2 * Rank(CellAt(x / 2)) + x % 2]
  }

  lemma {:induction false} OrderedAtHalf(b: Matrix, p: nat, k: nat, j: nat)
    requires p < 64 && k < 64 && Rank(CellAt(p)) == k && j < 2
    ensures Ordered(b)[2 * p + j] == b[2 * k + j]
  {
    hide Rank, CellAt;
    assert (2 * p + j) / 2 == p && (2 * p + j) % 2 == j;
  }

  lemma {:induction false} OrderedPair(b: Matrix, k: nat)
    requires k < 64
    ensures var p := 2 * StoreOf(k); p + 2 <= 0x80 && Ordered(b)[p] == b[2 * k] && Ordered(b)[p + 1] == b[2 * k + 1]
  {
    hide StoreOf, Rank, CellAt, Walk;
    RankOfStore(k);
    var p := StoreOf(k);
    OrderedAtHalf(b, p, k, 0);
    OrderedAtHalf(b, p, k, 1);
  }

  /** Coefficient k of the zig-zag order goes to the k-th cell of the walk. */
  lemma {:induction false} OrderedIsZigZag(b: Matrix, k: nat)
    requires k < 64
    ensures var p := 2 * Place(Walk(k)); p + 2 <= 0x80 && Ordered(b)[p..p + 2] == b[2 * k..2 * k + 2]
  {
    hide *;
    OrderedPair(b, k);
    StoresFollowWalk(k);
  }

  // The halfwords of the first k stores are in place
  ghost predicate Stored(m: seq<Byte>, r5: nat, b: Matrix, k: nat)
    requires r5 + 0x80 <= |m|
  {
    forall x :: 0 <= x < 0x80 && Rank(CellAt(x / 2)) < k ==> m[r5 + x] == Ordered(b)[x]
  }

  lemma {:induction false} StoreNext(m: seq<Byte>, r5: nat, b: Matrix, k: nat)
    requires r5 + 0x80 <= |m| && k < 64 && Stored(m, r5, b, k)
    ensures StoreOf(k) < 64 && Stored(Put(m, r5 + 2 * StoreOf(k), b[2 * k..2 * k + 2]), r5, b, k + 1)
  {
    hide StoreOf, Rank, CellAt, Walk, Ordered;
    RankOfStore(k);
    OrderedPair(b, k);
    var p := StoreOf(k);
    var m' := Put(m, r5 + 2 * p, b[2 * k..2 * k + 2]);
    forall x | 0 <= x < 0x80 && Rank(CellAt(x / 2)) < k + 1
      ensures m'[r5 + x] == Ordered(b)[x]
    {
      StoreOfRank(x / 2);
    }
  }

  lemma {:induction false} AllStored(m: seq<Byte>, r5: nat, b: Matrix)
    requires r5 + 0x80 <= |m| && Stored(m, r5, b, 64)
    ensures m[r5..r5 + 0x80] == Ordered(b)
  {
    hide Rank, CellAt, Ordered;
    forall x | 0 <= x < 0x80
      ensures m[r5 + x] == Ordered(b)[x]
    {
      StoreOfRank(x / 2);
    }
  }

  /** The 64 stores of one turn put the ordered matrix at r5. */
  method StoreMatrix(was: seq<Byte>, row: Matrix, r5: nat) returns (dmem: seq<Byte>)
    requires r5 + 0x80 <= |was|
    ensures dmem == Put(was, r5, Ordered(row))
  {
    hide StoreOf, Rank, CellAt, Ordered, Stored;
    dmem := was;
    NothingStored(dmem, r5, row);
    for k := 0 to 64
      invariant |dmem| == |was| && dmem[..r5] == was[..r5] && dmem[r5 + 0x80..] == was[r5 + 0x80..]
      invariant Stored(dmem, r5, row, k)
    {
      StoreNext(dmem, r5, row, k);
      var p := r5 + 2 * StoreOf(k);
      PutElsewhere(dmem, p, row[2 * k..2 * k + 2], 0, r5);
      PutElsewhere(dmem, p, row[2 * k..2 * k + 2], r5 + 0x80, |was|);
      dmem := Put(dmem, p, row[2 * k..2 * k + 2]);
    }
    AllStored(dmem, r5, row);
    assert dmem == dmem[..r5] + dmem[r5..r5 + 0x80] + dmem[r5 + 0x80..];
  }

  lemma {:induction false} NothingStored(m: seq<Byte>, r5: nat, b: Matrix)
    requires r5 + 0x80 <= |m|
    ensures Stored(m, r5, b, 0)
  {
    hide Rank, CellAt, Ordered;
    forall x | 0 <= x < 0x80
      ensures Rank(CellAt(x / 2)) >= 0
    {
      StoreOfRank(x / 2);
    }
  }

  /** The turns of a loop that is left when its counter, decremented, is no longer positive. */
  function Turns(r: int): nat { if r > 0 then r else 1 }

  /** What turn i stores: from the eighth one on the loop reads what it has stored itself. */
  function OrderedTurn(was: seq<Byte>, i: nat): Matrix
    requires |was| == DMEM
  {
    Ordered(if i < 7 then Slot(was, SCALED + 0x80 * i) else OrderedTurn(was, i - 7))
  }

  ghost predicate Reordered(was: seq<Byte>, m: seq<Byte>, n: nat)
    requires |was| == DMEM && ORDERED + 0x80 * n <= DMEM
  {
    && |m| == DMEM && m[..ORDERED] == was[..ORDERED]
    && forall i :: 0 <= i < n ==> Slot(m, ORDERED + 0x80 * i) == OrderedTurn(was, i)
  }

  lemma {:induction false} ReorderedNext(was: seq<Byte>, m: seq<Byte>, n: nat)
    requires |was| == DMEM && ORDERED + 0x80 * (n + 1) <= DMEM && Reordered(was, m, n)
    ensures Reordered(was, Put(m, ORDERED + 0x80 * n, Ordered(Slot(m, SCALED + 0x80 * n))), n + 1)
  {
    hide Ordered;
    if n < 7 {
      SliceOfSlice(m, 0, ORDERED, SCALED + 0x80 * n, SCALED + 0x80 * n + 0x80);
      SliceOfSlice(was, 0, ORDERED, SCALED + 0x80 * n, SCALED + 0x80 * n + 0x80);
      assert m[0..ORDERED] == was[0..ORDERED];
    }
    var p, row := ORDERED + 0x80 * n, Ordered(Slot(m, SCALED + 0x80 * n));
    assert row == OrderedTurn(was, n);
    PutElsewhere(m, p, row, 0, ORDERED);
    PutHere(m, p, row, 0, 0x80);
    forall i | 0 <= i < n + 1
      ensures Slot(Put(m, p, row), ORDERED + 0x80 * i) == OrderedTurn(was, i)
    {
      if i < n { PutElsewhere(m, p, row, ORDERED + 0x80 * i, ORDERED + 0x80 * i + 0x80); }
    }
  }

  /** L_12A0: mode + 4 matrices are put in order. */
  method Reorder(was: seq<Byte>, mode: int) returns (dmem: seq<Byte>)
    requires |was| == DMEM && ORDERED + 0x80 * Turns(mode + 4) <= DMEM
    ensures Reordered(was, dmem, Turns(mode + 4))
  {
    hide Ordered, Reordered;
    dmem := was;
    var r7, r4, r5 := mode + 4, SCALED, ORDERED;
    ghost var i := 0;
    NotReordered(was);
    while true
      invariant i + Turns(r7) == Turns(mode + 4)
      invariant Reordered(was, dmem, i) && |dmem| == DMEM
      invariant r4 == SCALED + 0x80 * i && r5 == ORDERED + 0x80 * i
      decreases Turns(mode + 4) - i
    {
      r7 := r7 - 1;
      ReorderedNext(was, dmem, i);
      dmem := StoreMatrix(dmem, Slot(dmem, r4), r5);
      r4, r5, i := r4 + 0x80, r5 + 0x80, i + 1;
      if r7 <= 0 {
        break;
      }
    }
  }

  lemma {:induction false} NotReordered(was: seq<Byte>)
    requires |was| == DMEM
    ensures Reordered(was, was, 0)
  {
  }
}

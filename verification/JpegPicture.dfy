/** rsp/njpgdspMain.cpp: what the header of a picture means for its blocks, in terms of the bytes in RDRAM
    and without the DMEM addresses of the microcode. */
module JpegPicture {

  import opened Basics
  import opened SpMemory
  import JpegReorder
  import JpegDequantise
  import opened JpegBlockLoop

  /** Six big-endian words: where the blocks are, how many there are, their mode, and where the three
      quantisation tables are. */
  datatype Fields = Fields(base: Word, count: Word, mode: Word, first: Word, second: Word, third: Word)

  function HeaderBytes(h: Fields): (b: seq<Byte>)
    ensures |b| == 24
  {
    BytesOf(h.base) + BytesOf(h.count) + BytesOf(h.mode) + BytesOf(h.first) + BytesOf(h.second) + BytesOf(h.third)
  }

  function Field(h: Fields, i: nat): Word
    requires i < 6
  {
    [h.base, h.count, h.mode, h.first, h.second, h.third][i]
  }

  predicate HasHeader(task: Task, m: seq<Byte>, h: Fields) {
    task.dataPtr + 24 <= |m| && m[task.dataPtr..task.dataPtr + 24] == HeaderBytes(h)
  }

  lemma {:induction false} HeaderField(task: Task, m: seq<Byte>, h: Fields, i: nat)
    requires HasHeader(task, m, h) && i < 6
    ensures Header(task, m, i) == Field(h, i)
  {
    SliceOfSlice(m, task.dataPtr, task.dataPtr + 24, 4 * i, 4 * i + 4);
    WordRoundTrip(Field(h, i));
    hide WordOf, BytesOf;
    assert HeaderBytes(h)[4 * i..4 * i + 4] == BytesOf(Field(h, i));
  }

  // The 0x80 bytes of a table
  function TableAt(m: seq<Byte>, p: nat): JpegReorder.Matrix
    requires p + 0x80 <= |m|
  {
    m[p..p + 0x80]
  }

  /** A fresh task decodes the picture that its header describes: with these fields, and with the tables
      behind the constants. */
  lemma {:induction false} HeaderDescribes(task: Task, pic: Picture, low: seq<Byte>, m: seq<Byte>, h: Fields)
    requires HasHeader(task, m, h) && |low| == 0x60
    requires 24 <= task.dataSize <= DMEM - BLOCK && task.dataPtr + task.dataSize <= |m|
    requires h.first + 0x80 <= |m| && h.second + 0x80 <= |m| && h.third + 0x80 <= |m|
    ensures Described(task, pic, low, m) <==>
            && pic.base == h.base && pic.count == h.count && pic.mode == h.mode
            && pic.tables == low + TableAt(m, h.first) + TableAt(m, h.second) + TableAt(m, h.third)
  {
    AllFields(task, m, h);
    hide HasHeader, HeaderBytes, WordOf, Header;
    assert (forall i :: 3 <= i < 6 ==> Header(task, m, i) + 0x80 <= |m|) by {
      forall i | 3 <= i < 6
        ensures Header(task, m, i) + 0x80 <= |m|
      {
        assert i == 3 || i == 4 || i == 5;
      }
    }
  }

  lemma {:induction false} AllFields(task: Task, m: seq<Byte>, h: Fields)
    requires HasHeader(task, m, h)
    ensures Header(task, m, 0) == h.base && Header(task, m, 1) == h.count && Header(task, m, 2) == h.mode
    ensures Header(task, m, 3) == h.first && Header(task, m, 4) == h.second && Header(task, m, 5) == h.third
  {
    HeaderField(task, m, h, 0);
    HeaderField(task, m, h, 1);
    HeaderField(task, m, h, 2);
    HeaderField(task, m, h, 3);
    HeaderField(task, m, h, 4);
    HeaderField(task, m, h, 5);
    hide Header, HasHeader;
  }

  lemma {:induction false} CoefficientSlot(low: seq<Byte>, mode: nat, block: seq<Byte>, f: JpegDequantise.Scaling,
                                           n: nat, i: nat)
    requires |low| == JpegDequantise.INPUT && 0x80 * n <= |block| && i < n
    ensures JpegReorder.Slot(JpegDequantise.Coefficients(low, mode, block, f, n), 0x80 * i)
         == JpegDequantise.Coefficient(low, mode, block, f, i)
  {
    hide JpegDequantise.Coefficient;
    var front := JpegDequantise.Coefficients(low, mode, block, f, n - 1);
    var all := JpegDequantise.Coefficients(low, mode, block, f, n);
    if i < n - 1 {
      CoefficientSlot(low, mode, block, f, n - 1, i);
      assert all[0x80 * i..0x80 * i + 0x80] == front[0x80 * i..0x80 * i + 0x80];
    } else {
      assert all[0x80 * i..0x80 * i + 0x80] == JpegDequantise.Coefficient(low, mode, block, f, i);
    }
  }

  lemma {:induction false} TablesBehind(low: seq<Byte>, a: JpegReorder.Matrix, b: JpegReorder.Matrix,
                                        c: JpegReorder.Matrix)
    requires |low| == 0x60
    ensures var t := low + a + b + c;
            && JpegReorder.Slot(t, 0x60) == a && JpegReorder.Slot(t, 0xE0) == b && JpegReorder.Slot(t, 0x160) == c
            && t[..0x10] == low[..0x10]
  {
  }

  /** Matrix i of a dequantised block is matrix i of the block, scaled and ordered, with the first table of
      the header for the first mode + 2 matrices, the second for the next and the third for the last one. */
  lemma {:induction false} MatrixHasItsTable(task: Task, pic: Picture, low: seq<Byte>, m: seq<Byte>, h: Fields,
                                             block: seq<Byte>, i: nat)
    requires HasHeader(task, m, h) && Described(task, pic, low, m)
    requires |block| == pic.Stride() && i < pic.mode + 4
    requires h.first + 0x80 <= |m| && h.second + 0x80 <= |m| && h.third + 0x80 <= |m|
    ensures var p := if i < pic.mode + 2 then h.first else if i == pic.mode + 2 then h.second else h.third;
            JpegReorder.Slot(pic.Dequantised(block), 0x80 * i)
              == JpegReorder.Ordered(pic.scale(JpegReorder.Slot(block, 0x80 * i), TableAt(m, p), low[..0x10]))
  {
    hide JpegReorder.Ordered, JpegDequantise.Coefficients;
    HeaderDescribes(task, pic, low, m, h);
    hide Described, HasHeader;
    TablesBehind(low, TableAt(m, h.first), TableAt(m, h.second), TableAt(m, h.third));
    CoefficientSlot(pic.tables, pic.mode, block, pic.scale, pic.mode + 4, i);
  }

  /** The blocks lie one behind the other, and hold their mode + 4 matrices of 64 coefficients. In modes 0 and
      2 there is nothing else in them, and a block is decoded to a halfword for each coefficient of the first
      mode + 2. */
  lemma {:induction false} Geometry(pic: Picture, k: nat)
    ensures pic.At(0) == pic.base && pic.At(k + 1) == pic.At(k) + pic.Stride()
    ensures pic.mode != 1 ==> pic.Stride() == 2 * 64 * (pic.mode + 4) && pic.OutLen() == 2 * 64 * (pic.mode + 2)
    ensures 2 * 64 * (pic.mode + 4) <= pic.Stride() && pic.OutLen() < pic.Stride()
  {
  }
}

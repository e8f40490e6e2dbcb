/** An encoder for the format read by tools/test_yay0_oracle.py, and the proof that decompressing an
    encoding returns the expansion of its operations. */
module Yay0RoundTrip {
  import opened Basics
  import opened Yay0

  datatype Op = Literal(b: Byte) | Match(length: nat, distance: nat)

  predicate Encodable(op: Op) {
    op.Match? ==> 3 <= op.length <= 273 && 1 <= op.distance <= 4096
  }

  /** The first count bytes of block block block ... */
  function Repeat(block: seq<Byte>, count: nat): (r: seq<Byte>)
    requires block != []
    ensures |r| == count
    decreases count
  {
    if count <= |block| then block[..count] else block + Repeat(block, count - |block|)
  }

  /** A match repeats the last `distance` bytes of the output, as often as its length asks for. */
  function Extend(out: seq<Byte>, distance: nat, count: nat): seq<Byte>
    requires 1 <= distance <= |out|
  {
    out + Repeat(out[|out| - distance..], count)
  }

  /** Every operation is encodable and no match reaches before the start of the output. */
  predicate Valid(ops: seq<Op>)
    decreases ops, 0
  {
    ops == [] ||
    (var init, op := ops[..|ops| - 1], ops[|ops| - 1];
     Valid(init) && Encodable(op) && (op.Match? ==> op.distance <= |Expand(init)|))
  }

  function Expand(ops: seq<Op>): seq<Byte>
    requires Valid(ops)
    decreases ops, 1
  {
    if ops == [] then []
    else
      var init := Expand(ops[..|ops| - 1]);
      match ops[|ops| - 1]
      case Literal(b) => init + [b]
      case Match(length, distance) => Extend(init, distance, length)
  }

  // ---- The encoder --------------------------------------------------------------------

  function Mask(ops: seq<Op>): seq<bool> { seq(|ops|, i requires 0 <= i < |ops| => ops[i].Literal?) }

  function LinkCode(op: Op): nat
    requires op.Match? && Encodable(op)
  {
    (if op.length <= 17 then op.length - 2 else 0) * 4096 + op.distance - 1
  }

  function LinkBytes(op: Op): seq<Byte>
    requires Encodable(op)
  {
    if op.Literal? then [] else [LinkCode(op) / 256, LinkCode(op) % 256]
  }

  function ChunkBytes(op: Op): seq<Byte>
    requires Encodable(op)
  {
    match op
    case Literal(b) => [b]
    case Match(length, _) => if length <= 17 then [] else [length - 18]
  }

  function Links(ops: seq<Op>): seq<Byte>
    requires Encodables(ops)
  {
    if ops == [] then [] else Links(ops[..|ops| - 1]) + LinkBytes(ops[|ops| - 1])
  }

  function Chunks(ops: seq<Op>): seq<Byte>
    requires Encodables(ops)
  {
    if ops == [] then [] else Chunks(ops[..|ops| - 1]) + ChunkBytes(ops[|ops| - 1])
  }

  function Padded(bits: seq<bool>): (r: seq<bool>)
    ensures |r| % 32 == 0 && bits <= r
  {
    bits + seq((32 - |bits| % 32) % 32, i => false)
  }

  // Bytes of a bit string, eight bits a byte
  function Pack(bits: seq<bool>): (r: seq<Byte>)
    requires |bits| % 8 == 0
    ensures 8 * |r| == |bits|
  {
    if bits == [] then []
    else
      ByteValue(bits[|bits| - 8..]);
      Pack(bits[..|bits| - 8]) + [Value(bits[|bits| - 8..])]
  }

  lemma {:induction false} ByteValue(bits: seq<bool>)
    requires |bits| == 8
    ensures Value(bits) < 256
  {
    ValueBound(bits);
    PowersOfTwo();
  }

  // A header field
  function Be4(n: nat): (r: seq<Byte>)
    requires n < 0x1_0000_0000
    ensures |r| == 4
  {
    BytesOf(n)
  }

  predicate Encodables(ops: seq<Op>) { forall op :: op in ops ==> Encodable(op) }

  lemma {:induction false} ValidIsEncodable(ops: seq<Op>)
    requires Valid(ops)
    ensures Encodables(ops)
  {
    if ops != [] { ValidIsEncodable(ops[..|ops| - 1]); }
  }

  function MaskBytes(ops: seq<Op>): seq<Byte> { Pack(Padded(Mask(ops))) }

  function LinkStart(ops: seq<Op>): nat { 0x10 + |MaskBytes(ops)| }

  function ChunkStart(ops: seq<Op>): nat
    requires Encodables(ops)
  {
    LinkStart(ops) + |Links(ops)|
  }

  /** The sizes fit their header fields. */
  predicate Fits(ops: seq<Op>)
    requires Valid(ops) && Encodables(ops)
  {
    |Expand(ops)| < 0x1_0000_0000 && ChunkStart(ops) < 0x1_0000_0000
  }

  function Encode(magic: seq<Byte>, ops: seq<Op>): seq<Byte>
    requires |magic| == 4 && Valid(ops) && Encodables(ops) && Fits(ops)
  {
    var header := magic + Be4(|Expand(ops)|) + Be4(LinkStart(ops)) + Be4(ChunkStart(ops));
    header + MaskBytes(ops) + Links(ops) + Chunks(ops)
  }

  // ---- Header ---------------------------------------------------------------------------

  lemma {:induction false} BeOfFour(n: nat)
    requires n < 0x1_0000_0000
    ensures Be(Be4(n)) == n
  {
    hide Be, BytesOf;
    BeOfBytes(Be4(n));
    WordRoundTrip(n);
  }

  lemma {:induction false} HeaderFields(magic: seq<Byte>, ops: seq<Op>)
    requires |magic| == 4 && Valid(ops) && Encodables(ops) && Fits(ops)
    ensures var blob := Encode(magic, ops);
            && Unpack(blob, 4, 4) == Some(|Expand(ops)|)
            && Unpack(blob, 8, 4) == Some(LinkStart(ops))
            && Unpack(blob, 0xC, 4) == Some(ChunkStart(ops))
  {
    hide Expand, Links, Chunks, MaskBytes, Be, Be4;
    var blob := Encode(magic, ops);
    BeOfFour(|Expand(ops)|);
    BeOfFour(LinkStart(ops));
    BeOfFour(ChunkStart(ops));
    assert blob[4..8] == Be4(|Expand(ops)|);
    assert blob[8..12] == Be4(LinkStart(ops));
    assert blob[12..16] == Be4(ChunkStart(ops));
  }

  // ---- Mask bits ------------------------------------------------------------------------

  lemma {:induction false} PackedByte(bits: seq<bool>, i: nat)
    requires |bits| % 8 == 0 && 8 * i < |bits|
    ensures Pack(bits)[i] == Value(bits[8 * i..8 * i + 8])
  {
    PackedByteOf(bits, |bits| / 8, i);
  }

  lemma {:induction false} PackedByteOf(bits: seq<bool>, m: nat, i: nat)
    requires |bits| == 8 * m && i < m
    ensures Pack(bits)[i] == Value(bits[8 * i..8 * i + 8])
    decreases m
  {
    PackLast(bits);
    hide Pack, Value;
    var front := bits[..|bits| - 8];
    if i < m - 1 {
      PackedByteOf(front, m - 1, i);
      ByteOfFront(bits, |bits| - 8, 8 * i);
    }
  }

  lemma {:induction false} ByteOfFront(bits: seq<bool>, n: nat, p: nat)
    requires p + 8 <= n <= |bits|
    ensures bits[..n][p..p + 8] == bits[p..p + 8]
  {
  }

  lemma {:induction false} PackLast(bits: seq<bool>)
    requires |bits| % 8 == 0 && bits != []
    ensures |bits| >= 8 && Pack(bits) == Pack(bits[..|bits| - 8]) + [Value(bits[|bits| - 8..|bits| - 8 + 8])]
  {
    hide Value;
    assert bits[|bits| - 8..|bits|] == bits[|bits| - 8..];
  }

  lemma {:induction false} ValueOfByteAppended(a: seq<bool>, b: seq<bool>)
    requires |b| == 8
    ensures Value(a + b) == 256 * Value(a) + Value(b)
  {
    ConcatValue(a, b);
    PowersOfTwo();
  }

  lemma {:induction false} ConcatValue(a: seq<bool>, b: seq<bool>)
    ensures Value(a + b) == Pow2(|b|) * Value(a) + Value(b)
  {
    if b == [] {
      assert a + b == a;
    } else {
      var init := b[..|b| - 1];
      ConcatValue(a, init);
      assert (a + b)[..|a + b| - 1] == a + init;
      assert Pow2(|b|) * Value(a) == 2 * (Pow2(|init|) * Value(a));
    }
  }

  lemma {:induction false} ValueOfWord(x: seq<bool>)
    requires |x| == 32
    ensures Value(x) == ((Value(x[0..8]) * 256 + Value(x[8..16])) * 256 + Value(x[16..24])) * 256 + Value(x[24..32])
  {
    hide Value;
    assert x[..16] == x[0..8] + x[8..16] && x[..24] == x[..16] + x[16..24] && x == x[..24] + x[24..32];
    ValueOfByteAppended(x[0..8], x[8..16]);
    ValueOfByteAppended(x[..16], x[16..24]);
    ValueOfByteAppended(x[..24], x[24..32]);
  }

  lemma {:induction false} WholeWord(n: nat, w: nat)
    requires n % 32 == 0 && 32 * w < n
    ensures 32 * w + 32 <= n && n % 8 == 0
  {
  }

  lemma {:induction false} PackedByteOfWord(bits: seq<bool>, w: nat, j: nat)
    requires |bits| % 32 == 0 && 32 * w < |bits| && j < 4
    ensures Pack(bits)[4 * w + j] == Value(bits[32 * w..32 * w + 32][8 * j..8 * j + 8])
  {
    hide Pack, Value;
    WholeWord(|bits|, w);
    PackedByte(bits, 4 * w + j);
    assert bits[8 * (4 * w + j)..8 * (4 * w + j) + 8] == bits[32 * w + 8 * j..32 * w + 8 * j + 8];
    SliceOfSlice(bits, 32 * w, 32 * w + 32, 8 * j, 8 * j + 8);
  }

  /** Four packed bytes read big-endian are the value of their 32 bits. */
  lemma {:induction false} PackedWord(bits: seq<bool>, w: nat)
    requires |bits| % 32 == 0 && 32 * w < |bits|
    ensures Be(Pack(bits)[4 * w..4 * w + 4]) == Value(bits[32 * w..32 * w + 32])
  {
    hide Pack, Value, Be;
    PackedByteOfWord(bits, w, 0);
    PackedByteOfWord(bits, w, 1);
    PackedByteOfWord(bits, w, 2);
    PackedByteOfWord(bits, w, 3);
    BeOfBytes(Pack(bits)[4 * w..4 * w + 4]);
    ValueOfWord(bits[32 * w..32 * w + 32]);
  }

  lemma {:induction false} BeOfBytes(b: seq<Byte>)
    requires |b| == 4
    ensures Be(b) == ((b[0] as int * 256 + b[1]) * 256 + b[2]) * 256 + b[3]
  {
    assert b[..3][..2] == b[..2] && b[..2][..1] == b[..1];
    assert Be(b[..1]) == b[0];
    assert Be(b[..2]) == b[0] as int * 256 + b[1];
    assert Be(b[..3]) == (b[0] as int * 256 + b[1]) * 256 + b[2];
  }

  lemma {:induction false} StreamBytes(magic: seq<Byte>, ops: seq<Op>)
    requires |magic| == 4 && Valid(ops) && Encodables(ops) && Fits(ops)
    ensures var blob := Encode(magic, ops);
            && |blob| == ChunkStart(ops) + |Chunks(ops)|
            && blob[0x10..LinkStart(ops)] == MaskBytes(ops)
            && blob[LinkStart(ops)..ChunkStart(ops)] == Links(ops)
            && blob[ChunkStart(ops)..] == Chunks(ops)
  {
    hide Expand, Links, Chunks, MaskBytes, Be4;
  }

  lemma {:induction false} BitPosition(bits: seq<bool>, k: nat)
    requires |bits| % 32 == 0 && k < |bits|
    ensures 32 * (k / 32) + 32 <= |bits| && bits[32 * (k / 32)..32 * (k / 32) + 32][k % 32] == bits[k]
  {
  }

  /** The decompressor reads exactly one mask bit per operation: whether it is a literal. */
  lemma {:induction false} MaskBitOfOp(magic: seq<Byte>, ops: seq<Op>, k: nat)
    requires |magic| == 4 && Valid(ops) && Encodables(ops) && Fits(ops) && k < |ops|
    ensures MaskBit(Encode(magic, ops), k) == Some(ops[k].Literal?)
  {
    hide Expand, Links, Chunks, Pack, Be, Value, BitsOf, Encode, Padded;
    StreamBytes(magic, ops);
    var bits := Padded(Mask(ops));
    assert bits[k] == Mask(ops)[k] == ops[k].Literal?;
    MaskBitOfBytes(Encode(magic, ops), bits, k);
  }

  lemma {:induction false} WordOfPack(blob: seq<Byte>, bits: seq<bool>, w: nat)
    requires |bits| % 32 == 0 && 32 * w + 32 <= |bits| && 0x10 + |Pack(bits)| <= |blob|
    requires blob[0x10..0x10 + |Pack(bits)|] == Pack(bits)
    ensures Unpack(blob, 0x10 + 4 * w, 4) == Some(Value(bits[32 * w..32 * w + 32]))
  {
    hide Pack, Be, Value;
    SliceOfSlice(blob, 0x10, 0x10 + |Pack(bits)|, 4 * w, 4 * w + 4);
    PackedWord(bits, w);
  }

  lemma {:induction false} MaskBitOfBytes(blob: seq<Byte>, bits: seq<bool>, k: nat)
    requires |bits| % 32 == 0 && k < |bits| && 0x10 + |Pack(bits)| <= |blob|
    requires blob[0x10..0x10 + |Pack(bits)|] == Pack(bits)
    ensures MaskBit(blob, k) == Some(bits[k])
  {
    hide Pack, Be, Value, BitsOf;
    var w := k / 32;
    BitPosition(bits, k);
    WordOfPack(blob, bits, w);
    BitsOfValue(bits[32 * w..32 * w + 32]);
  }

  // ---- Side streams -----------------------------------------------------------------------

  lemma {:induction false} LinksOfOp(ops: seq<Op>, k: nat)
    requires Encodables(ops) && k < |ops|
    ensures Encodables(ops[..k]) && Encodable(ops[k])
    ensures Links(ops[..k]) + LinkBytes(ops[k]) <= Links(ops)
    ensures Chunks(ops[..k]) + ChunkBytes(ops[k]) <= Chunks(ops)
  {
    if k + 1 < |ops| {
      var init := ops[..|ops| - 1];
      LinksOfOp(init, k);
      assert init[..k] == ops[..k];
    }
  }

  lemma {:induction false} ExpandOfPrefix(ops: seq<Op>, k: nat)
    requires Valid(ops) && k <= |ops|
    ensures Valid(ops[..k])
    ensures |Expand(ops[..k])| + |ops| - k <= |Expand(ops)|
    decreases |ops|
  {
    if k == |ops| {
      assert ops[..k] == ops;
    } else {
      var init := ops[..|ops| - 1];
      ExpandOfPrefix(init, k);
      assert init[..k] == ops[..k];
    }
  }

  // ---- The copy -----------------------------------------------------------------------------

  /** Repeating a block starts with its first byte and goes on with the rotated block. */
  lemma {:induction false} RepeatRotates(block: seq<Byte>, count: nat)
    requires block != [] && count > 0
    ensures Repeat(block, count) == [block[0]] + Repeat(block[1..] + [block[0]], count - 1)
    decreases count
  {
    var b, rest := block[0], block[1..];
    assert block == [b] + rest;
    if count <= |block| {
      assert (rest + [b])[..count - 1] == rest[..count - 1];
    } else {
      var more := Repeat(rest + [b], count - |block| - 1);
      RepeatRotates(block, count - |block|);
      assert count - 1 == |block| ==> more == [] && (rest + [b])[..count - 1] == (rest + [b]) + more;
      assert ([b] + rest) + ([b] + more) == [b] + ((rest + [b]) + more);
    }
  }

  /** The byte-serial, self-overlapping copy is the repetition of the last dist + 1 bytes. */
  lemma {:induction false} CopyIsPeriodic(out: seq<Byte>, dist: nat, count: nat)
    requires dist < |out|
    ensures Copy(out, dist, count) == Some(Extend(out, dist + 1, count))
    decreases count
  {
    if count > 0 {
      var from := |out| - dist - 1;
      var longer := out + [out[from]];
      CopyIsPeriodic(longer, dist, count - 1);
      RepeatRotates(out[from..], count);
      var rotated := out[from..][1..] + [out[from]];
      assert longer[|longer| - dist - 1..] == rotated;
      assert out + ([out[from]] + Repeat(rotated, count - 1)) == longer + Repeat(rotated, count - 1);
    } else {
      assert out + Repeat(out[|out| - dist - 1..], 0) == out;
    }
  }

  // ---- The round trip -------------------------------------------------------------------------

  function StateAt(ops: seq<Op>, k: nat): State
    requires k <= |ops| && Valid(ops[..k]) && Encodables(ops) && Encodables(ops[..k])
  {
    State(Expand(ops[..k]), LinkStart(ops) + |Links(ops[..k])|, ChunkStart(ops) + |Chunks(ops[..k])|)
  }

  lemma {:induction false} NextState(ops: seq<Op>, k: nat)
    requires Valid(ops) && Encodables(ops) && k < |ops|
    ensures Valid(ops[..k]) && Valid(ops[..k + 1]) && Encodables(ops[..k]) && Encodables(ops[..k + 1]) &&
            Encodable(ops[k])
    ensures ops[k].Match? ==> ops[k].distance <= |Expand(ops[..k])| && |Expand(ops[..k])| == |StateAt(ops, k).out|
    ensures var s := StateAt(ops, k);
            StateAt(ops, k + 1) ==
            State(match ops[k] case Literal(b) => s.out + [b] case Match(n, d) => Extend(s.out, d, n),
                  s.link + |LinkBytes(ops[k])|, s.chunk + |ChunkBytes(ops[k])|)
  {
    ExpandOfPrefix(ops, k);
    ExpandOfPrefix(ops, k + 1);
    assert ops[..k + 1][..k] == ops[..k];
  }

  lemma {:induction false} TwoBytes(c: nat)
    requires c < 0x1_0000
    ensures Be([c / 256, c % 256]) == c
  {
    assert [c / 256, c % 256][..1] == [c / 256];
    assert Be([c / 256]) == c / 256;
  }

  /** The bytes the encoder wrote for operation k are where the decoder looks for them. */
  lemma {:induction false} BytesOfOp(magic: seq<Byte>, ops: seq<Op>, k: nat)
    requires |magic| == 4 && Valid(ops) && Encodables(ops) && Fits(ops) && k < |ops|
    requires Valid(ops[..k]) && Encodables(ops[..k]) && Encodable(ops[k])
    ensures var blob, s := Encode(magic, ops), StateAt(ops, k);
            && (ChunkBytes(ops[k]) != [] ==> s.chunk < |blob| && blob[s.chunk] == ChunkBytes(ops[k])[0])
            && (ops[k].Match? ==> s.link + 2 <= |blob| && blob[s.link..s.link + 2] == LinkBytes(ops[k]))
  {
    hide Encode, Expand, Links, Chunks, MaskBytes, Valid;
    LinksOfOp(ops, k);
    StreamBytes(magic, ops);
    var blob, s, op := Encode(magic, ops), StateAt(ops, k), ops[k];
    var i, j := |Links(ops[..k])|, |Chunks(ops[..k])|;
    if ChunkBytes(op) != [] {
      assert blob[s.chunk] == blob[ChunkStart(ops)..][j] == ChunkBytes(op)[0];
    }
    if op.Match? {
      SliceOfSlice(blob, LinkStart(ops), ChunkStart(ops), i, i + 2);
      assert Links(ops)[i..i + 2] == LinkBytes(op);
    }
  }

  lemma {:induction false} LiteralDecodes(blob: seq<Byte>, s: State, op: Op)
    requires op.Literal? && s.chunk < |blob| && blob[s.chunk] == op.b
    ensures Operate(blob, s, true) == Some(State(s.out + [op.b], s.link, s.chunk + 1))
  {
    hide Copy;
  }

  lemma {:induction false} MatchDecodes(blob: seq<Byte>, s: State, op: Op)
    requires op.Match? && Encodable(op) && op.distance <= |s.out|
    requires Unpack(blob, s.link, 2) == Some(LinkCode(op))
    requires op.length > 17 ==> s.chunk < |blob| && blob[s.chunk] == op.length - 18
    ensures Operate(blob, s, false) ==
            Some(State(Extend(s.out, op.distance, op.length), s.link + 2,
                       if op.length > 17 then s.chunk + 1 else s.chunk))
  {
    hide Copy, Extend, Unpack;
    CopyIsPeriodic(s.out, op.distance - 1, op.length);
  }

  /** Operation k takes the decoder from the state after k operations to the state after k + 1: it uses
      one link exactly for a match, and one chunk byte exactly for a literal or a long match. */
  lemma {:induction false} OperationDecodes(magic: seq<Byte>, ops: seq<Op>, k: nat)
    requires |magic| == 4 && Valid(ops) && Encodables(ops) && Fits(ops) && k < |ops|
    ensures Valid(ops[..k]) && Valid(ops[..k + 1]) && Encodables(ops[..k]) && Encodables(ops[..k + 1])
    ensures Operate(Encode(magic, ops), StateAt(ops, k), ops[k].Literal?) == Some(StateAt(ops, k + 1))
  {
    hide Encode, StateAt, Valid, Encodables, Extend, Fits, Operate, Be;
    NextState(ops, k);
    BytesOfOp(magic, ops, k);
    var op, s := ops[k], StateAt(ops, k);
    if op.Literal? {
      LiteralDecodes(Encode(magic, ops), s, op);
    } else {
      TwoBytes(LinkCode(op));
      MatchDecodes(Encode(magic, ops), s, op);
    }
  }

  /** From the state after k operations the decoder reaches the end, unless it has to start an operation
      with more than maxOut bytes. */
  lemma {:induction false} RunsToTheEnd(magic: seq<Byte>, ops: seq<Op>, maxOut: nat, k: nat)
    requires |magic| == 4 && Valid(ops) && Encodables(ops) && Fits(ops) && k <= |ops|
    ensures Valid(ops[..k]) && Encodables(ops[..k])
    ensures ops != [] ==> Valid(ops[..|ops| - 1])
    ensures Run(Encode(magic, ops), maxOut, |Expand(ops)|, StateAt(ops, k), k) ==
            if k == |ops| || |Expand(ops[..|ops| - 1])| <= maxOut then Done(Expand(ops), |ops|) else Overshoot
    decreases |ops| - k
  {
    hide Encode, Expand, Links, Chunks, Valid, MaskBit, Operate, MaskBytes;
    ExpandOfPrefix(ops, k);
    if k == |ops| {
      assert ops[..k] == ops;
      if ops != [] { ExpandOfPrefix(ops, |ops| - 1); }
    } else {
      ExpandOfPrefix(ops, |ops| - 1);
      ExpandOfPrefix(ops[..|ops| - 1], k);
      assert ops[..|ops| - 1][..k] == ops[..k];
      MaskBitOfOp(magic, ops, k);
      OperationDecodes(magic, ops, k);
      RunsToTheEnd(magic, ops, maxOut, k + 1);
    }
  }

  /** The round trip: decompressing an encoding returns the expansion of its operations, with one step
      per operation, exactly when the output before the last operation is within maxOut; otherwise the
      decompressor gives up. */
  method RoundTrip(magic: seq<Byte>, ops: seq<Op>, maxOut: nat) returns (r: Outcome)
    requires |magic| == 4 && Valid(ops) && Encodables(ops) && Fits(ops)
    ensures ops != [] ==> Valid(ops[..|ops| - 1])
    ensures r == if ops == [] || |Expand(ops[..|ops| - 1])| <= maxOut then Done(Expand(ops), |ops|) else Overshoot
  {
    hide Encode, MaskBytes;
    HeaderFields(magic, ops);
    RunsToTheEnd(magic, ops, maxOut, 0);
    assert ops[..0] == [];
    r := Decompress(Encode(magic, ops), maxOut);
  }

  // ---- A file, byte by byte -----------------------------------------------------------------

  lemma {:induction false} OneMoreOp(ops: seq<Op>, op: Op)
    requires Valid(ops) && Encodables(ops) && Encodable(op) && (op.Match? ==> op.distance <= |Expand(ops)|)
    ensures Valid(ops + [op]) && Encodables(ops + [op])
    ensures Expand(ops + [op]) ==
            if op.Literal? then Expand(ops) + [op.b] else Extend(Expand(ops), op.distance, op.length)
    ensures Links(ops + [op]) == Links(ops) + LinkBytes(op) && Chunks(ops + [op]) == Chunks(ops) + ChunkBytes(op)
  {
    hide Encodable, Extend, LinkBytes, ChunkBytes;
    assert (ops + [op])[..|ops|] == ops;
  }

  // Two letters, and a match that repeats them twice
  function TwoLetters(): seq<Op> { [] + [Literal(0x41)] + [Literal(0x42)] }

  function SampleOps(): seq<Op> { TwoLetters() + [Match(4, 2)] }

  lemma {:induction false} NoOps()
    ensures Valid([]) && Encodables([]) && Expand([]) == [] && Links([]) == [] && Chunks([]) == []
  {
  }

  lemma {:induction false} Letters()
    ensures Valid(TwoLetters()) && Encodables(TwoLetters()) && Expand(TwoLetters()) == [0x41, 0x42]
    ensures Links(TwoLetters()) == [] && Chunks(TwoLetters()) == [0x41, 0x42]
  {
    hide Valid, Encodables, Expand, Links, Chunks;
    NoOps();
    OneMoreOp([], Literal(0x41));
    OneMoreOp([] + [Literal(0x41)], Literal(0x42));
  }

  lemma {:induction false} LettersTwice()
    ensures Extend([0x41, 0x42], 2, 4) == [0x41, 0x42, 0x41, 0x42, 0x41, 0x42]
  {
    var block: seq<Byte> := [0x41, 0x42];
    assert block[|block| - 2..] == block;
    assert Repeat(block, 4) == block + Repeat(block, 2) && Repeat(block, 2) == block;
  }

  lemma {:induction false} SampleStreams()
    ensures Valid(SampleOps()) && Encodables(SampleOps())
    ensures Expand(SampleOps()) == [0x41, 0x42, 0x41, 0x42, 0x41, 0x42]
    ensures Links(SampleOps()) == [0x20, 0x01] && Chunks(SampleOps()) == [0x41, 0x42]
  {
    hide Valid, Encodables, Expand, Links, Chunks, Extend, TwoLetters;
    Letters();
    LettersTwice();
    OneMoreOp(TwoLetters(), Match(4, 2));
    assert LinkCode(Match(4, 2)) == 0x2001;
  }

  lemma {:induction false} OneMoreByte(bits: seq<bool>, last: seq<bool>)
    requires |bits| % 8 == 0 && |last| == 8
    ensures Value(last) < 256 && Pack(bits + last) == Pack(bits) + [Value(last)]
  {
    ByteValue(last);
    assert (bits + last)[..|bits + last| - 8] == bits && (bits + last)[|bits + last| - 8..] == last;
  }

  // The bits of a byte that starts with the given two
  function Octet(a: bool, b: bool): seq<bool> { Zeros(Zeros([] + [a] + [b], 3), 3) }

  function Zeros(bits: seq<bool>, n: nat): (r: seq<bool>)
    ensures |r| == |bits| + n && forall i :: 0 <= i < |r| ==> r[i] == (i < |bits| && bits[i])
  {
    if n == 0 then bits else Zeros(bits, n - 1) + [false]
  }

  lemma {:induction false} ZerosValue(bits: seq<bool>)
    ensures Value(Zeros(bits, 3)) == 8 * Value(bits)
  {
    OneMoreBit(bits, false);
    OneMoreBit(bits + [false], false);
    OneMoreBit(bits + [false] + [false], false);
    assert Zeros(bits, 1) == Zeros(bits, 0) + [false] && Zeros(bits, 2) == Zeros(bits, 1) + [false];
    assert Zeros(bits, 3) == bits + [false] + [false] + [false];
    hide Value;
  }

  lemma {:induction false} OneMoreBit(bits: seq<bool>, b: bool)
    ensures Value(bits + [b]) == 2 * Value(bits) + (if b then 1 else 0)
  {
    assert (bits + [b])[..|bits|] == bits;
  }

  lemma {:induction false} OctetValue(b: bool)
    ensures Value(Octet(b, b)) == if b then 0xC0 else 0
  {
    NoBits();
    OneMoreBit([], b);
    OneMoreBit([] + [b], b);
    hide Value;
    ZerosValue([] + [b] + [b]);
    ZerosValue(Zeros([] + [b] + [b], 3));
    hide Zeros;
  }

  lemma {:induction false} NoBits()
    ensures Value([]) == 0
  {
  }

  lemma {:induction false} SampleMask()
    ensures MaskBytes(SampleOps()) == [0xC0, 0, 0, 0]
  {
    hide Value, Pack;
    var first, zeros := Octet(true, true), Octet(false, false);
    OctetValue(true);
    OctetValue(false);
    PackNone();
    OneMoreByte([], first);
    OneMoreByte([] + first, zeros);
    OneMoreByte([] + first + zeros, zeros);
    OneMoreByte([] + first + zeros + zeros, zeros);
    assert Padded(Mask(SampleOps())) == [] + first + zeros + zeros + zeros;
  }

  lemma {:induction false} PackNone()
    ensures Pack([]) == []
  {
  }

  /** The format: sizes, offsets and words are big-endian, mask bits start at the top, a link holds its length
      less two above the distance less one. */
  lemma {:induction false} SampleFile(magic: seq<Byte>)
    requires |magic| == 4
    ensures Valid(SampleOps()) && Encodables(SampleOps()) && Fits(SampleOps())
    ensures Expand(SampleOps()) == [0x41, 0x42, 0x41, 0x42, 0x41, 0x42]
    ensures Encode(magic, SampleOps()) == magic + [0, 0, 0, 6] + [0, 0, 0, 0x14] + [0, 0, 0, 0x16]
                                          + [0xC0, 0, 0, 0] + [0x20, 0x01] + [0x41, 0x42]
  {
    SampleStreams();
    SampleMask();
    hide Valid, Encodables, Expand, Links, Chunks, MaskBytes;
    assert Be4(6) == [0, 0, 0, 6] && Be4(0x14) == [0, 0, 0, 0x14] && Be4(0x16) == [0, 0, 0, 0x16];
  }
}

/** tools/test_yay0_oracle.py: the Yay0-style decompressor, and an encoder it inverts. */
module Yay0 {

  import opened Basics

  // ---- Reading the blob ------------------------------------------------------------

  function Be(bytes: seq<Byte>): nat {
    if bytes == [] then 0 else 256 * Be(bytes[..|bytes| - 1]) + bytes[|bytes| - 1]
  }

  /** struct.unpack_from with n big-endian unsigned bytes; out of range is an exception. */
  function Unpack(blob: seq<Byte>, off: int, n: nat): Option<nat> {
    if 0 <= off && off + n <= |blob| then Some(Be(blob[off..off + n])) else None
  }

  /** Overshoot is the tool's None; Broken stands for any exception. */
  datatype Outcome = Done(out: seq<Byte>, steps: nat) | Overshoot | Broken

  // ---- Mask words as bit strings -----------------------------------------------------

  /** The value of a bit string, most significant bit first. */
  function Value(bits: seq<bool>): nat {
    if bits == [] then 0 else 2 * Value(bits[..|bits| - 1]) + (if bits[|bits| - 1] then 1 else 0)
  }

  function Pow2(n: nat): nat { if n == 0 then 1 else 2 * Pow2(n - 1) }

  function BitsOf(w: nat, n: nat): (bits: seq<bool>)
    ensures |bits| == n
  {
    if n == 0 then [] else BitsOf(w / 2, n - 1) + [w % 2 == 1]
  }

  lemma {:induction false} ValueOfBits(w: nat, n: nat)
    requires w < Pow2(n)
    ensures Value(BitsOf(w, n)) == w
  {
    if n > 0 { ValueOfBits(w / 2, n - 1); }
  }

  lemma {:induction false} ValueBound(bits: seq<bool>)
    ensures Value(bits) < Pow2(|bits|)
  {
    if bits != [] { ValueBound(bits[..|bits| - 1]); }
  }

  lemma {:induction false} BitsOfValue(bits: seq<bool>)
    ensures BitsOf(Value(bits), |bits|) == bits
  {
    if bits != [] { BitsOfValue(bits[..|bits| - 1]); }
  }

  /** The leading bit weighs 2^(n-1). */
  lemma {:induction false} LeadingBit(bits: seq<bool>)
    requires bits != []
    ensures Value(bits) == (if bits[0] then Pow2(|bits| - 1) else 0) + Value(bits[1..])
  {
    if |bits| > 1 {
      var init := bits[..|bits| - 1];
      LeadingBit(init);
      assert init[1..] == bits[1..][..|bits| - 2];
    }
  }

  lemma {:induction false} AppendBit(bits: seq<bool>, b: bool)
    ensures Value(bits + [b]) == 2 * Value(bits) + (if b then 1 else 0)
  {
    assert (bits + [b])[..|bits|] == bits;
  }

  /** Shifting a 32-bit word left drops its leading bit and appends a zero; that bit is its sign. */
  lemma {:induction false} ShiftDropsLeadingBit(bits: seq<bool>)
    requires |bits| == 32
    ensures Value(bits) * 2 % 0x1_0000_0000 == Value(bits[1..] + [false])
    ensures Value(bits) >= 0x8000_0000 <==> bits[0]
    ensures Value(bits) < 0x1_0000_0000
  {
    hide Value, Pow2;
    LeadingBit(bits);
    ValueBound(bits[1..]);
    AppendBit(bits[1..], false);
    PowersOfTwo();
  }

  lemma {:induction false} PowersOfTwo()
    ensures Pow2(8) == 0x100 && Pow2(31) == 0x8000_0000 && Pow2(32) == 0x1_0000_0000
  {
    assert Pow2(8) == 0x100 && Pow2(12) == 0x1000;
    assert Pow2(16) == 0x1_0000 && Pow2(20) == 0x10_0000;
    assert Pow2(24) == 0x100_0000 && Pow2(28) == 0x1000_0000;
  }

  // The two's complement reading of a 32-bit word
  function Signed(w: int): int { if w >= 0x8000_0000 then w - 0x1_0000_0000 else w }

  // A word whose first n bits were shifted out
  function Shifted(bits: seq<bool>, n: nat): seq<bool>
    requires n <= |bits|
  {
    bits[n..] + seq(n, i => false)
  }

  /** One step of the tool's shift register: its sign is bit n, and shifting it drops that bit. */
  lemma {:induction false} RegisterStep(w: nat, n: nat)
    requires w < 0x1_0000_0000 && n < 32
    ensures var cur := Signed(Value(Shifted(BitsOf(w, 32), n)));
            && (cur < 0 <==> BitsOf(w, 32)[n])
            && Signed(cur * 2 % 0x1_0000_0000) == Signed(Value(Shifted(BitsOf(w, 32), n + 1)))
  {
    var bits := BitsOf(w, 32);
    var s := Shifted(bits, n);
    hide BitsOf, Value;
    ShiftDropsLeadingBit(s);
    assert s[1..] + [false] == Shifted(bits, n + 1);
    var v := Value(s);
    assert Signed(v) * 2 % 0x1_0000_0000 == v * 2 % 0x1_0000_0000;
  }

  lemma {:induction false} RegisterStart(w: nat)
    requires w < 0x1_0000_0000
    ensures Value(Shifted(BitsOf(w, 32), 0)) == w
  {
    assert Shifted(BitsOf(w, 32), 0) == BitsOf(w, 32);
    PowersOfTwo();
    ValueOfBits(w, 32);
  }

  // ---- What the decompressor computes -------------------------------------------------

  /** Mask bit k: bit k % 32, most significant first, of the mask word k / 32. */
  function MaskBit(blob: seq<Byte>, k: nat): Option<bool> {
    match Unpack(blob, 0x10 + 4 * (k / 32), 4)
    case None => None
    case Some(w) => Some(BitsOf(w, 32)[k % 32])
  }

  /** A list index of the host language: a negative one counts from the end. */
  function Index(out: seq<Byte>, i: int): Option<Byte> {
    var j := if i < 0 then i + |out| else i;
    if 0 <= j < |out| then Some(out[j]) else None
  }

  /** The byte-serial copy: each new byte repeats the one dist + 1 before it. */
  function Copy(out: seq<Byte>, dist: nat, count: nat): Option<seq<Byte>>
    decreases count
  {
    if count == 0 then Some(out)
    else match Index(out, |out| - dist - 1)
      case None => None
      case Some(b) => Copy(out + [b], dist, count - 1)
  }

  // The output and the positions in the two side streams
  datatype State = State(out: seq<Byte>, link: nat, chunk: nat)

  /** One operation: a literal chunk byte, or a link whose top four bits are the count and whose other
      twelve are the distance less one; a zero count takes a chunk byte. */
  function Operate(blob: seq<Byte>, s: State, literal: bool): (r: Option<State>)
    ensures r.Some? ==> |r.value.out| > |s.out|
  {
    if literal then
      if s.chunk < |blob| then Some(State(s.out + [blob[s.chunk]], s.link, s.chunk + 1)) else None
    else match Unpack(blob, s.link, 2)
      case None => None
      case Some(code) =>
        var long := code / 4096 == 0;
        if long && s.chunk >= |blob| then None
        else
          var count := if long then blob[s.chunk] + 0x12 else code / 4096 + 2;
          CopyLength(s.out, code % 4096, count);
          match Copy(s.out, code % 4096, count)
          case None => None
          case Some(out) => Some(State(out, s.link + 2, if long then s.chunk + 1 else s.chunk))
  }

  /** The run from a state in which k operations were done. It stops with output of the declared length,
      and never needs more operations than bytes. */
  function Run(blob: seq<Byte>, maxOut: nat, decSize: nat, s: State, k: nat): (r: Outcome)
    ensures r.Done? ==> |r.out| == decSize && k <= r.steps && r.steps - k <= decSize - |s.out|
    decreases decSize - |s.out|
  {
    if |s.out| == decSize then Done(s.out, k)
    else if |s.out| > decSize || |s.out| > maxOut then Overshoot
    else match MaskBit(blob, k)
      case None => Broken
      case Some(literal) =>
        match Operate(blob, s, literal)
        case None => Broken
        case Some(next) => Run(blob, maxOut, decSize, next, k + 1)
  }

  /** The run that the header of a blob starts. */
  function Decoded(blob: seq<Byte>, maxOut: nat): Outcome {
    var decSize, link, chunk := Unpack(blob, 4, 4), Unpack(blob, 8, 4), Unpack(blob, 0xC, 4);
    if decSize.None? || link.None? || chunk.None? then Broken
    else Run(blob, maxOut, decSize.value, State([], link.value, chunk.value), 0)
  }

  lemma {:induction false} CopyLength(out: seq<Byte>, dist: nat, count: nat)
    ensures Copy(out, dist, count).Some? ==> |Copy(out, dist, count).value| == |out| + count
    decreases count
  {
    if count > 0 {
      match Index(out, |out| - dist - 1)
      case None =>
      case Some(b) => CopyLength(out + [b], dist, count - 1);
    }
  }

  // The register holds what is left of mask word k / 32.
  ghost predicate Register(blob: seq<Byte>, k: nat, bitsLeft: nat, cur: int) {
    && bitsLeft == (32 - k % 32) % 32
    && (bitsLeft > 0 ==> Loaded(blob, k / 32, k % 32, cur))
  }

  ghost predicate Loaded(blob: seq<Byte>, word: nat, shift: nat, cur: int)
    requires shift <= 32
  {
    var w := Unpack(blob, 0x10 + 4 * word, 4);
    w.Some? && cur == Signed(Value(Shifted(BitsOf(w.value, 32), shift)))
  }

  lemma {:induction false} NoBit(blob: seq<Byte>, k: nat)
    ensures Unpack(blob, 0x10 + 4 * (k / 32), 4).None? ==> MaskBit(blob, k).None?
  {
  }

  lemma {:induction false} LoadedWord(blob: seq<Byte>, word: nat)
    requires Unpack(blob, 0x10 + 4 * word, 4).Some?
    ensures Loaded(blob, word, 0, Signed(Unpack(blob, 0x10 + 4 * word, 4).value))
  {
    hide BitsOf, Value, Be, Shifted;
    BeRange(blob, 0x10 + 4 * word);
    RegisterStart(Unpack(blob, 0x10 + 4 * word, 4).value);
  }

  lemma {:induction false} LoadedBit(blob: seq<Byte>, word: nat, shift: nat, cur: int)
    requires shift < 32 && Loaded(blob, word, shift, cur)
    ensures MaskBit(blob, 32 * word + shift) == Some(cur < 0)
    ensures Loaded(blob, word, shift + 1, Signed(cur * 2 % 0x1_0000_0000))
  {
    hide BitsOf, Value, Be, Shifted, Signed;
    BeRange(blob, 0x10 + 4 * word);
    RegisterStep(Unpack(blob, 0x10 + 4 * word, 4).value, shift);
  }

  lemma {:induction false} BitCounters(k: nat)
    ensures (k + 31) / 32 == (if k % 32 == 0 then k / 32 else k / 32 + 1) && (k + 32) / 32 == k / 32 + 1
    ensures 32 * (k / 32) + k % 32 == k
    ensures (k + 1) % 32 == if k % 32 == 31 then 0 else k % 32 + 1
    ensures k % 32 < 31 ==> (k + 1) / 32 == k / 32
  {
  }

  /** Fetching the next mask bit from the register, refilling it when it is empty. */
  method NextBit(blob: seq<Byte>, ghost k: nat, bitPos: nat, bitsLeft: nat, cur: int)
    returns (bit: Option<bool>, bitPos': nat, bitsLeft': nat, cur': int)
    requires Register(blob, k, bitsLeft, cur) && bitPos == 0x10 + 4 * ((k + 31) / 32)
    ensures bit == MaskBit(blob, k)
    ensures bit.Some? ==> Register(blob, k + 1, bitsLeft', cur') && bitPos' == 0x10 + 4 * ((k + 32) / 32)
  {
    hide BitsOf, Loaded, Signed, Be, MaskBit;
    BitCounters(k);
    bitPos', bitsLeft', cur' := bitPos, bitsLeft, cur;
    if bitsLeft' == 0 {
      var word := Unpack(blob, bitPos', 4);
      if word.None? {
        NoBit(blob, k);
        return None, bitPos', bitsLeft', cur';
      }
      LoadedWord(blob, k / 32);
      cur' := Signed(word.value);
      bitPos' := bitPos' + 4;
      bitsLeft' := 32;
    }
    LoadedBit(blob, k / 32, k % 32, cur');
    bit := Some(cur' < 0);
    cur' := Signed(cur' * 2 % 0x1_0000_0000);
    bitsLeft' := bitsLeft' - 1;
  }

  /** decompress: header fields, then the loop with its shift register. */
  method Decompress(blob: seq<Byte>, maxOut: nat) returns (r: Outcome)
    ensures r == Decoded(blob, maxOut)
  {
    hide MaskBit, Register, Operate, Be;
    var header := (Unpack(blob, 4, 4), Unpack(blob, 8, 4), Unpack(blob, 0xC, 4));
    if header.0.None? || header.1.None? || header.2.None? {
      return Broken;
    }
    var decSize := header.0.value;
    var s := State([], header.1.value, header.2.value);
    var bitPos, bitsLeft, cur := 0x10, 0, 0;
    var steps: nat := 0;
    ghost var result := Run(blob, maxOut, decSize, s, 0);
    EmptyRegister(blob, cur);
    while |s.out| != decSize
      invariant result == Run(blob, maxOut, decSize, s, steps)
      invariant Register(blob, steps, bitsLeft, cur) && bitPos == 0x10 + 4 * ((steps + 31) / 32)
      decreases decSize - |s.out|
    {
      if |s.out| > decSize || |s.out| > maxOut {
        return Overshoot;
      }
      var bit;
      bit, bitPos, bitsLeft, cur := NextBit(blob, steps, bitPos, bitsLeft, cur);
      if bit.None? {
        return Broken;
      }
      var next := DoOperation(blob, s, bit.value);
      if next.None? {
        return Broken;
      }
      s := next.value;
      steps := steps + 1;
    }
    return Done(s.out, steps);
  }

  lemma {:induction false} EmptyRegister(blob: seq<Byte>, cur: int)
    ensures Register(blob, 0, 0, cur)
  {
  }

  /** The two branches of the loop body. */
  method DoOperation(blob: seq<Byte>, s: State, literal: bool) returns (r: Option<State>)
    ensures r == Operate(blob, s, literal)
  {
    hide Copy;
    if literal {
      if s.chunk >= |blob| {
        return None;
      }
      return Some(State(s.out + [blob[s.chunk]], s.link, s.chunk + 1));
    }
    var code := Unpack(blob, s.link, 2);
    if code.None? {
      return None;
    }
    var chunkPos := s.chunk;
    var count := code.value / 4096;
    var dist := code.value % 4096;
    if count == 0 {
      if chunkPos >= |blob| {
        return None;
      }
      count := blob[chunkPos] as int + 0x12;
      chunkPos := chunkPos + 1;
    } else {
      count := count + 2;
    }
    var copied := CopyBack(s.out, dist, count);
    if copied.None? {
      return None;
    }
    return Some(State(copied.value, s.link + 2, chunkPos));
  }

  /** The inner copy loop, reading at src - 1 while both src and the output grow. */
  method CopyBack(start: seq<Byte>, dist: nat, count: nat) returns (r: Option<seq<Byte>>)
    ensures r == Copy(start, dist, count)
  {
    var out := start;
    var src := |out| - dist;
    for i := 0 to count
      invariant src == |out| - dist
      invariant Copy(start, dist, count) == Copy(out, dist, count - i)
    {
      var b := Index(out, src - 1);
      if b.None? {
        return None;
      }
      out := out + [b.value];
      src := src + 1;
    }
    return Some(out);
  }

  lemma {:induction false} BeBound(bytes: seq<Byte>)
    ensures Be(bytes) < Pow2(8 * |bytes|)
  {
    if bytes != [] {
      BeBound(bytes[..|bytes| - 1]);
      var n := 8 * (|bytes| - 1);
      assert Pow2(n + 8) == 256 * Pow2(n) by {
        assert Pow2(n + 8) == 2 * Pow2(n + 7) && Pow2(n + 7) == 2 * Pow2(n + 6) && Pow2(n + 6) == 2 * Pow2(n + 5);
        assert Pow2(n + 5) == 2 * Pow2(n + 4) && Pow2(n + 4) == 2 * Pow2(n + 3) && Pow2(n + 3) == 2 * Pow2(n + 2);
        assert Pow2(n + 2) == 2 * Pow2(n + 1);
      }
    }
  }

  lemma {:induction false} BeRange(blob: seq<Byte>, off: int)
    ensures Unpack(blob, off, 4).Some? ==> Unpack(blob, off, 4).value < 0x1_0000_0000
  {
    PowersOfTwo();
    if Unpack(blob, off, 4).Some? { BeBound(blob[off..off + 4]); }
  }
}

/** src/main/diagnostics.cpp: guest RDRAM as the host sees it. Guest bytes are swizzled: the byte at guest
    address a is stored at host index a ^ 3. */
module GuestMemory {

  import opened Basics

  const SIZE := 0x80_0000

  /** a ^ 3: the two lowest bits of the address are flipped. */
  function Swizzle(a: nat): nat { a / 4 * 4 + 3 - a % 4 }

  /** The exclusive or acts on the two lowest bits alone. */
  lemma {:induction false} SwizzleFlipsTwoBits(a: nat)
    ensures Swizzle(a) / 4 == a / 4 && Swizzle(a) % 4 == ((a % 4) as bv2 ^ 3) as int
  {
    var d := a % 4;
    assert Swizzle(a) / 4 == a / 4 && Swizzle(a) % 4 == 3 - d;
    if d == 0 {} else if d == 1 {} else if d == 2 {} else { assert d == 3; }
  }

  lemma {:induction false} SwizzleIsInvolution(a: nat)
    ensures Swizzle(Swizzle(a)) == a
    ensures a < SIZE ==> Swizzle(a) < SIZE
  {
  }

  /** pms_diag_rdram_range */
  predicate InRange(va: nat, len: nat) {
    0x8000_0000 <= va < 0x8080_0000 && len <= SIZE && va % 0x2000_0000 <= SIZE - len
  }

  /** The range lies in the cached window of RDRAM, from its first byte to its last. */
  lemma {:induction false} RangeIsWindow(va: nat, len: nat)
    ensures InRange(va, len) <==> 0x8000_0000 <= va < 0x8080_0000 && va + len <= 0x8080_0000
  {
    if 0x8000_0000 <= va < 0x8080_0000 {
      assert va % 0x2000_0000 == va - 0x8000_0000;
    }
  }

  function Physical(va: nat): nat { va % 0x2000_0000 }

  predicate Textish(c: Byte) {
    c == 0x0A || 0x20 <= c <= 0x7E || c == 0x8E || c == 0x8F || 0xA1 <= c <= 0xFE
  }

  /** One character in EUC-JP: printable ASCII or a newline, JIS X 0208, half-width katakana, JIS X 0212. */
  predicate IsEucChar(s: seq<Byte>) {
    || (|s| == 1 && (s[0] == 0x0A || 0x20 <= s[0] <= 0x7E))
    || (|s| == 2 && IsEucByte(s[0]) && IsEucByte(s[1]))
    || (|s| == 2 && s[0] == 0x8E && 0xA1 <= s[1] <= 0xDF)
    || (|s| == 3 && s[0] == 0x8F && IsEucByte(s[1]) && IsEucByte(s[2]))
  }

  predicate IsEucByte(c: Byte) { 0xA1 <= c <= 0xFE }

  /** The bytes taken for text are exactly those that occur in some character. */
  lemma {:induction false} TextishIsEuc(c: Byte)
    ensures Textish(c) <==> exists s :: IsEucChar(s) && c in s
  {
    if Textish(c) {
      var s: seq<Byte> := if c < 0x80 then [c] else if c == 0x8E then [c, 0xB1] else if c == 0x8F then [c, 0xB0, 0xA1]
                          else [0xA4, c];
      assert IsEucChar(s) && s[0] in s && s[|s| - 1] in s;
      assert c == s[0] || c == s[|s| - 1];
    }
  }

  /** A NUL-terminated string put into a plain byte array at p. */
  function Written(v: seq<Byte>, p: nat, s: seq<Byte>): (r: seq<Byte>)
    requires p + |s| < |v|
    ensures |r| == |v|
  {
    v[..p] + s + [0] + v[p + |s| + 1..]
  }

  /** The scan of read_text_arg from offset i, on a plain byte array. */
  function Scan(v: seq<Byte>, p: nat, i: nat): Option<seq<Byte>>
    requires i <= 256 && p + i <= |v|
    decreases 256 - i
  {
    if i == 256 || p + i == |v| then None
    else if v[p + i] == 0 then (if i >= 2 then Some(v[p..p + i]) else None)
    else if !Textish(v[p + i]) then None
    else Scan(v, p, i + 1)
  }

  /** What the scan accepts, without reference to the scan: s is the text at p. */
  predicate IsText(v: seq<Byte>, p: nat, s: seq<Byte>) {
    && 2 <= |s| <= 255 && p + |s| < |v|
    && v[p..p + |s|] == s && v[p + |s|] == 0
    && AllText(s)
  }

  predicate AllText(s: seq<Byte>) { forall k :: 0 <= k < |s| ==> Textish(s[k]) }

  lemma {:induction false} ScanIsExact(v: seq<Byte>, p: nat, i: nat, s: seq<Byte>)
    requires i <= 256 && p + i <= |v| && AllText(v[p..p + i])
    ensures Scan(v, p, i) == Some(s) <==> IsText(v, p, s) && i <= |s|
    decreases 256 - i
  {
    if i < 256 && p + i < |v| {
      if IsText(v, p, s) && i <= |s| {
        assert i < |s| ==> Textish(s[i]) && s[i] == v[p..p + |s|][i] == v[p + i];
      }
      if v[p + i] != 0 && Textish(v[p + i]) {
        assert v[p..p + i + 1] == v[p..p + i] + [v[p + i]];
        ScanIsExact(v, p, i + 1, s);
      }
    }
  }

  class Rdram {
    const mem: array<Byte>
    ghost var view: seq<Byte>   // the guest's own view: a plain byte array

    ghost predicate Valid()
      reads this, mem
    {
      mem.Length == |view| == SIZE && forall a :: 0 <= a < SIZE ==> mem[Swizzle(a)] == view[a]
    }

    constructor (mem: array<Byte>)
      requires mem.Length == SIZE
      ensures Valid() && this.mem == mem
    {
      this.mem := mem;
      view := seq<Byte>(SIZE, a requires 0 <= a < SIZE reads mem => mem[Swizzle(a)]);
    }

    method Peek(a: nat) returns (c: Byte)
      requires Valid() && a < SIZE
      ensures c == view[a]
    {
      c := mem[Swizzle(a)];
    }

    method Poke(a: nat, c: Byte)
      requires Valid() && a < SIZE
      modifies this`view, mem
      ensures Valid() && view == old(view)[a := c]
    {
      forall b: nat | b < SIZE && b != a
        ensures Swizzle(b) != Swizzle(a)
      {
        SwizzleIsInvolution(a);
        SwizzleIsInvolution(b);
      }
      mem[Swizzle(a)] := c;
      view := view[a := c];
    }

    /** write_guest_str */
    method WriteGuestStr(va: nat, s: seq<Byte>) returns (ok: bool)
      requires Valid() && |s| < 0xFFFF_FFFF
      modifies this`view, mem
      ensures Valid() && (ok <==> InRange(va, |s| + 1))
      ensures view == if ok then Written(old(view), Physical(va), s) else old(view)
    {
      if !InRange(va, |s| + 1) {
        return false;
      }
      var pa := Physical(va);
      for k := 0 to |s|
        invariant Valid() && view == old(view)[..pa] + s[..k] + old(view)[pa + k..]
      {
        Poke(pa + k, s[k]);
      }
      Poke(pa + |s|, 0);
      return true;
    }

    /** read_text_arg */
    method ReadTextArg(ptr: nat) returns (r: Option<seq<Byte>>)
      requires Valid()
      ensures forall s :: r == Some(s) <==> InRange(ptr, 2) && IsText(view, Physical(ptr), s)
    {
      if ptr < 0x8000_0000 || ptr >= 0x8080_0000 {
        return None;
      }
      if !InRange(ptr, 2) {
        return None;
      }
      r := ScanText(ptr);
      forall s
        ensures r == Some(s) <==> IsText(view, Physical(ptr), s)
      {
        ScanIsExact(view, Physical(ptr), 0, s);
      }
    }

    // The scanning loop of read_text_arg
    method ScanText(ptr: nat) returns (r: Option<seq<Byte>>)
      requires Valid() && InRange(ptr, 2)
      ensures r == Scan(view, Physical(ptr), 0)
    {
      hide Scan, Textish;
      var pa := Physical(ptr);
      ghost var v := view;
      var out: seq<Byte> := [];
      var i := 0;
      while i < 256
        invariant 0 <= i <= 256 && pa + i <= SIZE && out == v[pa..pa + i]
        invariant Scan(v, pa, 0) == Scan(v, pa, i)
      {
        ScanStep(v, pa, i);
        if !InRange(ptr + i, 1) {
          return None;
        }
        var c := Peek(pa + i);
        if c == 0 {
          return if i >= 2 then Some(out) else None;
        }
        if !Textish(c) {
          return None;
        }
        out := out + [c];
        i := i + 1;
      }
      ScanStep(v, pa, i);
      return None;
    }
  }

  lemma {:induction false} ScanStep(v: seq<Byte>, p: nat, i: nat)
    requires i <= 256 && p + i <= |v|
    ensures i == 256 || p + i == |v| ==> Scan(v, p, i) == None
    ensures i < 256 && p + i < |v| ==>
      Scan(v, p, i) == if v[p + i] == 0 then (if i >= 2 then Some(v[p..p + i]) else None)
                       else if !Textish(v[p + i]) then None else Scan(v, p, i + 1)
  {
  }

  /** Reading back what was written returns it exactly for 2 to 255 bytes of text. */
  lemma {:induction false} ReadsBack(v: seq<Byte>, p: nat, s: seq<Byte>)
    requires p + |s| < |v|
    ensures IsText(Written(v, p, s), p, s) <==> 2 <= |s| <= 255 && AllText(s)
  {
    assert Written(v, p, s)[p..p + |s|] == s;
  }

  // ---- The two scratch slots ----------------------------------------------------------------

  /** swap_scratch, on 32-bit addresses */
  function SwapScratch(sp: nat, isFmt: bool): nat {
    (sp - (if isFmt then 0x800 else 0xC00)) % 0x1_0000_0000 / 8 * 8
  }

  /** With the stack headroom the hooks ask for, the format slot lies 0x400 bytes above the argument slot. */
  lemma {:induction false} SlotsAreApart(sp: nat)
    requires 0x8000_0C00 <= sp < 0x1_0000_0000
    ensures SwapScratch(sp, true) == SwapScratch(sp, false) + 0x400
    ensures SwapScratch(sp, true) < sp && SwapScratch(sp, false) % 8 == 0
  {
  }

  /** A string of the length that the hooks allow ends, with its terminator, more than 0x400 bytes below the
      stack pointer in both slots; alignment moves a slot down by less than eight bytes. */
  lemma {:induction false} SlotsAreBelowStack(sp: nat, isFmt: bool, len: nat)
    requires 0x8000_0C00 <= sp < 0x1_0000_0000 && len <= 0x300
    ensures SwapScratch(sp, isFmt) + len + 1 <= sp - 0x4FF
    ensures var below := sp - SwapScratch(sp, isFmt);
            if isFmt then 0x800 <= below < 0x808 else 0xC00 <= below < 0xC08
  {
  }

  /** A format string and an argument written to their slots, in either order, give the same memory and
      are both there, for every argument string short of the slot distance; the hooks allow 0x300. */
  lemma {:induction false} SlotsDoNotDisturb(v: seq<Byte>, sp: nat, fmt: seq<Byte>, arg: seq<Byte>)
    requires 0x8000_0C00 <= sp < 0x1_0000_0000 && |v| == SIZE
    requires InRange(SwapScratch(sp, true), |fmt| + 1) && InRange(SwapScratch(sp, false), |arg| + 1)
    requires |arg| < 0x400
    ensures var f, a := Physical(SwapScratch(sp, true)), Physical(SwapScratch(sp, false));
            var both := Written(Written(v, f, fmt), a, arg);
            && both == Written(Written(v, a, arg), f, fmt)
            && both[f..f + |fmt|] == fmt && both[f + |fmt|] == 0
            && both[a..a + |arg|] == arg && both[a + |arg|] == 0
  {
    SlotsAreApart(sp);
    var f, a := Physical(SwapScratch(sp, true)), Physical(SwapScratch(sp, false));
    assert f == a + 0x400;
    WritesCommute(v, f, fmt, a, arg);
  }

  lemma {:induction false} WritesCommute(v: seq<Byte>, f: nat, fmt: seq<Byte>, a: nat, arg: seq<Byte>)
    requires a + |arg| < f && f + |fmt| < |v|
    ensures var both := Written(Written(v, f, fmt), a, arg);
            && both == Written(Written(v, a, arg), f, fmt)
            && both[f..f + |fmt|] == fmt && both[f + |fmt|] == 0
            && both[a..a + |arg|] == arg && both[a + |arg|] == 0
  {
  }

  /** One byte more and the terminator of the argument is the first byte of the format string. */
  lemma {:induction false} LongArgumentClobbers(v: seq<Byte>, sp: nat, fmt: seq<Byte>, arg: seq<Byte>)
    requires 0x8000_0C00 <= sp < 0x1_0000_0000 && |v| == SIZE
    requires InRange(SwapScratch(sp, true), |fmt| + 1) && InRange(SwapScratch(sp, false), |arg| + 1)
    requires |arg| == 0x400 && fmt != [] && fmt[0] != 0
    ensures var f, a := Physical(SwapScratch(sp, true)), Physical(SwapScratch(sp, false));
            Written(Written(v, f, fmt), a, arg)[f..f + |fmt|] != fmt
  {
    SlotsAreApart(sp);
    var f, a := Physical(SwapScratch(sp, true)), Physical(SwapScratch(sp, false));
    assert Written(Written(v, f, fmt), a, arg)[f..f + |fmt|][0] == 0;
  }
}

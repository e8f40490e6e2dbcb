/** Types and facts shared by the modules. */
module Basics {

  type Byte = b: int | 0 <= b < 256
  type Word = w: int | 0 <= w < 0x1_0000_0000

  datatype Option<T> = None | Some(value: T)

  /** The big-endian word in four bytes. */
  function WordOf(b: seq<Byte>): Word
    requires |b| == 4
  {
    ((b[0] as int * 256 + b[1]) * 256 + b[2]) * 256 + b[3]
  }

  function BytesOf(w: Word): (b: seq<Byte>)
    ensures |b| == 4
  {
    [w / 0x100_0000, w / 0x1_0000 % 256, w / 0x100 % 256, w % 256]
  }

  lemma {:induction false} Quotient(w: int, d: int)
    requires d == 0x100 || d == 0x1_0000
    ensures w / (256 * d) == w / d / 256
    ensures w / d == 256 * (w / d / 256) + w / d % 256
  {
  }

  lemma {:induction false} WordRoundTrip(w: Word)
    ensures WordOf(BytesOf(w)) == w
  {
    Quotient(w, 0x100);
    Quotient(w, 0x1_0000);
    var x, y, z := w / 0x100, w / 0x1_0000, w / 0x100_0000;
    var b := BytesOf(w);
    assert w == 256 * x + w % 256;
    assert x == 256 * y + x % 256;
    assert y == 256 * z + y % 256;
    assert b[0] == z && b[1] == y % 256 && b[2] == x % 256 && b[3] == w % 256;
    hide BytesOf;
    assert ((b[0] as int * 256 + b[1]) * 256 + b[2]) * 256 + b[3] == w;
  }

  lemma {:induction false} BytesRoundTrip(b: seq<Byte>)
    requires |b| == 4
    ensures BytesOf(WordOf(b)) == b
  {
    var x, y, z := b[0] as int, b[0] as int * 256 + b[1], (b[0] as int * 256 + b[1]) * 256 + b[2];
    var w := z * 256 + b[3];
    Quotient(w, 0x100);
    Quotient(w, 0x1_0000);
    assert w / 0x100 == z && w % 256 == b[3];
    assert z / 0x100 == y && z % 256 == b[2];
    assert y / 0x100 == x && y % 256 == b[1];
  }

  /** bisect_right of the host language on an ascending list: how many leading elements are at most v. */
  function BisectRight(xs: seq<int>, v: int): (n: nat)
    ensures n <= |xs|
    ensures n > 0 ==> xs[n - 1] <= v
    ensures forall i :: n <= i < |xs| ==> v < xs[i]
  {
    if xs == [] then 0 else if xs[|xs| - 1] <= v then |xs| else BisectRight(xs[..|xs| - 1], v)
  }

  lemma {:induction false} Regroup<T>(a: seq<T>, x: T, b: seq<T>)
    ensures a + ([x] + b) == (a + [x]) + b
  {
  }

  lemma {:induction false} TailOfTail<T>(s: seq<T>, i: nat)
    requires i < |s|
    ensures s[i..][1..] == s[i + 1..]
  {
  }

  lemma {:induction false} SliceOfSlice<T>(s: seq<T>, p: nat, q: nat, from: nat, to: nat)
    requires p <= q <= |s| && from <= to <= q - p
    ensures s[p..q][from..to] == s[p + from..p + to]
  {
    var a, b := s[p..q][from..to], s[p + from..p + to];
    forall i | 0 <= i < to - from
      ensures a[i] == b[i]
    {
    }
  }
}

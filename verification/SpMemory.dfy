/** Bytes, words and ranges of bytes in the memories of the signal processor. */
module SpMemory {

  import opened Basics

  const DMEM := 0x1000

  function Add32(a: Word, b: Word): Word { (a + b) % 0x1_0000_0000 }
  function Sub32(a: Word, b: Word): Word { (a - b) % 0x1_0000_0000 }

  lemma {:induction false} AddSub(a: Word, b: Word)
    ensures Sub32(Add32(a, b), b) == a && Add32(Sub32(a, b), b) == a
  {
  }

  /** m with bytes put at p. */
  function Put(m: seq<Byte>, p: nat, bytes: seq<Byte>): (r: seq<Byte>)
    requires p + |bytes| <= |m|
    ensures |r| == |m|
  {
    m[..p] + bytes + m[p + |bytes|..]
  }

  lemma {:induction false} PutElsewhere(m: seq<Byte>, p: nat, bytes: seq<Byte>, from: nat, to: nat)
    requires p + |bytes| <= |m| && from <= to <= |m| && (to <= p || p + |bytes| <= from)
    ensures Put(m, p, bytes)[from..to] == m[from..to]
  {
    var a, b := Put(m, p, bytes)[from..to], m[from..to];
    forall i | 0 <= i < to - from
      ensures a[i] == b[i]
    {
    }
  }

  lemma {:induction false} PutHere(m: seq<Byte>, p: nat, bytes: seq<Byte>, from: nat, to: nat)
    requires p + |bytes| <= |m| && from <= to <= |bytes|
    ensures Put(m, p, bytes)[p + from..p + to] == bytes[from..to]
  {
    var a, b := Put(m, p, bytes)[p + from..p + to], bytes[from..to];
    forall i | 0 <= i < to - from
      ensures a[i] == b[i]
    {
    }
  }

  lemma {:induction false} PutAppend(m: seq<Byte>, p: nat, a: seq<Byte>, b: seq<Byte>)
    requires p + |a| + |b| <= |m|
    ensures Put(Put(m, p, a), p + |a|, b) == Put(m, p, a + b)
  {
  }

  /** The word at p. */
  function Load(m: seq<Byte>, p: nat): Word
    requires p + 4 <= |m|
  {
    WordOf(m[p..p + 4])
  }
}

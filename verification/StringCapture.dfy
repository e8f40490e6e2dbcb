/** src/main/diagnostics.cpp: the bounded inventory of captured strings, and the scan of RDRAM for text. */
module StringCapture {
  import opened Basics
  import opened GuestMemory

  // ---- The inventory ----------------------------------------------------------------------

  const CAP := 4096

  datatype Entry = Entry(key: int, bytes: seq<Byte>, a0: int, a1: int, count: nat)

  /** The used slots, which are a prefix of the table, and the number of dropped strings. */
  datatype Inventory = Inventory(entries: seq<Entry>, dropped: nat)

  // One call of strinv_upsert
  datatype Draw = Draw(bytes: seq<Byte>, a0: int, a1: int)

  function IndexOf(es: seq<Entry>, key: int): (i: nat)
    ensures i <= |es| && (i < |es| ==> es[i].key == key)
    ensures forall k :: 0 <= k < i ==> es[k].key != key
  {
    if es == [] || es[0].key == key then 0 else 1 + IndexOf(es[1..], key)
  }

  function Upserted(v: Inventory, hash: seq<Byte> -> int, d: Draw): Inventory {
    if d.bytes == [] then v
    else
      var key := hash(d.bytes);
      var i := IndexOf(v.entries, key);
      if i < |v.entries| then
        v.(entries := v.entries[i := v.entries[i].(a0 := d.a0, a1 := d.a1, count := v.entries[i].count + 1)])
      else if |v.entries| >= CAP then v.(dropped := v.dropped + 1)
      else v.(entries := v.entries + [Entry(key, d.bytes, d.a0, d.a1, 1)])
  }

  function Captured(hash: seq<Byte> -> int, draws: seq<Draw>): Inventory {
    if draws == [] then Inventory([], 0)
    else Upserted(Captured(hash, draws[..|draws| - 1]), hash, draws[|draws| - 1])
  }

  datatype Slot = Free | Used(entry: Entry)

  class StringInventory {
    const hash: seq<Byte> -> int
    const slots: array<Slot>
    var dropped: nat
    ghost var inv: Inventory

    ghost predicate Valid()
      reads this, slots
    {
      && slots.Length == CAP && |inv.entries| <= CAP && inv.dropped == dropped
      && (forall i :: 0 <= i < |inv.entries| ==> slots[i] == Used(inv.entries[i]))
      && (forall i :: |inv.entries| <= i < CAP ==> slots[i] == Free)
    }

    constructor (hash: seq<Byte> -> int)
      ensures Valid() && fresh(slots) && this.hash == hash && inv == Inventory([], 0)
    {
      this.hash := hash;
      slots := new Slot[CAP](_ => Free);
      dropped := 0;
      inv := Inventory([], 0);
    }

    /** strinv_upsert: one search for the key that also remembers the first free slot. */
    method Upsert(d: Draw)
      requires Valid()
      modifies this`dropped, this`inv, slots
      ensures Valid() && inv == Upserted(old(inv), hash, d)
    {
      if |d.bytes| == 0 {
        return;
      }
      var key := hash(d.bytes);
      var slot, freei := CAP, CAP;
      var i := 0;
      while i < CAP
        invariant 0 <= i <= CAP && slot == CAP
        invariant freei == if i <= |inv.entries| then CAP else |inv.entries|
        invariant forall k :: 0 <= k < i && k < |inv.entries| ==> inv.entries[k].key != key
      {
        if slots[i].Used? {
          if slots[i].entry.key == key {
            slot := i;
            break;
          }
        } else if freei == CAP {
          freei := i;
        }
        i := i + 1;
      }
      var n := |inv.entries|;
      if slot == CAP {
        if freei == CAP {
          dropped := dropped + 1;
        } else {
          slots[freei] := Used(Entry(key, d.bytes, d.a0, d.a1, 1));
        }
      } else {
        var e := slots[slot].entry;
        slots[slot] := Used(e.(a0 := d.a0, a1 := d.a1, count := e.count + 1));
      }
      inv := Upserted(inv, hash, d);
    }
  }

  // ---- What the inventory says over whole runs ------------------------------------------------

  function Occurrences(hash: seq<Byte> -> int, draws: seq<Draw>, key: int): nat {
    if draws == [] then 0
    else Occurrences(hash, draws[..|draws| - 1], key)
         + (if draws[|draws| - 1].bytes != [] && hash(draws[|draws| - 1].bytes) == key then 1 else 0)
  }

  function Nonempty(draws: seq<Draw>): nat {
    if draws == [] then 0
    else Nonempty(draws[..|draws| - 1]) + (if draws[|draws| - 1].bytes != [] then 1 else 0)
  }

  function Total(es: seq<Entry>): nat {
    if es == [] then 0 else Total(es[..|es| - 1]) + es[|es| - 1].count
  }

  ghost predicate DistinctKeys(es: seq<Entry>) {
    forall i, j :: 0 <= i < j < |es| ==> es[i].key != es[j].key
  }

  lemma {:induction false} TotalOfUpdate(es: seq<Entry>, i: nat, e: Entry)
    requires i < |es|
    ensures Total(es[i := e]) == Total(es) - es[i].count + e.count
  {
    if i == |es| - 1 {
      assert es[i := e][..|es| - 1] == es[..|es| - 1];
    } else {
      TotalOfUpdate(es[..|es| - 1], i, e);
      assert es[i := e][..|es| - 1] == es[..|es| - 1][i := e];
    }
  }

  /** The entries and the drops account for every draw: keys are distinct, every nonempty string is counted
      or dropped, an entry counts all strings of its hash, and none is missing while there is room. */
  ghost predicate Accounts(v: Inventory, hash: seq<Byte> -> int, draws: seq<Draw>) {
    && |v.entries| <= CAP && DistinctKeys(v.entries) && Total(v.entries) + v.dropped == Nonempty(draws)
    && (forall i :: 0 <= i < |v.entries| ==> v.entries[i].count == Occurrences(hash, draws, v.entries[i].key))
    && (|v.entries| < CAP ==>
         forall key :: Occurrences(hash, draws, key) > 0 ==> IndexOf(v.entries, key) < |v.entries|)
  }

  /** Over every run the inventory accounts for all draws. */
  lemma {:induction false} CaptureIsExact(hash: seq<Byte> -> int, draws: seq<Draw>)
    ensures Accounts(Captured(hash, draws), hash, draws)
  {
    if draws != [] {
      var init, d := draws[..|draws| - 1], draws[|draws| - 1];
      CaptureIsExact(hash, init);
      hide Accounts;
      assert draws == init + [d];
      UpsertCounts(Captured(hash, init), hash, init, d);
    }
  }

  lemma {:induction false} UpsertCounts(v: Inventory, hash: seq<Byte> -> int, init: seq<Draw>, d: Draw)
    requires Accounts(v, hash, init)
    ensures Accounts(Upserted(v, hash, d), hash, init + [d])
  {
    hide IndexOf, Total, Occurrences, Nonempty, DistinctKeys;
    NonemptyNext(init, d);
    forall key
      ensures Occurrences(hash, init + [d], key) ==
              Occurrences(hash, init, key) + (if d.bytes != [] && hash(d.bytes) == key then 1 else 0)
    {
      OccurrencesNext(hash, init, d, key);
    }
    if d.bytes != [] {
      if IndexOf(v.entries, hash(d.bytes)) < |v.entries| {
        KnownCounts(v, hash, init, d);
      } else if |v.entries| < CAP {
        NewCounts(v, hash, init, d);
      } else {
        FullCounts(v, hash, init, d);
      }
    }
  }

  lemma {:induction false} NonemptyNext(init: seq<Draw>, d: Draw)
    ensures Nonempty(init + [d]) == Nonempty(init) + (if d.bytes != [] then 1 else 0)
  {
    assert (init + [d])[..|init|] == init;
  }

  lemma {:induction false} OccurrencesNext(hash: seq<Byte> -> int, init: seq<Draw>, d: Draw, key: int)
    ensures Occurrences(hash, init + [d], key) ==
            Occurrences(hash, init, key) + (if d.bytes != [] && hash(d.bytes) == key then 1 else 0)
  {
    assert (init + [d])[..|init|] == init;
  }

  ghost predicate OneMore(hash: seq<Byte> -> int, init: seq<Draw>, d: Draw) {
    && Nonempty(init + [d]) == Nonempty(init) + 1
    && forall key :: Occurrences(hash, init + [d], key) ==
                     Occurrences(hash, init, key) + (if hash(d.bytes) == key then 1 else 0)
  }

  // The string is known: its entry counts one more.
  lemma {:induction false} KnownCounts(v: Inventory, hash: seq<Byte> -> int, init: seq<Draw>, d: Draw)
    requires Accounts(v, hash, init) && d.bytes != [] && OneMore(hash, init, d)
    requires IndexOf(v.entries, hash(d.bytes)) < |v.entries|
    ensures Accounts(Upserted(v, hash, d), hash, init + [d])
  {
    hide IndexOf, Total, Occurrences, Nonempty;
    var w, i := Upserted(v, hash, d), IndexOf(v.entries, hash(d.bytes));
    TotalOfUpdate(v.entries, i, w.entries[i]);
    forall k
      ensures IndexOf(v.entries, k) < |v.entries| ==> IndexOf(w.entries, k) < |w.entries|
    {
      var j := IndexOf(v.entries, k);
      if j < |v.entries| { assert w.entries[j].key == k; }
    }
  }

  // The string is new and gets an entry.
  lemma {:induction false} NewCounts(v: Inventory, hash: seq<Byte> -> int, init: seq<Draw>, d: Draw)
    requires Accounts(v, hash, init) && d.bytes != [] && OneMore(hash, init, d)
    requires IndexOf(v.entries, hash(d.bytes)) == |v.entries| < CAP
    ensures Accounts(Upserted(v, hash, d), hash, init + [d])
  {
    hide IndexOf, Occurrences, Nonempty;
    var w, n := Upserted(v, hash, d), |v.entries|;
    assert w.entries[..n] == v.entries;
    hide Total;
    assert Occurrences(hash, init, hash(d.bytes)) == 0;
    forall k
      ensures Occurrences(hash, init + [d], k) > 0 ==> IndexOf(w.entries, k) < |w.entries|
    {
      var j := IndexOf(v.entries, k);
      if j < n { assert w.entries[j].key == k; }
      assert w.entries[n].key == hash(d.bytes);
    }
  }

  // There is no room left.
  lemma {:induction false} FullCounts(v: Inventory, hash: seq<Byte> -> int, init: seq<Draw>, d: Draw)
    requires Accounts(v, hash, init) && d.bytes != [] && OneMore(hash, init, d)
    requires IndexOf(v.entries, hash(d.bytes)) == |v.entries| == CAP
    ensures Accounts(Upserted(v, hash, d), hash, init + [d])
  {
    hide IndexOf, Total, Occurrences, Nonempty, DistinctKeys;
  }

  // ---- What the entries hold -------------------------------------------------------------------

  predicate SameString(hash: seq<Byte> -> int, draws: seq<Draw>, j: nat, k: nat)
    requires j < |draws| && k < |draws|
  {
    draws[j].bytes != [] && hash(draws[j].bytes) == hash(draws[k].bytes)
  }

  // Draw k is the first, or the last, of a nonempty string with its hash.
  ghost predicate IsFirst(hash: seq<Byte> -> int, draws: seq<Draw>, k: int) {
    && 0 <= k < |draws| && draws[k].bytes != []
    && forall j :: 0 <= j < k ==> !SameString(hash, draws, j, k)
  }

  ghost predicate IsLast(hash: seq<Byte> -> int, draws: seq<Draw>, k: int) {
    && 0 <= k < |draws| && draws[k].bytes != []
    && forall j :: k < j < |draws| ==> !SameString(hash, draws, j, k)
  }

  ghost predicate Latest(e: Entry, hash: seq<Byte> -> int, draws: seq<Draw>, l: int) {
    IsLast(hash, draws, l) && hash(draws[l].bytes) == e.key && draws[l].a0 == e.a0 && draws[l].a1 == e.a1
  }

  // The entry was made by the first draw k of its hash, and has the coordinates of the last one.
  ghost predicate Holds(e: Entry, hash: seq<Byte> -> int, draws: seq<Draw>, k: int) {
    && IsFirst(hash, draws, k) && e.bytes == draws[k].bytes && e.key == hash(e.bytes)
    && exists l :: Latest(e, hash, draws, l)
  }

  ghost predicate TooLate(es: seq<Entry>, firsts: seq<int>, k: int) {
    |es| == CAP && forall i :: 0 <= i < |firsts| ==> firsts[i] < k
  }

  /** The entries are those of the first draws firsts, in their order; every other first draw came when the
      table was full. */
  ghost predicate Recorded(es: seq<Entry>, hash: seq<Byte> -> int, draws: seq<Draw>, firsts: seq<int>) {
    && |firsts| == |es| && (forall i :: 0 <= i < |es| ==> Holds(es[i], hash, draws, firsts[i]))
    && (forall i, j :: 0 <= i < j < |firsts| ==> firsts[i] < firsts[j])
    && (forall k :: IsFirst(hash, draws, k) ==> k in firsts || TooLate(es, firsts, k))
  }

  /** Over every run: the entries stand in the order in which their strings first appeared, each with the
      bytes of that appearance, the hash of these bytes, and the coordinates of the latest one. */
  lemma {:induction false} EntriesAreFirsts(hash: seq<Byte> -> int, draws: seq<Draw>) returns (firsts: seq<int>)
    ensures Recorded(Captured(hash, draws).entries, hash, draws, firsts)
  {
    if draws == [] {
      firsts := [];
    } else {
      var init, d, n := draws[..|draws| - 1], draws[|draws| - 1], |draws| - 1;
      firsts := EntriesAreFirsts(hash, init);
      assert draws == init + [d];
      var v := Captured(hash, init);
      CaptureIsExact(hash, init);
      if d.bytes == [] {
        OtherRecorded(v.entries, hash, init, d, firsts);
      } else {
        var i := IndexOf(v.entries, hash(d.bytes));
        if i < |v.entries| {
          KnownRecorded(v.entries, hash, init, d, firsts, i);
        } else {
          OtherRecorded(v.entries, hash, init, d, firsts);
          if |v.entries| < CAP {
            NewRecorded(v.entries, hash, init, d, firsts);
            firsts := firsts + [n];
          }
        }
      }
    }
  }

  lemma {:induction false} FirstStays(hash: seq<Byte> -> int, init: seq<Draw>, d: Draw, k: int)
    requires 0 <= k < |init|
    ensures IsFirst(hash, init + [d], k) <==> IsFirst(hash, init, k)
  {
    var draws := init + [d];
    assert forall j :: 0 <= j < |init| ==> draws[j] == init[j];
    assert forall j :: 0 <= j < k ==> (SameString(hash, draws, j, k) <==> SameString(hash, init, j, k));
  }

  lemma {:induction false} LastStays(hash: seq<Byte> -> int, init: seq<Draw>, d: Draw, l: int)
    requires IsLast(hash, init, l) && (d.bytes == [] || hash(d.bytes) != hash(init[l].bytes))
    ensures IsLast(hash, init + [d], l)
  {
    var draws := init + [d];
    forall j | l < j < |draws|
      ensures !SameString(hash, draws, j, l)
    {
      assert j < |init| ==> !SameString(hash, init, j, l);
    }
  }

  lemma {:induction false} HoldsStays(e: Entry, hash: seq<Byte> -> int, init: seq<Draw>, d: Draw, k: int)
    requires Holds(e, hash, init, k) && (d.bytes == [] || hash(d.bytes) != e.key)
    ensures Holds(e, hash, init + [d], k)
  {
    FirstStays(hash, init, d, k);
    var l :| Latest(e, hash, init, l);
    LastStays(hash, init, d, l);
    assert Latest(e, hash, init + [d], l);
    hide IsFirst, IsLast;
  }

  lemma {:induction false} SomeFirst(hash: seq<Byte> -> int, draws: seq<Draw>, j: nat) returns (k: nat)
    requires j < |draws| && draws[j].bytes != []
    ensures IsFirst(hash, draws, k) && hash(draws[k].bytes) == hash(draws[j].bytes)
    decreases j
  {
    if i: nat :| i < j && SameString(hash, draws, i, j) {
      k := SomeFirst(hash, draws, i);
    } else {
      k := j;
    }
  }

  // What a draw that touches no entry changes: nothing, except that it may be a first one itself.
  lemma {:induction false} OtherRecorded(es: seq<Entry>, hash: seq<Byte> -> int, init: seq<Draw>, d: Draw,
                                         firsts: seq<int>)
    requires Recorded(es, hash, init, firsts)
    requires d.bytes == [] || forall i :: 0 <= i < |es| ==> es[i].key != hash(d.bytes)
    ensures forall i :: 0 <= i < |es| ==> Holds(es[i], hash, init + [d], firsts[i]) && firsts[i] < |init|
    ensures forall k :: IsFirst(hash, init + [d], k) && k < |init| ==> k in firsts || TooLate(es, firsts, k)
    ensures d.bytes == [] || |es| == CAP ==> Recorded(es, hash, init + [d], firsts)
  {
    forall i | 0 <= i < |es|
      ensures Holds(es[i], hash, init + [d], firsts[i]) && firsts[i] < |init|
    {
      assert Holds(es[i], hash, init, firsts[i]);
      HoldsStays(es[i], hash, init, d, firsts[i]);
    }
    forall k | IsFirst(hash, init + [d], k) && k < |init|
      ensures k in firsts || TooLate(es, firsts, k)
    {
      FirstStays(hash, init, d, k);
    }
    hide Holds, SameString;
  }

  lemma {:induction false} KnownRecorded(es: seq<Entry>, hash: seq<Byte> -> int, init: seq<Draw>, d: Draw,
                                         firsts: seq<int>, n: nat)
    requires Recorded(es, hash, init, firsts) && DistinctKeys(es)
    requires d.bytes != [] && n < |es| && es[n].key == hash(d.bytes)
    ensures Recorded(es[n := es[n].(a0 := d.a0, a1 := d.a1, count := es[n].count + 1)], hash, init + [d], firsts)
  {
    var draws, e := init + [d], es[n].(a0 := d.a0, a1 := d.a1, count := es[n].count + 1);
    var m := |init|;
    assert Holds(es[n], hash, init, firsts[n]);
    FirstStays(hash, init, d, firsts[n]);
    assert Latest(e, hash, draws, m);
    assert SameString(hash, draws, firsts[n], m);
    forall i | 0 <= i < |es| && i != n
      ensures Holds(es[i], hash, draws, firsts[i])
    {
      assert Holds(es[i], hash, init, firsts[i]);
      HoldsStays(es[i], hash, init, d, firsts[i]);
    }
    forall k | IsFirst(hash, draws, k)
      ensures k in firsts || TooLate(es, firsts, k)
    {
      if k < m { FirstStays(hash, init, d, k); }
    }
    hide IsFirst, IsLast;
  }

  lemma {:induction false} FirstHasEntry(es: seq<Entry>, hash: seq<Byte> -> int, draws: seq<Draw>, firsts: seq<int>,
                                         k: int)
    requires Recorded(es, hash, draws, firsts) && |es| < CAP && IsFirst(hash, draws, k)
    ensures exists i :: 0 <= i < |es| && es[i].key == hash(draws[k].bytes)
  {
    var i :| 0 <= i < |firsts| && firsts[i] == k;
    assert Holds(es[i], hash, draws, firsts[i]);
  }

  lemma {:induction false} NewIsFirst(es: seq<Entry>, hash: seq<Byte> -> int, init: seq<Draw>, d: Draw,
                                      firsts: seq<int>)
    requires Recorded(es, hash, init, firsts) && |es| < CAP
    requires d.bytes != [] && forall i :: 0 <= i < |es| ==> es[i].key != hash(d.bytes)
    ensures IsFirst(hash, init + [d], |init|)
  {
    var draws, m := init + [d], |init|;
    forall j | 0 <= j < m
      ensures !SameString(hash, draws, j, m)
    {
      if SameString(hash, draws, j, m) {
        var k := SomeFirst(hash, init, j);
        FirstHasEntry(es, hash, init, firsts, k);
      }
    }
  }

  lemma {:induction false} NewRecorded(es: seq<Entry>, hash: seq<Byte> -> int, init: seq<Draw>, d: Draw,
                                       firsts: seq<int>)
    requires Recorded(es, hash, init, firsts) && |es| < CAP
    requires d.bytes != [] && forall i :: 0 <= i < |es| ==> es[i].key != hash(d.bytes)
    ensures Recorded(es + [Entry(hash(d.bytes), d.bytes, d.a0, d.a1, 1)], hash, init + [d], firsts + [|init|])
  {
    var draws, m, e := init + [d], |init|, Entry(hash(d.bytes), d.bytes, d.a0, d.a1, 1);
    OtherRecorded(es, hash, init, d, firsts);
    NewIsFirst(es, hash, init, d, firsts);
    assert Latest(e, hash, draws, m);
    assert Holds(e, hash, draws, m);
    forall k | IsFirst(hash, draws, k)
      ensures k in firsts + [m]
    {
      assert k < m ==> k in firsts;
    }
    hide Holds, SameString;
  }

  // ---- The RAM scan ------------------------------------------------------------------------------

  const LIMIT := 2048

  predicate HasJp(s: seq<Byte>) { exists i :: 0 <= i < |s| && s[i] >= 0x80 }

  // A byte of a character that takes more than one
  ghost predicate InLongChar(c: Byte) { exists t :: IsEucChar(t) && |t| > 1 && c in t }

  /** A text is taken for Japanese exactly when some of its bytes belong to a character that is not ASCII. */
  lemma {:induction false} HasJpIsEuc(s: seq<Byte>)
    requires AllText(s)
    ensures HasJp(s) <==> exists i :: 0 <= i < |s| && InLongChar(s[i])
  {
    forall i | 0 <= i < |s|
      ensures s[i] >= 0x80 <==> InLongChar(s[i])
    {
      LongCharBytes(s[i]);
    }
    hide InLongChar;
  }

  lemma {:induction false} LongCharBytes(c: Byte)
    requires Textish(c)
    ensures c >= 0x80 <==> InLongChar(c)
  {
    if c >= 0x80 {
      var t: seq<Byte> := if c == 0x8E then [c, 0xB1] else if c == 0x8F then [c, 0xB0, 0xA1] else [0xA4, c];
      assert IsEucChar(t) && t[0] in t && t[1] in t;
    }
  }

  /** Where the text run at p ends. */
  function RunEnd(v: seq<Byte>, p: nat): (e: nat)
    requires p <= |v|
    ensures p <= e <= |v|
    ensures AllText(v[p..e]) && (e < |v| ==> !Textish(v[e]))
    decreases |v| - p
  {
    if p < |v| && Textish(v[p]) then
      var e := RunEnd(v, p + 1);
      assert v[p..e] == [v[p]] + v[p + 1..e];
      e
    else p
  }

  // One line of the report
  datatype Found = Found(start: nat, text: seq<Byte>)

  /** The scan from a: each step takes a run, or the first LIMIT bytes of one, and goes on after the byte
      that ended it. */
  function ScanFrom(v: seq<Byte>, minlen: nat, a: nat): seq<Found>
    decreases |v| - a
  {
    if a >= |v| then []
    else if !Textish(v[a]) then ScanFrom(v, minlen, a + 1)
    else
      var e := ChunkEnd(v, a);
      (if e - a >= minlen && HasJp(v[a..e]) then [Found(a, v[a..e])] else []) + ScanFrom(v, minlen, e + 1)
  }

  function ChunkEnd(v: seq<Byte>, a: nat): (e: nat)
    requires a < |v| && Textish(v[a])
    ensures a < e <= |v| && e <= a + LIMIT
  {
    var e := RunEnd(v, a);
    assert e > a;
    if e <= a + LIMIT then e else a + LIMIT
  }

  /** pkmnstadium_memscan, reading guest bytes in address order. */
  method MemScan(v: seq<Byte>, requested: nat) returns (report: seq<Found>)
    ensures report == ScanFrom(v, if requested < 4 then 4 else requested, 0)
  {
    hide ScanFrom, ChunkEnd, Textish, HasJp, RunEnd;
    var minlen := if requested < 4 then 4 else requested;
    report := [];
    var a := 0;
    while a < |v|
      invariant 0 <= a
      invariant ScanFrom(v, minlen, 0) == report + ScanFrom(v, minlen, a)
      decreases |v| - a
    {
      ScanStepFrom(v, minlen, a);
      if !Textish(v[a]) {
        a := a + 1;
        continue;
      }
      var p, buf, hasJp := TakeChunk(v, a);
      var rest := ScanFrom(v, minlen, p + 1);
      if |buf| >= minlen && hasJp {
        Regroup(report, Found(a, buf), rest);
        report := report + [Found(a, buf)];
      } else {
        assert report + ([] + rest) == report + rest;
      }
      a := p + 1;
    }
    ScanEnds(v, minlen, a);
    assert report + [] == report;
  }

  lemma {:induction false} ScanEnds(v: seq<Byte>, minlen: nat, a: nat)
    requires a >= |v|
    ensures ScanFrom(v, minlen, a) == []
  {
  }

  lemma {:induction false} ScanStepFrom(v: seq<Byte>, minlen: nat, a: nat)
    requires a < |v|
    ensures ScanFrom(v, minlen, a) ==
            if !Textish(v[a]) then ScanFrom(v, minlen, a + 1)
            else var e := ChunkEnd(v, a);
                 (if e - a >= minlen && HasJp(v[a..e]) then [Found(a, v[a..e])] else []) + ScanFrom(v, minlen, e + 1)
  {
  }

  lemma {:induction false} HasJpAppend(s: seq<Byte>, c: Byte)
    ensures HasJp(s + [c]) <==> HasJp(s) || c >= 0x80
  {
    var t := s + [c];
    assert t[|s|] == c && forall i :: 0 <= i < |s| ==> t[i] == s[i];
  }

  /** The inner loop, with its 2048-byte buffer. */
  method TakeChunk(v: seq<Byte>, a: nat) returns (p: nat, buf: seq<Byte>, hasJp: bool)
    requires a < |v| && Textish(v[a])
    ensures p == ChunkEnd(v, a) && buf == v[a..p] && hasJp == HasJp(buf)
  {
    p, buf, hasJp := a, [], false;
    while p < |v| && |buf| < LIMIT
      invariant a <= p <= |v| && buf == v[a..p] && |buf| <= LIMIT
      invariant RunEnd(v, a) == RunEnd(v, p)
      invariant hasJp == HasJp(buf)
    {
      var cc := v[p];
      if !Textish(cc) {
        break;
      }
      HasJpAppend(buf, cc);
      if cc >= 0x80 {
        hasJp := true;
      }
      buf := buf + [cc];
      p := p + 1;
    }
  }

  /** A maximal run of text bytes that the report should hold. */
  ghost predicate Qualifies(v: seq<Byte>, minlen: nat, f: Found) {
    var e := f.start + |f.text|;
    && f.text != [] && e <= |v| && f.text == v[f.start..e] && AllText(v[f.start..e])
    && (f.start > 0 ==> !Textish(v[f.start - 1])) && (e < |v| ==> !Textish(v[e]))
    && |f.text| >= minlen && HasJp(f.text)
  }

  predicate Boundary(v: seq<Byte>, a: nat) { a == 0 || a > |v| || !Textish(v[a - 1]) }

  // Where the scan may stand: at the start of a run, or inside one that has nothing left to report
  predicate Safe(v: seq<Byte>, a: nat) {
    Boundary(v, a) || (a <= |v| && !HasJp(v[a..RunEnd(v, a)]))
  }

  lemma {:induction false} RunEndFrom(v: seq<Byte>, a: nat, b: nat)
    requires a <= |v| && a <= b <= RunEnd(v, a)
    ensures RunEnd(v, b) == RunEnd(v, a)
    decreases b - a
  {
    if a < b { RunEndFrom(v, a + 1, b); }
  }

  lemma {:induction false} JpInside(v: seq<Byte>, a: nat, b: nat, c: nat, d: nat)
    requires a <= b <= c <= d <= |v|
    ensures HasJp(v[b..c]) ==> HasJp(v[a..d])
  {
    if i :| 0 <= i < c - b && v[b..c][i] >= 0x80 { assert v[a..d][b - a + i] == v[b + i]; }
  }

  lemma {:induction false} TextAt(v: seq<Byte>, a: nat, e: nat)
    requires a <= e <= |v| && AllText(v[a..e])
    ensures forall i :: a <= i < e ==> Textish(v[i])
  {
    forall i | a <= i < e ensures Textish(v[i]) { assert v[a..e][i - a] == v[i]; }
  }

  // A run of text that a non-text byte or the end of memory follows ends where RunEnd says.
  lemma {:induction false} RunEndIs(v: seq<Byte>, a: nat, e: nat)
    requires a <= e <= |v| && AllText(v[a..e]) && (e < |v| ==> !Textish(v[e]))
    ensures RunEnd(v, a) == e
  {
    hide RunEnd, Textish, AllText;
    var r := RunEnd(v, a);
    TextAt(v, a, e);
    TextAt(v, a, r);
    if e < r {
      assert false;
    }
  }

  lemma {:induction false} MaximalRun(v: seq<Byte>, a: nat, e: nat)
    requires a < e <= |v| && AllText(v[a..e]) && (e < |v| ==> !Textish(v[e]))
    ensures Textish(v[a]) && RunEnd(v, a) == e
  {
    hide RunEnd, Textish, AllText;
    RunEndIs(v, a, e);
    TextAt(v, a, e);
  }

  /** A qualifying line is the whole run that starts where it starts. */
  lemma {:induction false} QualifiesIsRun(v: seq<Byte>, minlen: nat, f: Found)
    requires Qualifies(v, minlen, f)
    ensures f.start < |v| && Textish(v[f.start]) && Boundary(v, f.start)
    ensures f.text == v[f.start..RunEnd(v, f.start)]
  {
    hide RunEnd, Textish, HasJp, AllText;
    MaximalRun(v, f.start, f.start + |f.text|);
  }

  /** The next position of the scan after a text byte is safe, and nothing is lost. */
  lemma {:induction false} ChunkIsExact(v: seq<Byte>, minlen: nat, a: nat, f: Found)
    requires a < |v| && Textish(v[a]) && Safe(v, a) && minlen <= LIMIT
    requires forall g :: Qualifies(v, minlen, g) ==> |g.text| <= LIMIT
    ensures var e := ChunkEnd(v, a);
            && Safe(v, e + 1)
            && ((e - a >= minlen && HasJp(v[a..e]) && f == Found(a, v[a..e]))
                || (Qualifies(v, minlen, f) && f.start >= e + 1)
                <==> Qualifies(v, minlen, f) && f.start >= a)
  {
    hide RunEnd;
    var r, e := RunEnd(v, a), ChunkEnd(v, a);
    var run := Found(a, v[a..r]);
    assert r > a by { RunEndMoves(v, a); }
    if Boundary(v, a) {
      assert r - a >= minlen && HasJp(v[a..r]) ==> Qualifies(v, minlen, run);
    }
    TextAt(v, a, r);
    if e < r {
      JpInside(v, a, a, e, r);
      JpInside(v, a, e + 1, r, r);
      RunEndFrom(v, a, e + 1);
    }
    if Qualifies(v, minlen, f) {
      QualifiesIsRun(v, minlen, f);
    }
    assert e == r ==> Boundary(v, e + 1);
  }

  lemma {:induction false} RunEndMoves(v: seq<Byte>, a: nat)
    requires a < |v| && Textish(v[a])
    ensures RunEnd(v, a) > a
  {
  }

  lemma {:induction false} ScanFromIsExact(v: seq<Byte>, minlen: nat, a: nat, f: Found)
    requires Safe(v, a) && minlen <= LIMIT
    requires forall g :: Qualifies(v, minlen, g) ==> |g.text| <= LIMIT
    ensures f in ScanFrom(v, minlen, a) <==> Qualifies(v, minlen, f) && f.start >= a
    decreases |v| - a
  {
    hide Qualifies, Safe;
    if a < |v| {
      ScanStepFrom(v, minlen, a);
      if !Textish(v[a]) {
        SkipIsExact(v, minlen, a, f);
        ScanFromIsExact(v, minlen, a + 1, f);
      } else {
        ChunkIsExact(v, minlen, a, f);
        ScanFromIsExact(v, minlen, ChunkEnd(v, a) + 1, f);
      }
    } else {
      PastTheEnd(v, minlen, a, f);
    }
  }

  lemma {:induction false} SkipIsExact(v: seq<Byte>, minlen: nat, a: nat, f: Found)
    requires a < |v| && !Textish(v[a])
    ensures Safe(v, a + 1)
    ensures Qualifies(v, minlen, f) && f.start >= a <==> Qualifies(v, minlen, f) && f.start >= a + 1
  {
    if Qualifies(v, minlen, f) { QualifiesIsRun(v, minlen, f); }
  }

  lemma {:induction false} PastTheEnd(v: seq<Byte>, minlen: nat, a: nat, f: Found)
    requires a >= |v|
    ensures !(Qualifies(v, minlen, f) && f.start >= a)
  {
  }

  lemma {:induction false} ReportFits(v: seq<Byte>, minlen: nat, a: nat, f: Found)
    requires f in ScanFrom(v, minlen, a)
    ensures minlen <= |f.text| <= LIMIT && f.start >= a
    decreases |v| - a
  {
    ScanStepFrom(v, minlen, a);
    if !Textish(v[a]) {
      ReportFits(v, minlen, a + 1, f);
    } else if f in ScanFrom(v, minlen, ChunkEnd(v, a) + 1) {
      ReportFits(v, minlen, ChunkEnd(v, a) + 1, f);
    }
  }

  /** The report holds exactly the maximal runs of text that are long enough and contain a Japanese byte,
      if and only if none of these runs is longer than the buffer. */
  lemma {:induction false} ScanIsExactIff(v: seq<Byte>, minlen: nat)
    ensures (forall f :: f in ScanFrom(v, minlen, 0) <==> Qualifies(v, minlen, f))
       <==> (forall f :: Qualifies(v, minlen, f) ==> |f.text| <= LIMIT)
  {
    hide Qualifies, ScanFrom;
    if forall f :: Qualifies(v, minlen, f) ==> |f.text| <= LIMIT {
      forall f
        ensures f in ScanFrom(v, minlen, 0) <==> Qualifies(v, minlen, f)
      {
        if minlen <= LIMIT {
          ScanFromIsExact(v, minlen, 0, f);
        } else {
          TooShort(v, minlen, f);
          if f in ScanFrom(v, minlen, 0) { ReportFits(v, minlen, 0, f); }
        }
      }
    }
    if forall f :: f in ScanFrom(v, minlen, 0) <==> Qualifies(v, minlen, f) {
      forall f | Qualifies(v, minlen, f)
        ensures |f.text| <= LIMIT
      {
        ReportFits(v, minlen, 0, f);
      }
    }
  }

  /** A run of one byte more than the buffer holds is not reported as it is. */
  lemma {:induction false} LongRunIsCut()
    ensures var v: seq<Byte> := seq(LIMIT + 1, _ => 0xA1);
            Qualifies(v, 4, Found(0, v)) && Found(0, v) !in ScanFrom(v, 4, 0)
  {
    var v: seq<Byte> := seq(LIMIT + 1, _ => 0xA1);
    assert v[0..|v|] == v && v[0] >= 0x80;
    if Found(0, v) in ScanFrom(v, 4, 0) {
      ReportFits(v, 4, 0, Found(0, v));
    }
  }

  lemma {:induction false} TooShort(v: seq<Byte>, minlen: nat, f: Found)
    ensures Qualifies(v, minlen, f) ==> |f.text| >= minlen
  {
  }

  /** The report is in address order and its lines do not overlap. */
  lemma {:induction false} ReportAscends(v: seq<Byte>, minlen: nat, a: nat)
    ensures var r := ScanFrom(v, minlen, a);
            forall i, j :: 0 <= i < j < |r| ==> r[i].start + |r[i].text| < r[j].start
    decreases |v| - a
  {
    if a < |v| {
      ScanStepFrom(v, minlen, a);
      if !Textish(v[a]) {
        ReportAscends(v, minlen, a + 1);
      } else {
        var e := ChunkEnd(v, a);
        var rest := ScanFrom(v, minlen, e + 1);
        ReportAscends(v, minlen, e + 1);
        forall j | 0 <= j < |rest|
          ensures e < rest[j].start
        {
          ReportFits(v, minlen, e + 1, rest[j]);
        }
      }
    }
  }
}

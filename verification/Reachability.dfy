/** What tools/mips_find_functions.py finds, said without its worklist and its classifier: the addresses that
    a chain of instructions leads to. */
module Reachability {

  import Basics
  import opened MipsDecoder
  import opened MipsAssembler
  import opened FunctionDiscovery
  import FunctionSize

  // The instruction at a jumps to, or calls, address t.
  ghost predicate Jumps(word: int -> Basics.Word, a: int, t: int) {
    exists i :: Encodes(i, a, word(a)) && i.JumpsTo(t)
  }

  ghost predicate Calls(word: int -> Basics.Word, a: int, t: int) {
    exists i :: Encodes(i, a, word(a)) && i.CallsTo(t)
  }

  ghost predicate Stops(word: int -> Basics.Word, a: int) { exists i :: Encodes(i, a, word(a)) && i.Stops() }

  // There is an instruction at a.
  predicate Live(s: Section, a: int) { s.Contains(a) && !Reserved(s.word(a)) }

  /** The instruction at a leads to the one at b: next in line, as a target, or as an entry that passes the
      gate. */
  ghost predicate Leads(s: Section, a: int, b: int) {
    (b == a + 4 && !Stops(s.word, a)) || (Jumps(s.word, a, b) && s.Pushable(b)) || (Calls(s.word, a, b) && s.Gate(b))
  }

  ghost predicate Trail(s: Section, p: seq<int>) {
    && (forall i :: 0 <= i < |p| ==> Live(s, p[i]))
    && (forall i :: 0 <= i < |p| - 1 ==> Leads(s, p[i], p[i + 1]))
  }

  ghost predicate From(s: Section, seeds: set<int>, p: seq<int>, pc: int) {
    p != [] && Trail(s, p) && p[0] in seeds && s.Gate(p[0]) && p[|p| - 1] == pc
  }

  // A trail leads to pc from a seed that passes the gate.
  ghost predicate ByTrail(s: Section, seeds: set<int>, pc: int) { exists p :: From(s, seeds, p, pc) }

  ghost predicate Entry(s: Section, seeds: set<int>, v: int) {
    s.Gate(v) && (v in seeds || exists pc :: ByTrail(s, seeds, pc) && Calls(s.word, pc, v))
  }

  ghost predicate Head(s: Section, seeds: set<int>, v: int) {
    Entry(s, seeds, v) || (s.Pushable(v) && exists pc :: ByTrail(s, seeds, pc) && Jumps(s.word, pc, v))
  }

  lemma {:induction false} KindsAreInstructions(s: Section, a: int, t: int)
    ensures Jumps(s.word, a, t) <==> Follows(s.KindAt(a), t)
    ensures Calls(s.word, a, t) <==> s.KindAt(a) == Call(t)
    ensures Stops(s.word, a) <==> Terminates(s.KindAt(a))
    ensures Live(s, a) <==> s.Code(a)
  {
    hide Classify, Reserved;
    FlowIsAssembled(s.word(a), a, t);
    InvalidIsReserved(s.word(a), a);
  }

  lemma {:induction false} OneMore(s: Section, seeds: set<int>, a: int, b: int)
    requires ByTrail(s, seeds, a) && Leads(s, a, b) && Live(s, b)
    ensures ByTrail(s, seeds, b)
  {
    hide Leads, Live, Section.Gate;
    var p :| From(s, seeds, p, a);
    assert From(s, seeds, p + [b], b);
  }

  lemma {:induction false} JustOne(s: Section, seeds: set<int>, v: int)
    requires v in seeds && s.Gate(v) && Live(s, v)
    ensures ByTrail(s, seeds, v)
  {
    assert From(s, seeds, [v], v);
  }

  lemma {:induction false} EntryIsReached(s: Section, seeds: set<int>, v: int)
    requires Head(s, seeds, v) && Live(s, v)
    ensures ByTrail(s, seeds, v)
  {
    hide ByTrail, Jumps, Calls, Stops, Live;
    if v in seeds && s.Gate(v) {
      JustOne(s, seeds, v);
    } else if Entry(s, seeds, v) {
      var pc :| ByTrail(s, seeds, pc) && Calls(s.word, pc, v);
      OneMore(s, seeds, pc, v);
    } else {
      var pc :| ByTrail(s, seeds, pc) && Jumps(s.word, pc, v);
      OneMore(s, seeds, pc, v);
    }
  }

  // Every closed result holds what a trail leads to.
  lemma {:induction false} TrailsAreFollowed(s: Section, seeds: set<int>, f: Found, p: seq<int>, pc: int)
    requires Closed(s, seeds, f) && From(s, seeds, p, pc)
    ensures pc in f.reached
    decreases |p|
  {
    hide Section.Gate, Section.KindAt, Section.Pushable, Section.Code, Jumps, Calls, Stops, Live;
    KindsAreInstructions(s, pc, pc);
    if |p| > 1 {
      var a := p[|p| - 2];
      assert Leads(s, p[|p| - 2], p[|p| - 2 + 1]);
      TrailsAreFollowed(s, seeds, f, p[..|p| - 1], a);
      KindsAreInstructions(s, a, pc);
      StepIsFollowed(s, seeds, f, a, pc);
    }
  }

  lemma {:induction false} StepIsFollowed(s: Section, seeds: set<int>, f: Found, a: int, b: int)
    requires Closed(s, seeds, f) && a in f.reached && Leads(s, a, b) && Live(s, a) && Live(s, b)
    ensures b in f.reached
  {
    hide Jumps, Calls, Stops, Live, Classify, IsLegal, InsideKnownBody;
    KindsAreInstructions(s, a, b);
    KindsAreInstructions(s, b, b);
    assert NextFollowed(s, f, a) && TargetsFollowed(s, f, a);
  }

  // The part of a closed result that trails account for
  ghost function Accounted(s: Section, seeds: set<int>, f: Found): Found {
    Found(set v | v in f.functions && Entry(s, seeds, v),
          set v | v in f.heads && Head(s, seeds, v),
          set pc | pc in f.reached && ByTrail(s, seeds, pc))
  }

  lemma {:induction false} AccountedIsClosed(s: Section, seeds: set<int>, f: Found)
    requires Closed(s, seeds, f)
    ensures Closed(s, seeds, Accounted(s, seeds, f))
  {
    hide ByTrail, Jumps, Calls, Stops, Live, Classify, IsLegal, InsideKnownBody;
    var g := Accounted(s, seeds, f);
    forall h | h in g.heads && s.Code(h)
      ensures h in g.reached
    {
      KindsAreInstructions(s, h, h);
      EntryIsReached(s, seeds, h);
    }
    forall pc | pc in g.reached
      ensures NextFollowed(s, g, pc) && TargetsFollowed(s, g, pc)
    {
      assert NextFollowed(s, f, pc) && TargetsFollowed(s, f, pc);
      AccountedStep(s, seeds, f, pc);
    }
  }

  lemma {:induction false} AccountedStep(s: Section, seeds: set<int>, f: Found, pc: int)
    requires ByTrail(s, seeds, pc) && NextFollowed(s, f, pc) && TargetsFollowed(s, f, pc)
    ensures NextFollowed(s, Accounted(s, seeds, f), pc) && TargetsFollowed(s, Accounted(s, seeds, f), pc)
  {
    hide ByTrail, Jumps, Calls, Stops, Live, Classify, IsLegal, InsideKnownBody;
    KindsAreInstructions(s, pc, pc);
    if FallsThrough(s.KindAt(pc)) && s.Code(pc + 4) {
      KindsAreInstructions(s, pc + 4, pc);
      OneMore(s, seeds, pc, pc + 4);
    }
    forall t | Follows(s.KindAt(pc), t) && s.Pushable(t)
      ensures Head(s, seeds, t)
    {
      KindsAreInstructions(s, pc, t);
    }
    if s.KindAt(pc).Call? && s.Gate(s.KindAt(pc).callee) {
      KindsAreInstructions(s, pc, s.KindAt(pc).callee);
      assert Entry(s, seeds, s.KindAt(pc).callee);
    }
  }

  /** What discovery computes: reached are exactly the addresses that a trail of instructions leads to from a
      seed; functions are the seeds and the targets of the calls on such trails that pass the gate; walks
      start there and at the targets of jumps and branches. */
  lemma {:induction false} LeastIsReachable(s: Section, seeds: set<int>, f: Found, v: int)
    requires Least(s, seeds, f)
    ensures v in f.reached <==> ByTrail(s, seeds, v)
    ensures v in f.functions <==> Entry(s, seeds, v)
    ensures v in f.heads <==> Head(s, seeds, v)
  {
    hide Jumps, Calls, Stops, Live, Section.Code, Classify, IsLegal, InsideKnownBody, Leads, Trail;
    AccountedIsClosed(s, seeds, f);
    assert f.Within(Accounted(s, seeds, f));
    forall pc | ByTrail(s, seeds, pc)
      ensures pc in f.reached
    {
      var p :| From(s, seeds, p, pc);
      TrailsAreFollowed(s, seeds, f, p, pc);
    }
    hide ByTrail, From;
    forall t
      ensures Entry(s, seeds, t) ==> t in f.functions
      ensures Head(s, seeds, t) ==> t in f.heads
    {
      TargetsAreFound(s, seeds, f, t);
    }
  }

  lemma {:induction false} TargetsAreFound(s: Section, seeds: set<int>, f: Found, t: int)
    requires Closed(s, seeds, f) && forall pc :: ByTrail(s, seeds, pc) ==> pc in f.reached
    ensures Entry(s, seeds, t) ==> t in f.functions
    ensures Head(s, seeds, t) ==> t in f.heads
  {
    hide ByTrail, Jumps, Calls, Stops, Live, Classify, IsLegal, InsideKnownBody;
    if Entry(s, seeds, t) && t !in seeds {
      var pc :| ByTrail(s, seeds, pc) && Calls(s.word, pc, t);
      KindsAreInstructions(s, pc, t);
      assert TargetsFollowed(s, f, pc);
    }
    if s.Pushable(t) && exists pc :: ByTrail(s, seeds, pc) && Jumps(s.word, pc, t) {
      var pc :| ByTrail(s, seeds, pc) && Jumps(s.word, pc, t);
      KindsAreInstructions(s, pc, t);
      assert TargetsFollowed(s, f, pc);
    }
  }

  /** In particular: a branch or jump assembled for an aligned target in the section makes it a head, and a
      call assembled for an entry that passes the gate makes it a function. */
  lemma {:induction false} AssembledTargetIsFound(s: Section, seeds: set<int>, f: Found, pc: int, i: Instr, t: int)
    requires Least(s, seeds, f) && pc in f.reached && Encodes(i, pc, s.word(pc))
    ensures i.JumpsTo(t) && s.Pushable(t) ==> t in f.heads
    ensures i.CallsTo(t) && s.Gate(t) ==> t in f.functions
    ensures !i.Stops() && Live(s, pc + 4) ==> pc + 4 in f.reached
  {
    hide Least, Section.Gate, Section.Pushable, Live, ByTrail, Encodes;
    LeastIsReachable(s, seeds, f, pc);
    LeastIsReachable(s, seeds, f, t);
    LeastIsReachable(s, seeds, f, pc + 4);
    if !i.Stops() && Live(s, pc + 4) {
      OneOnly(s, pc, i);
      OneMore(s, seeds, pc, pc + 4);
    }
  }

  // Whether the path stops does not depend on how the word is read.
  lemma {:induction false} OneOnly(s: Section, pc: int, i: Instr)
    requires Encodes(i, pc, s.word(pc)) && !i.Stops()
    ensures !Stops(s.word, pc)
  {
    hide Classify, Encodable, Assemble;
    KindsAreInstructions(s, pc, pc);
    AssembledIsClassified(i, pc);
  }

  // ---- The prologue that the gap pass looks for ----------------------------------------------

  // addiu sp,sp,x for a negative x
  predicate MakesFrame(w: Basics.Word) {
    exists x :: -0x8000 <= x < 0 && w == Immediate(9, SP, SP, x)
  }

  // sw ra,x(sp)
  predicate StoresRa(w: Basics.Word) {
    exists x :: -0x8000 <= x <= 0x7FFF && w == Immediate(0x2B, SP, RA, x)
  }

  predicate ReturnsTo(w: Basics.Word, r: int) { w == Assemble(Register(false, r, 0), 0) }

  lemma {:induction false} HighAndLow(w: Basics.Word, high: int)
    ensures w / 0x1_0000 == high <==> w == high * 0x1_0000 + w % 0x1_0000
  {
  }

  lemma {:induction false} SignBit(w: Basics.Word)
    ensures w / 0x8000 % 2 == 1 <==> w % 0x1_0000 >= 0x8000
  {
    var high, low := w / 0x1_0000, w % 0x1_0000;
    assert w == high * 0x1_0000 + low;
    assert w / 0x8000 == 2 * high + low / 0x8000;
  }

  lemma {:induction false} FrameFields(w: Basics.Word, x: int)
    requires -0x8000 <= x < 0 && w == Immediate(9, SP, SP, x)
    ensures w / 0x1_0000 == 0x27BD && w % 0x1_0000 >= 0x8000 && Opcode(w) == 9
  {
    assert x % 0x1_0000 == x + 0x1_0000;
    assert w == 0x27BD * 0x1_0000 + (x + 0x1_0000);
  }

  lemma {:induction false} FrameOf(w: Basics.Word)
    requires w / 0x1_0000 == 0x27BD && w % 0x1_0000 >= 0x8000
    ensures MakesFrame(w)
  {
    var x := w % 0x1_0000 - 0x1_0000;
    assert x % 0x1_0000 == w % 0x1_0000;
    assert w == Immediate(9, SP, SP, x);
  }

  lemma {:induction false} FramesAreMade(w: Basics.Word)
    ensures w / 0x1_0000 == 0x27BD && w / 0x8000 % 2 == 1 <==> MakesFrame(w)
    ensures MakesFrame(w) ==> IsLegal(w)
  {
    SignBit(w);
    LegalFields(w);
    hide Immediate, IsLegal, Opcode;
    if x :| -0x8000 <= x < 0 && w == Immediate(9, SP, SP, x) {
      FrameFields(w, x);
    }
    hide MakesFrame;
    if w / 0x1_0000 == 0x27BD && w % 0x1_0000 >= 0x8000 {
      FrameOf(w);
    }
  }

  lemma {:induction false} RaIsStored(w: Basics.Word)
    ensures w / 0x1_0000 == 0xAFBF <==> StoresRa(w)
  {
    HighAndLow(w, 0xAFBF);
    var low := w % 0x1_0000;
    var x := if low < 0x8000 then low else low - 0x1_0000;
    assert x % 0x1_0000 == low;
    if w == 0xAFBF * 0x1_0000 + low {
      assert w == Immediate(0x2B, SP, RA, x);
    }
  }

  // Word k behind v stores the return address, and no word before it returns.
  predicate RaStoredAt(s: Section, v: int, k: int) {
    StoresRa(s.word(v + 4 * k)) && forall j :: 1 <= j < k ==> !ReturnsTo(s.word(v + 4 * j), RA)
  }

  lemma {:induction false} RaStoredIsSaved(s: Section, v: int, k: int)
    ensures SavesRaAt(s, v, k) <==> RaStoredAt(s, v, k)
  {
    RaIsStored(s.word(v + 4 * k));
    hide StoresRa;
  }

  /** A prologue adjusts the stack pointer downwards and stores the return address within the eight words
      behind, with no jr ra in between. */
  lemma {:induction false} PrologueIsAssembled(s: Section, v: int)
    ensures Prologue(s, v) <==> MakesFrame(s.word(v)) && exists k :: 1 <= k <= 8 && RaStoredAt(s, v, k)
  {
    FramesAreMade(s.word(v));
    hide MakesFrame, IsLegal, SavesRaAt, RaStoredAt;
    forall k
      ensures SavesRaAt(s, v, k) <==> RaStoredAt(s, v, k)
    {
      RaStoredIsSaved(s, v, k);
    }
  }

  // ---- The size of one function ------------------------------------------------------------

  /** Inside [entry, limit) the instruction at a leads on to b. */
  ghost predicate LeadsOn(c: FunctionSize.Code, entry: int, limit: int, a: int, b: int) {
    !Reserved(c.word(a)) && entry <= b < limit && ((b == a + 4 && !Stops(c.word, a)) || Jumps(c.word, a, b))
  }

  ghost predicate Inside(c: FunctionSize.Code, entry: int, limit: int, p: seq<int>, pc: int) {
    && p != [] && p[0] == entry && p[|p| - 1] == pc
    && forall i :: 0 <= i < |p| - 1 ==> LeadsOn(c, entry, limit, p[i], p[i + 1])
  }

  ghost predicate ByInside(c: FunctionSize.Code, entry: int, limit: int, pc: int) {
    exists p :: Inside(c, entry, limit, p, pc)
  }

  lemma {:induction false} InsideKinds(c: FunctionSize.Code, entry: int, limit: int, a: int, b: int)
    ensures LeadsOn(c, entry, limit, a, b) <==>
            FunctionSize.In(entry, limit, b) &&
            ((b == a + 4 && FallsThrough(c.KindAt(a))) || Follows(c.KindAt(a), b))
    ensures Stops(c.word, a) <==> Terminates(c.KindAt(a))
    ensures Reserved(c.word(a)) <==> c.KindAt(a).Invalid?
  {
    hide Classify, Reserved;
    FlowIsAssembled(c.word(a), a, b);
    InvalidIsReserved(c.word(a), a);
  }

  lemma {:induction false} OneMoreInside(c: FunctionSize.Code, entry: int, limit: int, a: int, b: int)
    requires ByInside(c, entry, limit, a) && LeadsOn(c, entry, limit, a, b)
    ensures ByInside(c, entry, limit, b)
  {
    hide LeadsOn;
    var p :| Inside(c, entry, limit, p, a);
    assert Inside(c, entry, limit, p + [b], b);
  }

  lemma {:induction false} InsideIsClosed(c: FunctionSize.Code, entry: int, limit: int, s: set<int>, p: seq<int>,
                                          pc: int)
    requires FunctionSize.Closed(c, entry, limit, s) && Inside(c, entry, limit, p, pc)
    ensures pc in s
    decreases |p|
  {
    hide LeadsOn, Classify;
    if |p| > 1 {
      assert LeadsOn(c, entry, limit, p[|p| - 2], p[|p| - 2 + 1]);
      InsideIsClosed(c, entry, limit, s, p[..|p| - 1], p[|p| - 2]);
      InsideKinds(c, entry, limit, p[|p| - 2], pc);
    }
  }

  /** The walk that sizes a function visits exactly the addresses that a chain of instructions inside
      [entry, limit) leads to. */
  lemma {:induction false} SizedIsReachable(c: FunctionSize.Code, entry: int, limit: int, s: set<int>, pc: int)
    requires FunctionSize.Reachable(c, entry, limit, s)
    ensures pc in s <==> ByInside(c, entry, limit, pc)
  {
    hide LeadsOn, Classify;
    if p :| Inside(c, entry, limit, p, pc) { InsideIsClosed(c, entry, limit, s, p, pc); }
    var t := set a | a in s && ByInside(c, entry, limit, a);
    assert Inside(c, entry, limit, [entry], entry);
    hide ByInside;
    forall a, b | a in t && b in s
      ensures (b == a + 4 && FallsThrough(c.KindAt(a))) || Follows(c.KindAt(a), b) ==>
              FunctionSize.In(entry, limit, b) ==> b in t
    {
      InsideKinds(c, entry, limit, a, b);
      if LeadsOn(c, entry, limit, a, b) { OneMoreInside(c, entry, limit, a, b); }
    }
    assert FunctionSize.Closed(c, entry, limit, t);
  }

  // Where an instruction that stands at pc ends, with the delay slot behind which nothing is executed.
  ghost function EndOf(c: FunctionSize.Code, pc: int): int { if Stops(c.word, pc) then pc + 8 else pc + 4 }

  /** The size ends behind the last instruction on such a chain, delay slot included, and not beyond the
      limit. */
  lemma {:induction false} SizeIsExtent(c: FunctionSize.Code, entry: int, limit: int, size: int, pc: int)
    requires FunctionSize.IsSize(c, entry, limit, size)
    ensures ByInside(c, entry, limit, pc) && !Reserved(c.word(pc)) ==>
            EndOf(c, pc) <= entry + size || limit == entry + size
    ensures size == 4 || limit == entry + size ||
            exists q :: ByInside(c, entry, limit, q) && !Reserved(c.word(q)) && EndOf(c, q) == entry + size
  {
    hide LeadsOn, Classify, ByInside;
    var s, end :| FunctionSize.Reachable(c, entry, limit, s) && FunctionSize.LeastCover(c, entry, s, end)
      && size == if end < limit then end - entry else limit - entry;
    forall q
      ensures q in s <==> ByInside(c, entry, limit, q)
      ensures FunctionSize.End(c, q) == EndOf(c, q)
      ensures Reserved(c.word(q)) <==> c.KindAt(q).Invalid?
    {
      SizedIsReachable(c, entry, limit, s, q);
      InsideKinds(c, entry, limit, q, q);
    }
    FunctionSize.EndIsAttained(c, entry, limit, s, end);
  }
}

/** tools/mips_find_functions.py: func_size, the walk that sizes one discovered function. */
module FunctionSize {
  import Basics
  import opened MipsDecoder

  datatype Code = Code(word: int -> Basics.Word)
  {
    function KindAt(pc: int): Kind { Classify(word(pc), pc) }
  }

  /** Where the instruction at pc ends, its delay slot included when the path stops there. */
  function End(c: Code, pc: int): int {
    if Terminates(c.KindAt(pc)) then pc + 8 else pc + 4
  }

  predicate In(entry: int, limit: int, pc: int) { entry <= pc < limit }

  /** A set of addresses closed under the control flow that stays in [entry, limit): an invalid word
      and a terminator have no fall-through successor. */
  ghost predicate Closed(c: Code, entry: int, limit: int, s: set<int>) {
    && entry in s
    && (forall pc :: pc in s && FallsThrough(c.KindAt(pc)) && In(entry, limit, pc + 4)
         ==> pc + 4 in s)
    && (forall pc, t :: pc in s && Follows(c.KindAt(pc), t) && In(entry, limit, t) ==> t in s)
  }

  ghost predicate Reachable(c: Code, entry: int, limit: int, s: set<int>) {
    Closed(c, entry, limit, s) && forall g :: Closed(c, entry, limit, g) ==> s <= g
  }

  /** Every valid instruction of s ends within [entry, end). */
  ghost predicate Covers(c: Code, entry: int, s: set<int>, end: int) {
    entry + 4 <= end && forall pc :: pc in s && !c.KindAt(pc).Invalid? ==> End(c, pc) <= end
  }

  ghost predicate LeastCover(c: Code, entry: int, s: set<int>, end: int) {
    Covers(c, entry, s, end) && forall e :: Covers(c, entry, s, e) ==> end <= e
  }

  /** The size is the least one covering all reachable valid instructions, capped at the limit. */
  ghost predicate IsSize(c: Code, entry: int, limit: int, size: int) {
    exists s, end :: Reachable(c, entry, limit, s) && LeastCover(c, entry, s, end)
      && size == if end < limit then end - entry else limit - entry
  }

  lemma {:induction false} SizeIsUnique(c: Code, entry: int, limit: int, size: int, size': int)
    requires IsSize(c, entry, limit, size) && IsSize(c, entry, limit, size')
    ensures size == size'
  {
    var s, end :| Reachable(c, entry, limit, s) && LeastCover(c, entry, s, end)
      && size == if end < limit then end - entry else limit - entry;
    var s', end' :| Reachable(c, entry, limit, s') && LeastCover(c, entry, s', end')
      && size' == if end' < limit then end' - entry else limit - entry;
    assert s == s';
  }

  // The end is reached by some instruction, or it is just behind the entry.
  lemma {:induction false} EndIsAttained(c: Code, entry: int, limit: int, s: set<int>, end: int)
    requires Reachable(c, entry, limit, s) && LeastCover(c, entry, s, end)
    ensures end == entry + 4 || exists pc :: pc in s && !c.KindAt(pc).Invalid? && End(c, pc) == end
    ensures end == entry + 4 ==> end - 4 in s
  {
    hide Classify;
    if end != entry + 4 {
      assert !Covers(c, entry, s, end - 1);
      var pc :| pc in s && !c.KindAt(pc).Invalid? && End(c, pc) > end - 1;
      assert End(c, pc) == end;
    }
  }

  /** What the delay-slot fixer looks for later: a function sized here holds the delay slot of every
      reachable transfer, unless it is cut off by its limit or a call or branch is followed by data. */
  lemma {:induction false} DelaySlotsInside(c: Code, entry: int, limit: int, s: set<int>, end: int, pc: int)
    requires Reachable(c, entry, limit, s) && LeastCover(c, entry, s, end)
    requires pc in s && IsDelaySlotInstr(c.word(pc))
    ensures pc + 8 <= end || limit <= pc + 4 || (!Terminates(c.KindAt(pc)) && c.KindAt(pc + 4).Invalid?)
  {
    DecodersAgree(c.word(pc), pc);
    assert !c.KindAt(pc).Invalid? && Covers(c, entry, s, end);
    if !Terminates(c.KindAt(pc)) && pc + 4 < limit && !c.KindAt(pc + 4).Invalid? {
      StaysInRange(c, entry, limit, s, pc);
      assert pc + 4 in s && End(c, pc + 4) >= pc + 8;
    }
  }

  lemma {:induction false} StaysInRange(c: Code, entry: int, limit: int, s: set<int>, pc: int)
    requires Reachable(c, entry, limit, s) && pc in s
    ensures entry <= pc
  {
    assert Closed(c, entry, limit, set p | p in s && entry <= p);
  }

  // ---- Invariant of the stack-and-seen loop --------------------------------------

  ghost predicate Sound(c: Code, entry: int, limit: int, v: set<int>) {
    forall g :: Closed(c, entry, limit, g) ==> v <= g
  }

  // pending: addresses that may still be unvisited although an instruction of seen leads to them
  ghost predicate ClosedBut(c: Code, entry: int, limit: int, seen: set<int>, pending: set<int>) {
    && entry in seen + pending
    && (forall pc :: pc in seen && FallsThrough(c.KindAt(pc)) && In(entry, limit, pc + 4)
         ==> pc + 4 in seen + pending)
    && (forall pc, t :: pc in seen && Follows(c.KindAt(pc), t) && In(entry, limit, t) ==> t in seen + pending)
  }

  // maxend so far
  ghost predicate Furthest(c: Code, entry: int, seen: set<int>, maxend: int) {
    && Covers(c, entry, seen, maxend)
    && (maxend == entry + 4 || exists pc :: pc in seen && !c.KindAt(pc).Invalid? && End(c, pc) == maxend)
  }

  function Successors(c: Code, entry: int, limit: int, pc: int): set<int> {
    var k := c.KindAt(pc);
    (if FallsThrough(k) && In(entry, limit, pc + 4) then {pc + 4} else {}) +
    (if (k.Branch? || k.UBranch? || k.Jump?) && In(entry, limit, k.target) then {k.target} else {})
  }

  /** The invariant of both loops. */
  ghost predicate Good(c: Code, entry: int, limit: int, seen: set<int>, pending: set<int>, maxend: int) {
    && (forall t :: t in seen + pending ==> In(entry, limit, t))
    && Sound(c, entry, limit, seen + pending)
    && ClosedBut(c, entry, limit, seen, pending)
    && Furthest(c, entry, seen, maxend)
  }

  lemma {:induction false} VisitIsGood(c: Code, entry: int, limit: int, seen: set<int>, pending: set<int>,
                                       maxend: int, pc: int, pending': set<int>, maxend': int)
    requires Good(c, entry, limit, seen, pending, maxend) && pc in pending
    requires pending' + {pc} == pending + {pc} + Successors(c, entry, limit, pc)
    requires maxend' == if c.KindAt(pc).Invalid? then maxend else Max(maxend, End(c, pc))
    ensures Good(c, entry, limit, seen + {pc}, pending', maxend')
  {
    hide Classify;
    var k := c.KindAt(pc);
    forall g | Closed(c, entry, limit, g)
      ensures seen + {pc} + pending' <= g
    {
      assert pc in g;
      if (k.Branch? || k.UBranch? || k.Jump?) && In(entry, limit, k.target) {
        assert Follows(k, k.target);
      }
      assert pending' <= pending' + {pc};
    }
    forall t | t in pending + {pc} + Successors(c, entry, limit, pc)
      ensures t in seen + {pc} + pending'
    {
      assert t in pending' + {pc};
    }
    assert forall t :: t in pending' ==> t in pending' + {pc};
    assert Covers(c, entry, seen + {pc}, maxend');
  }

  /** An address that was already seen needs no second visit. */
  lemma {:induction false} SeenAlready(c: Code, entry: int, limit: int, seen: set<int>, pending: set<int>,
                                       maxend: int, pending': set<int>)
    requires Good(c, entry, limit, seen, pending, maxend) && seen + pending == seen + pending'
    ensures Good(c, entry, limit, seen, pending', maxend)
  {
    hide Classify;
  }

  lemma {:induction false} Finished(c: Code, entry: int, limit: int, seen: set<int>, maxend: int)
    requires Good(c, entry, limit, seen, {}, maxend)
    ensures Reachable(c, entry, limit, seen) && LeastCover(c, entry, seen, maxend)
  {
    hide Classify;
    assert seen + {} == seen;
  }

  lemma {:induction false} GoodRange(c: Code, entry: int, limit: int, seen: set<int>, pending: set<int>, maxend: int,
                                     pc: int)
    requires Good(c, entry, limit, seen, pending, maxend)
    ensures pc in pending ==> In(entry, limit, pc)
  {
  }

  lemma {:induction false} GoodStart(c: Code, entry: int, limit: int)
    requires entry < limit
    ensures Good(c, entry, limit, {}, {entry}, entry + 4)
  {
    hide Classify;
  }

  function Elements(stack: seq<int>): set<int> { set t | t in stack }

  // The stack, and the address of the running path while it is in range
  function Pending(stack: seq<int>, entry: int, limit: int, pc: int): set<int> {
    Elements(stack) + (if In(entry, limit, pc) then {pc} else {})
  }

  /** One instruction of a path: where the path goes on, if it does. */
  method Visit(c: Code, entry: int, limit: int, pc: int, stack: seq<int>, maxend: int)
    returns (stack': seq<int>, maxend': int, stop: bool)
    requires In(entry, limit, pc)
    ensures maxend' == if c.KindAt(pc).Invalid? then maxend else Max(maxend, End(c, pc))
    ensures var next := if stop then {} else if In(entry, limit, pc + 4) then {pc + 4} else {};
            Elements(stack') + next == Elements(stack) + Successors(c, entry, limit, pc)
  {
    stack', maxend', stop := stack, maxend, true;
    var kind := Classify(c.word(pc), pc);
    if kind.Invalid? {
      return;
    }
    if pc + 4 > maxend {
      maxend' := pc + 4;
    }
    if kind.Ret? {
      maxend' := Max(maxend', pc + 8);
      return;
    }
    if kind.UBranch? || kind.Jump? {
      if In(entry, limit, kind.target) {
        stack' := stack + [kind.target];
      }
      maxend' := Max(maxend', pc + 8);
      return;
    }
    if kind.Branch? && In(entry, limit, kind.target) {
      stack' := stack + [kind.target];
    }
    if kind.IndirectJump? {
      maxend' := Max(maxend', pc + 8);
      return;
    }
    stop := false;
  }

  /** func_size. A target may be pushed many times, but an address is visited once. */
  method FuncSize(c: Code, entry: int, limit: int) returns (size: int)
    requires entry < limit
    ensures IsSize(c, entry, limit, size)
    ensures 0 < size <= limit - entry
  {
    hide Good, Classify, Successors;
    var seen: set<int> := {};
    var stack := [entry];
    var maxend := entry + 4;
    GoodStart(c, entry, limit);
    assert Elements(stack) == {entry};
    while stack != []
      invariant Good(c, entry, limit, seen, Elements(stack), maxend)
      invariant entry < maxend && seen <= Range(entry, limit)
      decreases Range(entry, limit) - seen, |stack|
    {
      var pc := stack[|stack| - 1];
      ghost var seen0, pushed := seen, stack;
      stack := stack[..|stack| - 1];
      assert pushed == stack + [pc];
      GoodRange(c, entry, limit, seen, Elements(pushed), maxend, pc);
      assert Pending(stack, entry, limit, pc) == Elements(pushed);
      while In(entry, limit, pc)
        invariant Good(c, entry, limit, seen, Pending(stack, entry, limit, pc), maxend)
        invariant entry < maxend && seen0 <= seen <= Range(entry, limit)
        invariant seen == seen0 ==> |stack| < |pushed|
        decreases limit - pc
      {
        if pc in seen {
          SeenAlready(c, entry, limit, seen, Pending(stack, entry, limit, pc), maxend, Elements(stack));
          break;
        }
        ghost var pending, was := Pending(stack, entry, limit, pc), maxend;
        seen := seen + {pc};
        var stop;
        stack, maxend, stop := Visit(c, entry, limit, pc, stack, maxend);
        ghost var pending' := if stop then Elements(stack) else Pending(stack, entry, limit, pc + 4);
        VisitIsGood(c, entry, limit, seen - {pc}, pending, was, pc, pending', maxend);
        if stop {
          break;
        }
        pc := pc + 4;
      }
      assert In(entry, limit, pc) || Pending(stack, entry, limit, pc) == Elements(stack);
    }
    assert Elements(stack) == {};
    Finished(c, entry, limit, seen, maxend);
    return if maxend - entry < limit - entry then maxend - entry else limit - entry;
  }

  function Max(a: int, b: int): int { if a < b then b else a }
  function Range(lo: int, hi: int): set<int> { set v: int | lo <= v < hi && In(lo, hi, v) }
}

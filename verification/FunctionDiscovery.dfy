/** tools/mips_find_functions.py: the recursive-descent discovery of function entries.
    The section is an address range with an instruction word at every address. */
module FunctionDiscovery {
  import Basics
  import opened MipsDecoder

  datatype Body = Body(lo: int, hi: int)

  // The known [lo, hi) bodies are kept in list order, as sorted by the tool.
  datatype Section = Section(lo: int, hi: int, word: int -> Basics.Word, bodies: seq<Body>)
  {
    predicate Contains(v: int) { lo <= v < hi }

    function KindAt(pc: int): Kind { Classify(word(pc), pc) }

    // An address a walk can stand on: inside the section and not data.
    predicate Code(pc: int) { Contains(pc) && !KindAt(pc).Invalid? }

    // The tests of push and add_function
    predicate Pushable(v: int) { Contains(v) && v % 4 == 0 }
    predicate Gate(v: int) { Pushable(v) && !InsideKnownBody(bodies, v) && IsLegal(word(v)) }
  }

  /** The list of body starts that the gate searches. */
  function Starts(bodies: seq<Body>): (los: seq<int>)
    ensures |los| == |bodies| && forall i :: 0 <= i < |bodies| ==> los[i] == bodies[i].lo
  {
    seq(|bodies|, i requires 0 <= i < |bodies| => bodies[i].lo)
  }

  predicate InsideKnownBody(bodies: seq<Body>, v: int) {
    var n := Basics.BisectRight(Starts(bodies), v);
    n > 0 && bodies[n - 1].lo < v < bodies[n - 1].hi
  }

  predicate StrictlyInside(b: Body, v: int) { b.lo < v < b.hi }

  // The order of a sorted list of (lo, hi) pairs
  predicate Sorted(bodies: seq<Body>) {
    forall i, j :: 0 <= i < j < |bodies| ==>
      bodies[i].lo < bodies[j].lo || (bodies[i].lo == bodies[j].lo && bodies[i].hi <= bodies[j].hi)
  }

  // No body starts strictly inside another one
  predicate NoNestedStart(bodies: seq<Body>) {
    forall i, j :: 0 <= i < |bodies| && 0 <= j < |bodies| ==> !StrictlyInside(bodies[i], bodies[j].lo)
  }

  // What the gate is meant to say
  ghost predicate InsideSomeBody(bodies: seq<Body>, v: int) {
    exists b :: b in bodies && StrictlyInside(b, v)
  }

  lemma {:induction false} GateLooksAtOneBody(bodies: seq<Body>, v: int)
    requires Sorted(bodies) && NoNestedStart(bodies)
    ensures InsideKnownBody(bodies, v) <==> InsideSomeBody(bodies, v)
  {
    hide Basics.BisectRight;
    var n := Basics.BisectRight(Starts(bodies), v);
    if InsideKnownBody(bodies, v) {
      assert bodies[n - 1] in bodies && StrictlyInside(bodies[n - 1], v);
    }
    if b :| b in bodies && StrictlyInside(b, v) {
      var i :| 0 <= i < |bodies| && bodies[i] == b;
      assert i <= n - 1 && !StrictlyInside(bodies[i], bodies[n - 1].lo);
    }
  }

  /** The bisect gate looks at one body only. It answers "strictly inside some known body" for every
      address exactly when no known body starts strictly inside another. */
  lemma {:induction false} BisectGateIsExact(bodies: seq<Body>)
    requires Sorted(bodies)
    ensures (forall v :: InsideKnownBody(bodies, v) <==> InsideSomeBody(bodies, v))
            <==> NoNestedStart(bodies)
  {
    hide InsideKnownBody, InsideSomeBody, NoNestedStart, Sorted;
    if NoNestedStart(bodies) {
      forall v
        ensures InsideKnownBody(bodies, v) <==> InsideSomeBody(bodies, v)
      {
        GateLooksAtOneBody(bodies, v);
      }
    } else {
      var v := NestedStartIsMissed(bodies);
    }
  }

  /** The start of a nested body is inside the outer body, but the gate finds the nested body itself. */
  lemma {:induction false} NestedStartIsMissed(bodies: seq<Body>) returns (v: int)
    requires Sorted(bodies) && !NoNestedStart(bodies)
    ensures InsideSomeBody(bodies, v) && !InsideKnownBody(bodies, v)
  {
    hide Basics.BisectRight;
    var i, j :| 0 <= i < |bodies| && 0 <= j < |bodies| && StrictlyInside(bodies[i], bodies[j].lo);
    v := bodies[j].lo;
    assert bodies[i] in bodies;
    var n := Basics.BisectRight(Starts(bodies), v);
    assert j < n ==> bodies[n - 1].lo == v;
  }

  /** Where it is not: a body inside another one hides the end of the outer one from the gate. */
  lemma {:induction false} NestedBodyHides()
    ensures var bodies := [Body(0, 32), Body(8, 16)];
            Sorted(bodies) && InsideSomeBody(bodies, 24) && !InsideKnownBody(bodies, 24)
  {
    var bodies := [Body(0, 32), Body(8, 16)];
    assert Starts(bodies) == [0, 8];
    assert bodies[0] in bodies && StrictlyInside(bodies[0], 24);
  }

  // ---- What discovery computes -------------------------------------------------

  /** functions: registered entries; heads: addresses a walk starts from ("explored");
      reached: addresses of visited instructions. */
  datatype Found = Found(functions: set<int>, heads: set<int>, reached: set<int>)
  {
    ghost predicate Within(that: Found) {
      functions <= that.functions && heads <= that.heads && reached <= that.reached
    }
  }

  // The rules of one address pc the walk stands on, in the section s
  ghost predicate TargetsFollowed(s: Section, f: Found, pc: int) {
    && (forall t :: Follows(s.KindAt(pc), t) && s.Pushable(t) ==> t in f.heads)
    && (s.KindAt(pc).Call? && s.Gate(s.KindAt(pc).callee) ==> s.KindAt(pc).callee in f.functions)
  }

  ghost predicate NextFollowed(s: Section, f: Found, pc: int) {
    FallsThrough(s.KindAt(pc)) && s.Code(pc + 4) ==> pc + 4 in f.reached
  }

  /** Closure under every rule: gated seeds are functions, functions are heads, heads that are code
      are reached, and reached code leads to its fall-through successor and its targets. */
  ghost predicate Closed(s: Section, seeds: set<int>, f: Found) {
    && (forall v :: v in seeds && s.Gate(v) ==> v in f.functions)
    && f.functions <= f.heads
    && (forall h :: h in f.heads && s.Code(h) ==> h in f.reached)
    && (forall pc :: pc in f.reached ==> NextFollowed(s, f, pc) && TargetsFollowed(s, f, pc))
  }

  ghost predicate Least(s: Section, seeds: set<int>, f: Found) {
    Closed(s, seeds, f) && forall g :: Closed(s, seeds, g) ==> f.Within(g)
  }

  /** The result cannot depend on the order of the worklist or of a set iteration: two results that
      are both least closed for the same seeds are equal. */
  lemma {:induction false} LeastIsUnique(s: Section, seeds: set<int>, f: Found, g: Found)
    requires Least(s, seeds, f) && Least(s, seeds, g)
    ensures f == g
  {
    assert f.Within(g) && g.Within(f);
  }

  /** Nothing but gated entries is registered, and only aligned code of the section is reached: the
      part of the least closed triple with these properties is itself closed. */
  lemma {:induction false} LeastIsGated(s: Section, seeds: set<int>, f: Found)
    requires Least(s, seeds, f)
    ensures forall v :: v in f.functions ==> s.Gate(v)
    ensures forall v :: v in f.heads ==> s.Pushable(v)
    ensures forall pc :: pc in f.reached ==> s.Code(pc) && pc % 4 == 0
  {
    hide IsLegal;
    var g := Found(set v | v in f.functions && s.Gate(v),
                   set v | v in f.heads && s.Pushable(v),
                   set pc | pc in f.reached && s.Code(pc) && pc % 4 == 0);
    assert Closed(s, seeds, g);
  }

  /** More seeds find more: discovery is monotone. */
  lemma {:induction false} LeastIsMonotone(s: Section, seeds: set<int>, more: set<int>, f: Found, g: Found)
    requires seeds <= more && Least(s, seeds, f) && Least(s, more, g)
    ensures f.Within(g)
  {
    assert Closed(s, seeds, g);
  }

  // ---- Prologue test of the gap pass -------------------------------------------

  // sw ra,X(sp) is the k-th word after v, and no jr ra comes before it.
  predicate SavesRaAt(s: Section, v: int, k: int) {
    s.word(v + 4 * k) / 0x1_0000 == 0xAFBF && forall j :: 1 <= j < k ==> s.word(v + 4 * j) != 0x03E0_0008
  }

  /** The return address is saved within eight words of v, before any return. */
  predicate SavesRa(s: Section, v: int) { exists k :: 1 <= k <= 8 && SavesRaAt(s, v, k) }

  predicate Prologue(s: Section, v: int) {
    var w := s.word(v);
    w / 0x1_0000 == 0x27BD && w / 0x8000 % 2 == 1 && SavesRa(s, v) && IsLegal(w)
  }

  /** The gap seeds of a finished first phase f. */
  predicate GapSeed(s: Section, f: Found, v: int) {
    && s.Contains(v) && (v - s.lo) % 4 == 0
    && v !in f.functions && v !in f.reached && !InsideKnownBody(s.bodies, v)
    && Prologue(s, v)
  }

  // ---- The tool's state and its worklist ----------------------------------------

  /** Every closed triple contains the state. */
  ghost predicate Sound(s: Section, seeds: set<int>, f: Found) {
    forall g :: Closed(s, seeds, g) ==> f.Within(g)
  }

  ghost predicate Expected(s: Section, seeds: set<int>, pc: int) {
    forall g :: Closed(s, seeds, g) && s.Code(pc) ==> pc in g.reached
  }

  /** All rules hold, except that the heads on the worklist and the address `next` of a running walk
      may still be unvisited. */
  ghost predicate ClosedBut(s: Section, seeds: set<int>, f: Found, work: seq<int>, next: int) {
    && (forall v :: v in seeds && s.Gate(v) ==> v in f.functions)
    && f.functions <= f.heads
    && (forall h :: h in f.heads && h !in work && s.Code(h) ==> h in f.reached || h == next)
    && (forall pc :: pc in f.reached ==> TargetsFollowed(s, f, pc))
    && (forall pc :: pc in f.reached && pc + 4 != next ==> NextFollowed(s, f, pc))
  }

  ghost predicate Listed(s: Section, f: Found, work: seq<int>, unresolved: seq<int>) {
    && (forall i, j :: 0 <= i < j < |work| ==> work[i] != work[j])
    && (forall h :: h in work ==> h in f.heads)
    && (forall h :: h in f.heads ==> s.Pushable(h))
    && (forall pc :: pc in f.reached ==> s.Contains(pc))
    && (forall pc :: pc in unresolved <==> pc in f.reached && s.KindAt(pc).IndirectJump?)
  }

  function If(b: bool, v: int): set<int> { if b then {v} else {} }

  // What the target of the instruction at pc adds
  function NewFunctions(s: Section, k: Kind): set<int> {
    if k.Call? then If(s.Gate(k.callee), k.callee) else {}
  }

  function NewHeads(s: Section, k: Kind): set<int> {
    if k.Call? then NewFunctions(s, k)
    else if k.Branch? || k.UBranch? || k.Jump? then If(s.Pushable(k.target), k.target)
    else {}
  }

  function Visit(s: Section, f: Found, pc: int): Found {
    var k := s.KindAt(pc);
    Found(f.functions + NewFunctions(s, k), f.heads + NewHeads(s, k), f.reached + {pc})
  }

  /** Visiting an address that every closed triple reaches stays inside every closed triple, and so
      does its fall-through successor. */
  lemma {:induction false} VisitIsSound(s: Section, seeds: set<int>, f: Found, pc: int)
    requires Sound(s, seeds, f) && s.Code(pc) && Expected(s, seeds, pc)
    ensures Sound(s, seeds, Visit(s, f, pc))
    ensures FallsThrough(s.KindAt(pc)) ==> Expected(s, seeds, pc + 4)
  {
    forall g | Closed(s, seeds, g)
      ensures Visit(s, f, pc).Within(g)
    {
      assert f.Within(g) && pc in g.reached && TargetsFollowed(s, g, pc);
    }
    forall g | Closed(s, seeds, g) && FallsThrough(s.KindAt(pc)) && s.Code(pc + 4)
      ensures pc + 4 in g.reached
    {
      assert pc in g.reached && NextFollowed(s, g, pc);
    }
  }

  lemma {:induction false} VisitIsClosed(s: Section, seeds: set<int>, f: Found, work: seq<int>, pc: int,
                                         work': seq<int>)
    requires ClosedBut(s, seeds, f, work, pc) && s.Code(pc)
    requires forall h :: h in work' <==> h in work || h in Visit(s, f, pc).heads - f.heads
    ensures ClosedBut(s, seeds, Visit(s, f, pc), work', pc + 4)
    ensures !FallsThrough(s.KindAt(pc)) ==> ClosedBut(s, seeds, Visit(s, f, pc), work', s.hi)
  {
    var f' := Visit(s, f, pc);
    forall p | p in f'.reached
      ensures TargetsFollowed(s, f', p)
    {
      assert p in f.reached ==> TargetsFollowed(s, f, p);
    }
    forall p | p in f'.reached && p + 4 != pc + 4
      ensures NextFollowed(s, f', p)
    {
      assert p + 4 != pc ==> NextFollowed(s, f, p);
    }
  }

  /** The invariant of a walk that stands on `next`; with next == s.hi, of the worklist loop. */
  ghost predicate Good(s: Section, seeds: set<int>, f: Found, work: seq<int>, unresolved: seq<int>, next: int) {
    Sound(s, seeds, f) && ClosedBut(s, seeds, f, work, next) && Listed(s, f, work, unresolved)
  }

  lemma {:induction false} VisitIsGood(s: Section, seeds: set<int>, f: Found, work: seq<int>, unresolved: seq<int>,
                                       pc: int, work': seq<int>, unresolved': seq<int>)
    requires Good(s, seeds, f, work, unresolved, pc) && s.Code(pc) && Expected(s, seeds, pc)
    requires Extended(f.heads, work, NewHeads(s, s.KindAt(pc)), work')
    requires unresolved' == if s.KindAt(pc).IndirectJump? then unresolved + [pc] else unresolved
    ensures var next := if FallsThrough(s.KindAt(pc)) then pc + 4 else s.hi;
            Good(s, seeds, Visit(s, f, pc), work', unresolved', next) && Expected(s, seeds, next)
  {
    hide IsLegal, Classify, InsideKnownBody, FallsThrough;
    VisitIsSound(s, seeds, f, pc);
    VisitIsClosed(s, seeds, f, work, pc, work');
    VisitIsListed(s, f, work, unresolved, pc, work', unresolved');
    hide Sound, ClosedBut, Listed, Visit;
  }

  lemma {:induction false} VisitIsListed(s: Section, f: Found, work: seq<int>, unresolved: seq<int>, pc: int,
                                         work': seq<int>, unresolved': seq<int>)
    requires Listed(s, f, work, unresolved) && s.Contains(pc)
    requires Extended(f.heads, work, NewHeads(s, s.KindAt(pc)), work')
    requires unresolved' == if s.KindAt(pc).IndirectJump? then unresolved + [pc] else unresolved
    ensures Listed(s, Visit(s, f, pc), work', unresolved')
  {
    hide IsLegal, Classify, InsideKnownBody;
  }

  /** The worklist after one more candidate: only a head that was not yet explored is added. */
  predicate Extended(heads: set<int>, work: seq<int>, candidate: set<int>, work': seq<int>) {
    if candidate <= heads then work' == work
    else |work'| == |work| + 1 && work'[..|work|] == work && candidate == {work'[|work|]}
  }

  /** A walk that stands on no code is over. */
  lemma {:induction false} NothingLeft(s: Section, seeds: set<int>, f: Found, work: seq<int>, unresolved: seq<int>,
                                       next: int)
    requires Good(s, seeds, f, work, unresolved, next) && !s.Code(next)
    ensures Good(s, seeds, f, work, unresolved, s.hi)
    ensures work == [] ==> Least(s, seeds, f)
  {
    forall p | p in f.reached
      ensures NextFollowed(s, f, p)
    {
    }
  }

  lemma {:induction false} TakeHead(s: Section, seeds: set<int>, f: Found, work: seq<int>, unresolved: seq<int>)
    requires work != [] && Good(s, seeds, f, work, unresolved, s.hi)
    ensures var start, rest := work[|work| - 1], work[..|work| - 1];
            Good(s, seeds, f, rest, unresolved, start) && Expected(s, seeds, start)
  {
    var start, rest := work[|work| - 1], work[..|work| - 1];
    assert work == rest + [start];
    forall g | Closed(s, seeds, g) && s.Code(start)
      ensures start in g.reached
    {
      assert f.Within(g);
    }
    forall p | p in f.reached
      ensures NextFollowed(s, f, p)
    {
    }
  }

  lemma {:induction false} AddSeed(s: Section, seeds: set<int>, f: Found, work: seq<int>, unresolved: seq<int>,
                                   v: int, work': seq<int>)
    requires Good(s, seeds, f, work, unresolved, s.hi)
    requires Extended(f.heads, work, If(s.Gate(v), v), work')
    ensures var f' := Found(f.functions + If(s.Gate(v), v), f.heads + If(s.Gate(v), v), f.reached);
            Good(s, seeds + {v}, f', work', unresolved, s.hi)
  {
    hide IsLegal, Classify, InsideKnownBody;
    var f' := Found(f.functions + If(s.Gate(v), v), f.heads + If(s.Gate(v), v), f.reached);
    forall g | Closed(s, seeds + {v}, g)
      ensures f'.Within(g)
    {
      assert Closed(s, seeds, g) && f.Within(g);
    }
    forall p | p in f.reached
      ensures TargetsFollowed(s, f', p) && (p + 4 != s.hi ==> NextFollowed(s, f', p))
    {
      assert TargetsFollowed(s, f, p) && (p + 4 != s.hi ==> NextFollowed(s, f, p));
    }
  }

  function Members(vs: seq<int>): set<int> { set v | v in vs }

  lemma {:induction false} OneMoreMember(vs: seq<int>, i: nat)
    requires i < |vs|
    ensures Members(vs[..i + 1]) == Members(vs[..i]) + {vs[i]}
  {
    assert vs[..i + 1] == vs[..i] + [vs[i]];
  }

  function Addresses(s: Section): set<int> { set v: int | s.lo <= v < s.hi && s.Contains(v) }

  lemma {:induction false} GoodLists(s: Section, seeds: set<int>, f: Found, work: seq<int>, unresolved: seq<int>,
                                     next: int)
    requires Good(s, seeds, f, work, unresolved, next)
    ensures f.heads <= Addresses(s)
    ensures forall pc :: pc in unresolved <==> pc in f.reached && s.KindAt(pc).IndirectJump?
  {
  }

  class Finder {
    const s: Section
    var functions: set<int>
    var explored: set<int>
    var reached: set<int>
    var work: seq<int>
    var unresolved: seq<int>
    ghost var seeds: set<int>

    constructor (s: Section)
      ensures this.s == s && Inv() && seeds == {} && work == []
      ensures functions == explored == reached == {}
    {
      this.s := s;
      functions, explored, reached := {}, {}, {};
      work, unresolved := [], [];
      seeds := {};
    }

    ghost function State(): Found
      reads this
    {
      Found(functions, explored, reached)
    }

    ghost predicate Walking(next: int)
      reads this
    {
      Good(s, seeds, State(), work, unresolved, next)
    }

    ghost predicate Inv()
      reads this
    {
      Walking(s.hi)
    }

    method Push(v: int)
      modifies this`explored, this`work
      ensures explored == old(explored) + If(s.Pushable(v), v)
      ensures Extended(old(explored), old(work), If(s.Pushable(v), v), work)
    {
      if s.Contains(v) && v % 4 == 0 && v !in explored {
        explored := explored + {v};
        work := work + [v];
      }
    }

    method AddFunction(v: int)
      requires functions <= explored
      modifies this`functions, this`explored, this`work
      ensures functions == old(functions) + If(s.Gate(v), v)
      ensures explored == old(explored) + If(s.Gate(v), v)
      ensures Extended(old(explored), old(work), If(s.Gate(v), v), work)
    {
      if s.Contains(v) && v % 4 == 0 && v !in functions {
        if InsideKnownBody(s.bodies, v) {
          return;
        }
        if IsLegal(s.word(v)) {
          functions := functions + {v};
          Push(v);
        }
      }
    }

    lemma {:induction false} FunctionsAreExplored()
      requires Inv()
      ensures functions <= explored
    {
    }

    /** Seeding: afterwards v counts as a seed. */
    method Seed(v: int)
      requires Inv()
      modifies this`functions, this`explored, this`work, this`seeds
      ensures Inv() && seeds == old(seeds) + {v}
      ensures functions == old(functions) + If(s.Gate(v), v)
    {
      hide Good, InsideKnownBody, IsLegal, If;
      FunctionsAreExplored();
      AddFunction(v);
      AddSeed(s, seeds, old(State()), old(work), unresolved, v, work);
      seeds := seeds + {v};
    }

    /** Seeds every known entry, in whatever order the set was traversed. */
    method SeedAll(known: seq<int>)
      requires Inv()
      modifies this`functions, this`explored, this`work, this`seeds
      ensures Inv() && seeds == old(seeds) + Members(known)
    {
      hide Good, Section.Gate, If;
      for i := 0 to |known|
        invariant Inv() && seeds == old(seeds) + Members(known[..i])
      {
        Seed(known[i]);
        OneMoreMember(known, i);
      }
      assert known[..|known|] == known;
    }

    /** Handles the instruction at pc; stop says that the path leaves it. */
    method Step(pc: int) returns (stop: bool)
      requires functions <= explored && s.Code(pc)
      modifies this`functions, this`explored, this`reached, this`work, this`unresolved
      ensures State() == Visit(s, old(State()), pc)
      ensures Extended(old(explored), old(work), NewHeads(s, s.KindAt(pc)), work)
      ensures unresolved == if s.KindAt(pc).IndirectJump? then old(unresolved) + [pc] else old(unresolved)
      ensures stop <==> !FallsThrough(s.KindAt(pc))
    {
      hide IsLegal, Classify, InsideKnownBody;
      var kind := Classify(s.word(pc), pc);
      reached := reached + {pc};
      stop := false;
      match kind {
        case Call(t) => AddFunction(t);
        case Branch(t) => Push(t);
        case UBranch(t) => Push(t); stop := true;
        case Jump(t) => Push(t); stop := true;
        case Ret => stop := true;
        case IndirectJump =>
          unresolved := unresolved + [pc];
          stop := true;
        case _ =>
      }
    }

    /** One walk from a head just taken off the worklist. */
    method Walk(start: int)
      requires Walking(start) && Expected(s, seeds, start)
      modifies this`functions, this`explored, this`reached, this`work, this`unresolved
      ensures Inv()
      ensures old(explored) <= explored
      ensures explored == old(explored) ==> work == old(work)
    {
      var pc := start;
      while s.Contains(pc)
        invariant Walking(pc) && Expected(s, seeds, pc)
        invariant old(explored) <= explored
        invariant explored == old(explored) ==> work == old(work)
        decreases s.hi - pc
      {
        var kind := Classify(s.word(pc), pc);
        if kind.Invalid? {
          break;
        }
        ghost var f, w, u := State(), work, unresolved;
        var stop := Step(pc);
        VisitIsGood(s, seeds, f, w, u, pc, work, unresolved);
        if stop {
          return;
        }
        pc := pc + 4;
      }
      NothingLeft(s, seeds, State(), work, unresolved, pc);
    }

    /** One turn of the worklist loop. */
    method WalkNext()
      requires Inv() && work != []
      modifies this`functions, this`explored, this`reached, this`work, this`unresolved
      ensures Inv() && old(explored) <= explored
      ensures explored == old(explored) ==> |work| < |old(work)|
    {
      hide Good, Expected;
      TakeHead(s, seeds, State(), work, unresolved);
      var start := work[|work| - 1];
      work := work[..|work| - 1];
      Walk(start);
    }

    lemma {:induction false} ExploredInSection()
      requires Inv()
      ensures explored <= Addresses(s)
      ensures forall pc :: pc in unresolved <==> pc in reached && s.KindAt(pc).IndirectJump?
    {
      hide Good, Addresses;
      GoodLists(s, seeds, State(), work, unresolved, s.hi);
    }

    /** Empties the worklist. It terminates because an address enters `explored` at most once. */
    method Drain()
      requires Inv()
      modifies this`functions, this`explored, this`reached, this`work, this`unresolved
      ensures Inv() && work == []
      ensures Least(s, seeds, State())
      ensures forall pc :: pc in unresolved <==> pc in reached && s.KindAt(pc).IndirectJump?
    {
      hide Good, Least, Expected, Addresses, Classify;
      while work != []
        invariant Inv()
        decreases Addresses(s) - explored, |work|
      {
        WalkNext();
        ExploredInSection();
      }
      NothingLeft(s, seeds, State(), work, unresolved, s.hi);
      ExploredInSection();
    }

    /** The gap scan: every address of the section, in steps of one word. */
    method SeedGaps() returns (gaps: seq<int>)
      requires Inv() && work == []
      modifies this`functions, this`explored, this`work, this`seeds
      ensures Inv()
      ensures forall v :: v in gaps <==> GapSeed(s, old(State()), v)
      ensures forall i, j :: 0 <= i < j < |gaps| ==> gaps[i] < gaps[j]
      ensures seeds == old(seeds) + Members(gaps)
    {
      hide IsLegal, InsideKnownBody, Prologue, Good;
      gaps := [];
      var v := s.lo;
      while v < s.hi
        invariant s.lo <= v && (v - s.lo) % 4 == 0
        invariant Inv() && reached == old(reached)
        invariant forall g :: g in gaps <==> GapSeed(s, old(State()), g) && g < v
        invariant forall i :: 0 <= i < |gaps| ==> gaps[i] < v
        invariant forall i, j :: 0 <= i < j < |gaps| ==> gaps[i] < gaps[j]
        invariant seeds == old(seeds) + Members(gaps)
        invariant old(functions) <= functions
        invariant forall g :: g in functions && g >= v ==> g in old(functions)
        decreases s.hi - v
      {
        if !(v in functions || v in reached || InsideKnownBody(s.bodies, v)) {
          var prologue := IsPrologue(s, v);
          if prologue {
            gaps := gaps + [v];
            Seed(v);
          }
        }
        v := v + 4;
      }
    }
  }

  // The tests of the gap scan on the word at v
  method IsPrologue(s: Section, v: int) returns (prologue: bool)
    ensures prologue <==> Prologue(s, v)
  {
    hide IsLegal, SavesRa;
    var w := s.word(v);
    if w / 0x1_0000 == 0x27BD && w / 0x8000 % 2 == 1 {
      var ok := FindSavedRa(s, v);
      return ok && IsLegal(w);
    }
    return false;
  }

  method FindSavedRa(s: Section, v: int) returns (ok: bool)
    ensures ok <==> SavesRa(s, v)
  {
    for k := 1 to 9
      invariant forall j :: 1 <= j < k ==> s.word(v + 4 * j) / 0x1_0000 != 0xAFBF && s.word(v + 4 * j) != 0x03E0_0008
    {
      var wk := s.word(v + 4 * k);
      if wk / 0x1_0000 == 0xAFBF {
        assert SavesRaAt(s, v, k);
        return true;
      }
      if wk == 0x03E0_0008 {
        return false;
      }
    }
    return false;
  }

  /** The whole discovery: seeds are the entry point and the known entries, in any order; the gap pass
      seeds what the first phase left over. Both phases end in the least closed triple of their seeds. */
  method Discover(s: Section, entry: int, known: seq<int>)
    returns (found: Found, first: Found, gaps: seq<int>, unresolved: seq<int>)
    ensures Least(s, {entry} + Members(known), first)
    ensures forall v :: v in gaps <==> GapSeed(s, first, v)
    ensures forall i, j :: 0 <= i < j < |gaps| ==> gaps[i] < gaps[j]
    ensures Least(s, {entry} + Members(known) + Members(gaps), found)
    ensures forall pc :: pc in unresolved <==> pc in found.reached && s.KindAt(pc).IndirectJump?
  {
    hide Good, GapSeed, Least, Classify;
    var finder := new Finder(s);
    finder.Seed(entry);
    finder.SeedAll(known);
    ghost var seeds := {entry} + Members(known);
    assert finder.seeds == seeds;
    finder.Drain();
    first := Found(finder.functions, finder.explored, finder.reached);
    gaps := finder.SeedGaps();
    assert finder.seeds == seeds + Members(gaps);
    finder.Drain();
    found := Found(finder.functions, finder.explored, finder.reached);
    unresolved := finder.unresolved;
  }

  /** Two discoveries of the same section agree, however their known entries were ordered. */
  lemma {:induction false} DiscoveryIsDeterministic(s: Section, seeds: set<int>, first: Found, gaps: set<int>,
                                                    found: Found, first': Found, gaps': set<int>, found': Found)
    requires Least(s, seeds, first) && Least(s, seeds, first')
    requires forall v :: v in gaps <==> GapSeed(s, first, v)
    requires forall v :: v in gaps' <==> GapSeed(s, first', v)
    requires Least(s, seeds + gaps, found) && Least(s, seeds + gaps', found')
    ensures first == first' && gaps == gaps' && found == found'
    ensures first.Within(found)
  {
    hide GapSeed;
    LeastIsUnique(s, seeds, first, first');
    assert forall v :: v in gaps <==> v in gaps';
    LeastIsUnique(s, seeds + gaps, found, found');
    LeastIsMonotone(s, seeds, seeds + gaps, first, found);
  }
}

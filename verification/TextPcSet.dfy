/** src/main/diagnostics.cpp: the lock-free open-addressing set of text-drawing PCs, shared by all game
    threads. Every atomic access is one step of a state machine; the runs are all interleavings of the
    steps of any number of threads.

    All accesses are relaxed. A slot changes once, from 0 to a PC, so what a thread knows of the table is
    its view: the slots it has seen occupied. A load of a slot in the view returns the PC; a load of any
    other slot returns the current value or a stale 0. Synchronisation between threads merges views. */
module TextPcSet {

  const N := 512

  type Tid = nat

  function Home(pc: int): (h: int)
    ensures 0 <= h < N
  {
    pc * 2654435761 % 0x1_0000_0000 % N
  }

  lemma {:induction false} Modulo(x: int, a: int, d: int, k: int)
    requires d == N && x == a + k * d && 0 <= a < d
    ensures x % d == a && x / d == k
  {
  }

  // Only the low nine bits count; 433 is the multiplier modulo 512, and 337 its inverse.
  lemma {:induction false} LowBits(p: nat)
    ensures Home(p) == p % N * 433 % N
    ensures Home(p) * 337 % N == p % N
  {
    var x, r, a := p * 2654435761, p % N, p / N;
    var high, low := x / 0x1_0000_0000, x % 0x1_0000_0000;
    var t, h := r * 433 / N, r * 433 % N;
    assert p == N * a + r && x == 433 * p + N * (5184444 * p);
    assert low == h + (t + 433 * a + 5184444 * p - 0x80_0000 * high) * N;
    Modulo(low, h, N, t + 433 * a + 5184444 * p - 0x80_0000 * high);
    Modulo(h * 337, r, N, 285 * r - 337 * t);
  }

  /** PCs that differ in their low nine bits have different homes. Those of instructions are multiples of
      four, and so are their homes: they start their search at one of 128 slots. */
  lemma {:induction false} HomesDiffer(p: nat, q: nat)
    ensures Home(p) == Home(q) <==> p % N == q % N
    ensures p % 4 == 0 ==> Home(p) % 4 == 0
  {
    hide Home;
    SameLowBits(p, q);
    SameLowBits(q, p);
    LowBits(p);
    if p % 4 == 0 { StaysAligned(p); }
  }

  lemma {:induction false} SameLowBits(p: nat, q: nat)
    ensures Home(p) == Home(q) ==> p % N == q % N
    ensures p % N == q % N ==> Home(p) == Home(q)
  {
    LowBits(p);
    LowBits(q);
    hide Home;
  }

  lemma {:induction false} StaysAligned(p: nat)
    requires p % 4 == 0
    ensures p % N * 433 % N % 4 == 0
  {
    var r, k := p % N, p / 4 - 128 * (p / N);
    var t, h := r * 433 / N, r * 433 % N;
    assert r == 4 * k by { assert p == 4 * (p / 4) && p == N * (p / N) + r; }
    assert h == 4 * (433 * k - 128 * t) by { assert r * 433 == N * t + h; }
    Fourfold(h, 433 * k - 128 * t);
  }

  lemma {:induction false} Fourfold(x: int, k: int)
    requires x == 4 * k
    ensures x % 4 == 0
  {
  }

  /** The i-th slot probed for pc. */
  function Slot(pc: int, i: nat): (x: int)
    ensures 0 <= x < N
  {
    (Home(pc) + i) % N
  }

  /** The slots probed for pc up to and including number k are all in view. */
  ghost predicate PathIn(pc: int, k: nat, view: set<int>) {
    forall i: nat :: i <= k ==> Slot(pc, i) in view
  }

  datatype Op =
    | Idle
    | Adding(pc: int, i: nat)                    // about to load slot i
    | Claiming(pc: int, i: nat)                  // saw 0, about to compare and exchange
    | Rereading(pc: int, i: nat)                 // lost the exchange, about to load again
    | Looking(pc: int, i: nat, since: set<int>)  // about to load slot i; since: the view at the call

  datatype Thread = Thread(view: set<int>, op: Op)

  // One finished call of textpc_contains
  datatype Lookup = Lookup(pc: int, found: bool, since: set<int>)

  /** The table and the threads, and a record of the calls: PCs passed to textpc_add, finished adds with
      the view of their thread, adds that ran out of slots, and finished lookups in their order. */
  datatype State = State(slots: seq<int>, threads: seq<Thread>, started: set<int>,
                         added: set<(int, set<int>)>, dropped: set<int>, lookups: seq<Lookup>)

  datatype Action =
    | StartAdd(t: Tid, pc: int)
    | StartLook(t: Tid, pc: int)
    | Load(t: Tid, stale: bool)
    | Exchange(t: Tid)
    | Reread(t: Tid)
    | GiveUp(t: Tid)
    | Sync(t: Tid, from: Tid)

  predicate Init(s: State) {
    && s.slots == seq(N, i => 0)
    && (forall t :: 0 <= t < |s.threads| ==> s.threads[t] == Thread({}, Idle))
    && s.started == {} && s.added == {} && s.dropped == {} && s.lookups == []
  }

  predicate Enabled(s: State, a: Action) {
    && |s.slots| == N && a.t < |s.threads|
    && var th := s.threads[a.t];
       match a
       case StartAdd(_, pc) => th.op.Idle? && 0 < pc < 0x1_0000_0000
       case StartLook(_, pc) => th.op.Idle? && 0 < pc < 0x1_0000_0000
       case Load(_, stale) =>
         && (th.op.Adding? || th.op.Looking?) && th.op.i < N
         && (stale ==> Slot(th.op.pc, th.op.i) !in th.view)
       case Exchange(_) => th.op.Claiming?
       case Reread(_) => th.op.Rereading?
       case GiveUp(_) => (th.op.Adding? || th.op.Looking?) && th.op.i == N
       case Sync(_, from) => from < |s.threads|
  }

  function Set(s: State, t: Tid, view: set<int>, op: Op): State
    requires t < |s.threads|
  {
    s.(threads := s.threads[t := Thread(view, op)])
  }

  function FinishAdd(s: State, t: Tid, view: set<int>, pc: int): State
    requires t < |s.threads|
  {
    Set(s, t, view, Idle).(added := s.added + {(pc, view)})
  }

  function FinishLook(s: State, t: Tid, view: set<int>, pc: int, since: set<int>, found: bool): State
    requires t < |s.threads|
  {
    Set(s, t, view, Idle).(lookups := s.lookups + [Lookup(pc, found, since)])
  }

  function Do(s: State, a: Action): State
    requires Enabled(s, a)
  {
    var t := a.t;
    var th := s.threads[t];
    match a
    case StartAdd(_, pc) => Set(s, t, th.view, Adding(pc, 0)).(started := s.started + {pc})
    case StartLook(_, pc) => Set(s, t, th.view, Looking(pc, 0, th.view))
    case Load(_, stale) =>
      var x := Slot(th.op.pc, th.op.i);
      var v := if stale then 0 else s.slots[x];
      var view := if v == 0 then th.view else th.view + {x};
      (match th.op
       case Adding(pc, i) =>
         if v == pc then FinishAdd(s, t, view, pc)
         else if v == 0 then Set(s, t, view, Claiming(pc, i))
         else Set(s, t, view, Adding(pc, i + 1))
       case Looking(pc, i, since) =>
         if v == pc then FinishLook(s, t, view, pc, since, true)
         else if v == 0 then FinishLook(s, t, view, pc, since, false)
         else Set(s, t, view, Looking(pc, i + 1, since)))
    case Exchange(_) =>
      var x := Slot(th.op.pc, th.op.i);
      if s.slots[x] == 0
      then FinishAdd(s.(slots := s.slots[x := th.op.pc]), t, th.view + {x}, th.op.pc)
      else Set(s, t, th.view + {x}, Rereading(th.op.pc, th.op.i))
    case Reread(_) =>
      // the slot is in the view: the failed exchange read it
      if s.slots[Slot(th.op.pc, th.op.i)] == th.op.pc
      then FinishAdd(s, t, th.view, th.op.pc)
      else Set(s, t, th.view, Adding(th.op.pc, th.op.i + 1))
    case GiveUp(_) =>
      (match th.op
       case Adding(pc, _) => Set(s, t, th.view, Idle).(dropped := s.dropped + {pc})
       case Looking(pc, _, since) => FinishLook(s, t, th.view, pc, since, false))
    case Sync(_, from) => Set(s, t, th.view + s.threads[from].view, th.op)
  }

  /** s' is reached from s by the actions, each enabled when its turn comes. */
  ghost predicate Reaches(s: State, actions: seq<Action>, s': State)
    decreases actions
  {
    if actions == [] then s == s'
    else Enabled(s, actions[0]) && Reaches(Do(s, actions[0]), actions[1..], s')
  }

  // ---- The invariant ----------------------------------------------------------------

  function Occupied(slots: seq<int>): set<int> { set x | 0 <= x < |slots| && slots[x] != 0 }

  ghost predicate Distinct(slots: seq<int>) {
    forall x, y :: 0 <= x < y < |slots| && slots[x] != 0 ==> slots[x] != slots[y]
  }

  ghost predicate At(slots: seq<int>, pc: int, k: nat)
    requires |slots| == N
  {
    k < N && slots[Slot(pc, k)] == pc
  }

  /** Every slot probed before the one that holds pc is occupied. */
  ghost predicate PrefixesFull(slots: seq<int>)
    requires |slots| == N
  {
    forall pc, k :: pc != 0 && At(slots, pc, k) ==> PathIn(pc, k, Occupied(slots))
  }

  // The probes before number i were occupied by other PCs, as the thread saw.
  ghost predicate Passed(slots: seq<int>, view: set<int>, pc: int, i: nat)
    requires |slots| == N
  {
    forall j: nat :: j < i ==> Slot(pc, j) in view && slots[Slot(pc, j)] != pc
  }

  ghost predicate ThreadInv(slots: seq<int>, started: set<int>, th: Thread)
    requires |slots| == N
  {
    && th.view <= Occupied(slots)
    && match th.op
       case Idle => true
       case Adding(pc, i) => pc != 0 && pc in started && i <= N && Passed(slots, th.view, pc, i)
       case Claiming(pc, i) => pc != 0 && pc in started && i < N && Passed(slots, th.view, pc, i)
       case Rereading(pc, i) =>
         pc != 0 && pc in started && i < N && Passed(slots, th.view, pc, i) && Slot(pc, i) in th.view
       case Looking(pc, i, since) =>
         pc != 0 && i <= N && Passed(slots, th.view, pc, i) && since <= th.view
  }

  /** A finished add knows the whole path to the slot of its PC. */
  ghost predicate AddInv(slots: seq<int>, pc: int, seen: set<int>)
    requires |slots| == N
  {
    pc != 0 && seen <= Occupied(slots) && exists k :: At(slots, pc, k) && PathIn(pc, k, seen)
  }

  ghost predicate LookupInv(slots: seq<int>, started: set<int>, l: Lookup)
    requires |slots| == N
  {
    && l.pc != 0 && l.since <= Occupied(slots)
    && (l.found ==> l.pc in started)
    && (!l.found ==> forall k :: At(slots, l.pc, k) ==> !PathIn(l.pc, k, l.since))
  }

  ghost predicate DropInv(slots: seq<int>, started: set<int>, pc: int)
    requires |slots| == N
  {
    pc in started && 0 !in slots && pc !in slots
  }

  ghost predicate TableInv(slots: seq<int>, started: set<int>) {
    && |slots| == N
    && Distinct(slots) && PrefixesFull(slots)
    && (forall x :: x in Occupied(slots) ==> slots[x] in started)
  }

  ghost predicate Inv(s: State) {
    && TableInv(s.slots, s.started)
    && (forall t :: 0 <= t < |s.threads| ==> ThreadInv(s.slots, s.started, s.threads[t]))
    && (forall p :: p in s.added ==> AddInv(s.slots, p.0, p.1))
    && (forall pc :: pc in s.dropped ==> DropInv(s.slots, s.started, pc))
    && (forall l :: l in s.lookups ==> LookupInv(s.slots, s.started, l))
  }

  // ---- Every step keeps it ------------------------------------------------------------

  lemma {:induction false} InitHolds(s: State)
    requires Init(s)
    ensures Inv(s)
  {
  }

  /** Steps that leave the table alone and move one thread. */
  lemma {:induction false} SameTable(s: State, s': State, t: Tid)
    requires Inv(s) && t < |s.threads| && s'.slots == s.slots && s.started <= s'.started
    requires |s'.threads| == |s.threads| && forall u :: 0 <= u < |s.threads| && u != t ==> s'.threads[u] == s.threads[u]
    requires ThreadInv(s.slots, s'.started, s'.threads[t])
    requires forall p :: p in s'.added ==> p in s.added || AddInv(s.slots, p.0, p.1)
    requires forall pc :: pc in s'.dropped ==> pc in s.dropped || DropInv(s.slots, s'.started, pc)
    requires forall l :: l in s'.lookups ==> l in s.lookups || LookupInv(s.slots, s'.started, l)
    ensures Inv(s')
  {
    forall u | 0 <= u < |s'.threads|
      ensures ThreadInv(s'.slots, s'.started, s'.threads[u])
    {
      assert ThreadInv(s.slots, s.started, s.threads[u]);
    }
    forall l | l in s'.lookups
      ensures LookupInv(s'.slots, s'.started, l)
    {
      assert l in s.lookups ==> LookupInv(s.slots, s.started, l);
    }
  }

  lemma {:induction false} SlotsCoverTable(pc: int, x: int)
    requires 0 <= x < N
    ensures exists i: nat :: i < N && Slot(pc, i) == x
  {
    var i := (x - Home(pc)) % N;
    assert Slot(pc, i) == x;
  }

  /** A probe that has passed i slots and finds the i-th empty meets pc nowhere. */
  lemma {:induction false} NowhereElse(slots: seq<int>, started: set<int>, view: set<int>, pc: int, i: nat)
    requires TableInv(slots, started) && pc != 0 && i < N && Passed(slots, view, pc, i) && slots[Slot(pc, i)] == 0
    ensures pc !in slots
  {
    forall x | 0 <= x < N
      ensures slots[x] != pc
    {
      SlotsCoverTable(pc, x);
      var k: nat :| k < N && Slot(pc, k) == x;
      assert At(slots, pc, k) ==> PathIn(pc, k, Occupied(slots));
      assert i <= k && PathIn(pc, k, Occupied(slots)) ==> Slot(pc, i) in Occupied(slots);
    }
  }

  /** A probe that has passed all N slots: the table is full and does not hold pc. */
  lemma {:induction false} AllPassed(slots: seq<int>, view: set<int>, pc: int)
    requires |slots| == N && Passed(slots, view, pc, N) && view <= Occupied(slots)
    ensures 0 !in slots && pc !in slots
  {
    forall x | 0 <= x < N
      ensures slots[x] != 0 && slots[x] != pc
    {
      SlotsCoverTable(pc, x);
      var k: nat :| k < N && Slot(pc, k) == x;
      assert Slot(pc, k) in view;
    }
  }

  lemma {:induction false} LoadKeeps(s: State, a: Action)
    requires Inv(s) && Enabled(s, a) && a.Load?
    ensures Inv(Do(s, a))
  {
    hide Slot;
    var th, s' := s.threads[a.t], Do(s, a);
    assert ThreadInv(s.slots, s.started, th);
    var pc, i := th.op.pc, th.op.i;
    var x := Slot(pc, i);
    var v := if a.stale then 0 else s.slots[x];
    if v == pc {
      assert At(s.slots, pc, i);
      if th.op.Adding? {
        assert PathIn(pc, i, th.view + {x});
      } else {
        assert x in Occupied(s.slots) && pc in s.started;
      }
    } else if v == 0 && th.op.Looking? {
      forall k | At(s.slots, pc, k)
        ensures !PathIn(pc, k, th.op.since)
      {
        assert PathIn(pc, k, Occupied(s.slots));
        assert k >= i;
        assert x !in th.op.since;
      }
    }
    SameTable(s, s', a.t);
  }

  lemma {:induction false} ClaimKeepsTable(slots: seq<int>, started: set<int>, pc: int, i: nat, view: set<int>)
    requires TableInv(slots, started) && pc != 0 && pc in started && i < N
    requires view <= Occupied(slots) && Passed(slots, view, pc, i) && slots[Slot(pc, i)] == 0
    ensures var slots' := slots[Slot(pc, i) := pc];
            && TableInv(slots', started) && pc !in slots
            && Occupied(slots') == Occupied(slots) + {Slot(pc, i)}
            && PathIn(pc, i, view + {Slot(pc, i)})
  {
    hide Slot;
    NowhereElse(slots, started, view, pc, i);
    var x := Slot(pc, i);
    var slots' := slots[x := pc];
    assert Occupied(slots') == Occupied(slots) + {x};
    forall q, k: nat | q != 0 && At(slots', q, k)
      ensures PathIn(q, k, Occupied(slots'))
    {
      if q == pc {
        assert Slot(q, k) == x;
        if k > i { SameSlot(pc, i, k); }
        if k < i { SameSlot(pc, k, i); }
      } else {
        assert At(slots, q, k);
      }
    }
  }

  lemma {:induction false} SameSlot(pc: int, i: nat, k: nat)
    requires i < k < N
    ensures Slot(pc, i) != Slot(pc, k)
  {
  }

  /** What the other threads and the records say survives a claim: it only fills an empty slot. */
  lemma {:induction false} ClaimKeepsRest(s: State, x: int, pc: int)
    requires Inv(s) && 0 <= x < N && s.slots[x] == 0 && pc != 0
    ensures var slots' := s.slots[x := pc];
            && (forall u :: 0 <= u < |s.threads| ==> ThreadInv(slots', s.started, s.threads[u]))
            && (forall p :: p in s.added ==> AddInv(slots', p.0, p.1))
            && (forall q :: q in s.dropped ==> DropInv(slots', s.started, q))
            && (forall l :: l in s.lookups ==> LookupInv(slots', s.started, l))
  {
    hide Slot;
    var slots' := s.slots[x := pc];
    assert Occupied(s.slots) <= Occupied(slots');
    forall u | 0 <= u < |s.threads|
      ensures ThreadInv(slots', s.started, s.threads[u])
    {
      assert ThreadInv(s.slots, s.started, s.threads[u]);
    }
    forall p | p in s.added
      ensures AddInv(slots', p.0, p.1)
    {
      assert AddInv(s.slots, p.0, p.1);
      var k :| At(s.slots, p.0, k) && PathIn(p.0, k, p.1);
      assert At(slots', p.0, k);
    }
    forall q
      ensures q !in s.dropped
    {
      assert q in s.dropped ==> DropInv(s.slots, s.started, q);
      assert s.slots[x] in s.slots;
    }
    forall l | l in s.lookups
      ensures LookupInv(slots', s.started, l)
    {
      assert LookupInv(s.slots, s.started, l);
      forall k | !l.found && At(slots', l.pc, k)
        ensures !PathIn(l.pc, k, l.since)
      {
        if Slot(l.pc, k) == x {
          assert x !in l.since;
        } else {
          assert At(s.slots, l.pc, k);
        }
      }
    }
  }

  lemma {:induction false} ExchangeKeeps(s: State, a: Action)
    requires Inv(s) && Enabled(s, a) && a.Exchange?
    ensures Inv(Do(s, a))
  {
    hide Slot;
    var th, s' := s.threads[a.t], Do(s, a);
    assert ThreadInv(s.slots, s.started, th);
    var pc, i := th.op.pc, th.op.i;
    var x := Slot(pc, i);
    if s.slots[x] == 0 {
      ClaimKeepsTable(s.slots, s.started, pc, i, th.view);
      ClaimKeepsRest(s, x, pc);
      var mid := s.(slots := s.slots[x := pc]);
      assert Inv(mid);
      assert At(mid.slots, pc, i) && PathIn(pc, i, th.view + {x});
      SameTable(mid, s', a.t);
    } else {
      SameTable(s, s', a.t);
    }
  }

  lemma {:induction false} OtherStepsKeep(s: State, a: Action)
    requires Inv(s) && Enabled(s, a) && !a.Load? && !a.Exchange?
    ensures Inv(Do(s, a))
  {
    hide Slot;
    var th, s' := s.threads[a.t], Do(s, a);
    assert ThreadInv(s.slots, s.started, th);
    match a {
      case Reread(_) =>
        var pc, i := th.op.pc, th.op.i;
        if s.slots[Slot(pc, i)] == pc {
          assert At(s.slots, pc, i) && PathIn(pc, i, th.view);
        }
      case GiveUp(_) =>
        AllPassed(s.slots, th.view, th.op.pc);
      case Sync(_, from) =>
        assert ThreadInv(s.slots, s.started, s.threads[from]);
      case _ =>
    }
    SameTable(s, s', a.t);
  }

  lemma {:induction false} RunKeeps(s: State, actions: seq<Action>, s': State)
    requires Inv(s) && Reaches(s, actions, s')
    ensures Inv(s')
    decreases actions
  {
    if actions != [] {
      var a := actions[0];
      if a.Load? { LoadKeeps(s, a); } else if a.Exchange? { ExchangeKeeps(s, a); } else { OtherStepsKeep(s, a); }
      RunKeeps(Do(s, a), actions[1..], s');
    }
  }

  // ---- What holds in every run ----------------------------------------------------------

  /** Safety, over all interleavings: a PC is in at most one slot, every slot probed before it is
      occupied, and a slot only ever holds a PC that was passed to textpc_add. */
  lemma {:induction false} TableIsSound(s: State, actions: seq<Action>, s': State)
    requires Init(s) && Reaches(s, actions, s')
    ensures |s'.slots| == N && Distinct(s'.slots)
    ensures forall x :: 0 <= x < N && s'.slots[x] != 0 ==> s'.slots[x] in s'.started
    ensures forall pc, k :: pc != 0 && At(s'.slots, pc, k) ==> PathIn(pc, k, Occupied(s'.slots))
  {
    InitHolds(s);
    RunKeeps(s, actions, s');
  }

  /** A slot never changes once it is occupied. */
  lemma {:induction false} SlotsAreFrozen(s: State, actions: seq<Action>, s': State, x: int)
    requires |s.slots| == N && Reaches(s, actions, s') && 0 <= x < N && s.slots[x] != 0
    ensures |s'.slots| == N && s'.slots[x] == s.slots[x]
    decreases actions
  {
    if actions != [] { SlotsAreFrozen(Do(s, actions[0]), actions[1..], s', x); }
  }

  /** No lookup finds a PC that nobody added. */
  lemma {:induction false} NoPhantoms(s: State, actions: seq<Action>, s': State, l: Lookup)
    requires Init(s) && Reaches(s, actions, s') && l in s'.lookups && l.found
    ensures l.pc in s'.started
  {
    InitHolds(s);
    RunKeeps(s, actions, s');
  }

  /** An add is dropped only when more PCs were added than the table has slots. */
  lemma {:induction false} DropsNeedOverflow(s: State, actions: seq<Action>, s': State)
    requires Init(s) && Reaches(s, actions, s') && |s'.started| <= N
    ensures s'.dropped == {}
  {
    InitHolds(s);
    RunKeeps(s, actions, s');
    forall pc
      ensures pc !in s'.dropped
    {
      assert pc in s'.dropped ==> DropInv(s'.slots, s'.started, pc);
      if DropInv(s'.slots, s'.started, pc) {
        assert forall x :: 0 <= x < N ==> s'.slots[x] in s'.slots;
        DistinctCount(s'.slots, s'.started - {pc});
      }
    }
  }

  lemma {:induction false} DistinctCount(slots: seq<int>, started: set<int>)
    requires Distinct(slots) && forall x :: 0 <= x < |slots| ==> slots[x] != 0 && slots[x] in started
    ensures |slots| <= |started|
  {
    if slots != [] {
      var last := slots[|slots| - 1];
      DistinctCount(slots[..|slots| - 1], started - {last});
    }
  }

  // ---- A PC that was added is found: without stale loads ----------------------------------

  // Every load returns the current value, as on a coherent machine.
  predicate Current(actions: seq<Action>) { forall i :: 0 <= i < |actions| ==> IsCurrent(actions[i]) }

  predicate IsCurrent(a: Action) { a.Load? ==> !a.stale }

  /** The lookups of pc that end after the first n ones find it. */
  predicate FoundSince(s: State, n: nat, pc: int) {
    n <= |s.lookups| && forall i :: n <= i < |s.lookups| && s.lookups[i].pc == pc ==> s.lookups[i].found
  }

  /** Once a PC is in the table every lookup of it that ends later finds it, in every interleaving, even one
      that began before. */
  lemma {:induction false} InTableIsFound(s: State, actions: seq<Action>, s': State, pc: int, k: nat)
    requires Inv(s) && Reaches(s, actions, s') && Current(actions) && pc != 0 && At(s.slots, pc, k)
    ensures FoundSince(s', |s.lookups|, pc)
    decreases actions
  {
    if actions != [] {
      var a := actions[0];
      var m := Do(s, a);
      assert IsCurrent(a);
      StepFinds(s, a, pc, k);
      assert Reaches(m, [], m);
      assert [a][1..] == [] && Reaches(s, [a], m);
      RunKeeps(s, [a], m);
      SlotsAreFrozen(s, [a], m, Slot(pc, k));
      assert Current(actions[1..]);
      InTableIsFound(m, actions[1..], s', pc, k);
      LookupsStay(m, actions[1..], s');
    }
  }

  lemma {:induction false} StepFinds(s: State, a: Action, pc: int, k: nat)
    requires Inv(s) && Enabled(s, a) && IsCurrent(a) && pc != 0 && At(s.slots, pc, k)
    ensures FoundSince(Do(s, a), |s.lookups|, pc)
  {
    hide Slot;
    var th := s.threads[a.t];
    assert ThreadInv(s.slots, s.started, th);
    if th.op.Looking? && th.op.pc == pc {
      NotPassed(s.slots, th.view, pc, th.op.i, k);
      assert Slot(pc, th.op.i) in Occupied(s.slots);
    }
  }

  lemma {:induction false} NotPassed(slots: seq<int>, view: set<int>, pc: int, i: nat, k: nat)
    requires |slots| == N && Passed(slots, view, pc, i) && At(slots, pc, k)
    ensures i <= k
  {
  }

  lemma {:induction false} LookupsStay(s: State, actions: seq<Action>, s': State)
    requires Reaches(s, actions, s')
    ensures s.lookups <= s'.lookups
    decreases actions
  {
    if actions != [] { LookupsStay(Do(s, actions[0]), actions[1..], s'); }
  }

  /** Set membership on a coherent machine: after an add has finished, by whichever thread, every lookup of
      its PC that ends finds it as long as no load is stale. */
  lemma {:induction false} AddedIsFound(s0: State, before: seq<Action>, s: State, after: seq<Action>, s': State,
                                        pc: int, seen: set<int>)
    requires Init(s0) && Reaches(s0, before, s) && (pc, seen) in s.added
    requires Reaches(s, after, s') && Current(after)
    ensures FoundSince(s', |s.lookups|, pc)
  {
    InitHolds(s0);
    RunKeeps(s0, before, s);
    assert AddInv(s.slots, pc, seen);
    var k :| At(s.slots, pc, k) && PathIn(pc, k, seen);
    InTableIsFound(s, after, s', pc, k);
  }

  // ---- What stale loads change --------------------------------------------------------------

  /** With stale loads a lookup still finds every PC in the table whose whole probe path its caller had seen
      occupied when it began. */
  lemma {:induction false} SeesAlongPath(s: State, actions: seq<Action>, s': State, l: Lookup, k: nat)
    requires Init(s) && Reaches(s, actions, s') && l in s'.lookups
    requires |s'.slots| == N && At(s'.slots, l.pc, k) && PathIn(l.pc, k, l.since)
    ensures l.found
  {
    InitHolds(s);
    RunKeeps(s, actions, s');
    assert LookupInv(s'.slots, s'.started, l);
  }

  /** A finished add is found by every lookup whose caller's view contains what the adding thread had seen
      (because it is the same thread, or the two synchronised in between). */
  lemma {:induction false} NoMisses(s: State, actions: seq<Action>, s': State, pc: int, seen: set<int>, l: Lookup)
    requires Init(s) && Reaches(s, actions, s')
    requires (pc, seen) in s'.added && l in s'.lookups && l.pc == pc && seen <= l.since
    ensures l.found
  {
    InitHolds(s);
    RunKeeps(s, actions, s');
    assert AddInv(s'.slots, pc, seen);
    var k :| At(s'.slots, pc, k) && PathIn(pc, k, seen);
    SeesAlongPath(s, actions, s', l, k);
  }

  lemma {:induction false} LookOn(s: State, t: Tid, pc: int, j: nat, k: nat, since: set<int>)
    returns (actions: seq<Action>, s': State)
    requires Inv(s) && t < |s.threads| && s.threads[t] == Thread(since, Looking(pc, j, since))
    requires pc != 0 && At(s.slots, pc, k) && j <= k && !PathIn(pc, k, since)
    requires forall i: nat :: i < j ==> Slot(pc, i) in since
    ensures Reaches(s, actions, s') && s'.lookups == s.lookups + [Lookup(pc, false, since)]
    decreases k - j
  {
    var x := Slot(pc, j);
    assert ThreadInv(s.slots, s.started, s.threads[t]);
    var a := Load(t, x !in since);
    LoadKeeps(s, a);
    if x !in since {
      actions, s' := [a], Do(s, a);
      assert Reaches(s', [], s');
    } else {
      if j < k { SameSlot(pc, j, k); }
      assert since + {x} == since;
      var rest;
      rest, s' := LookOn(Do(s, a), t, pc, j + 1, k, since);
      actions := [a] + rest;
    }
  }

  lemma {:induction false} ReachesOn(s: State, first: seq<Action>, m: State, more: seq<Action>, s': State)
    requires Reaches(s, first, m) && Reaches(m, more, s')
    ensures Reaches(s, first + more, s')
    decreases first
  {
    if first == [] {
      assert first + more == more;
    } else {
      ReachesOn(Do(s, first[0]), first[1..], m, more, s');
      assert (first + more)[1..] == first[1..] + more;
    }
  }

  /** The other half of SeesAlongPath: whenever a run has led to a state in which a PC is in the table and an
      idle thread has not seen its whole path, the run can go on so that this thread misses the PC. */
  lemma {:induction false} MissWithoutView(s0: State, before: seq<Action>, s: State, t: Tid, pc: int, k: nat)
    returns (actions: seq<Action>, s': State)
    requires Init(s0) && Reaches(s0, before, s) && t < |s.threads| && s.threads[t].op.Idle?
    requires 0 < pc < 0x1_0000_0000 && |s.slots| == N && At(s.slots, pc, k) && !PathIn(pc, k, s.threads[t].view)
    ensures Reaches(s0, before + actions, s')
    ensures s'.lookups == s.lookups + [Lookup(pc, false, s.threads[t].view)]
  {
    InitHolds(s0);
    RunKeeps(s0, before, s);
    var a := StartLook(t, pc);
    OtherStepsKeep(s, a);
    var rest;
    rest, s' := LookOn(Do(s, a), t, pc, 0, k, s.threads[t].view);
    actions := [a] + rest;
    assert Reaches(s, actions, s');
    ReachesOn(s0, before, s, actions, s');
  }

  // Two threads, before any call
  function TwoThreads(): State {
    State(seq(N, i => 0), [Thread({}, Idle), Thread({}, Idle)], {}, {}, {}, [])
  }

  // Thread 0 has added PC 1.
  function OneAdded(): State {
    var x := Slot(1, 0);
    State(seq(N, i => 0)[x := 1], [Thread({x}, Idle), Thread({}, Idle)], {1}, {(1, {x})}, {}, [])
  }

  lemma {:induction false} AddOne()
    ensures Init(TwoThreads())
    ensures Reaches(TwoThreads(), [StartAdd(0, 1), Load(0, false), Exchange(0)], OneAdded())
  {
    hide Slot;
    var s0 := TwoThreads();
    var s1 := Do(s0, StartAdd(0, 1));
    assert s1 == s0.(threads := [Thread({}, Adding(1, 0)), Thread({}, Idle)], started := {1});
    var s2 := Do(s1, Load(0, false));
    assert s2 == s1.(threads := [Thread({}, Claiming(1, 0)), Thread({}, Idle)]);
    var x := Slot(1, 0);
    var view := s2.threads[0].view + {x};
    assert view == {x} && s2.slots == seq(N, i => 0);
    assert Do(s2, Exchange(0)) == OneAdded();
    hide Do;
    assert Reaches(OneAdded(), [], OneAdded());
    Prepend(s2, Exchange(0), [], OneAdded());
    Prepend(s1, Load(0, false), [Exchange(0)], OneAdded());
    Prepend(s0, StartAdd(0, 1), [Load(0, false), Exchange(0)], OneAdded());
    assert [StartAdd(0, 1)] + ([Load(0, false)] + ([Exchange(0)] + []))
        == [StartAdd(0, 1), Load(0, false), Exchange(0)];
  }

  // Thread 1 has missed it.
  function OneMissed(): State {
    OneAdded().(lookups := [Lookup(1, false, {})])
  }

  lemma {:induction false} MissOne()
    ensures Reaches(OneAdded(), [StartLook(1, 1), Load(1, true)], OneMissed())
  {
    hide Slot;
    var s3 := OneAdded();
    var s4 := Do(s3, StartLook(1, 1));
    assert s4 == s3.(threads := [s3.threads[0], Thread({}, Looking(1, 0, {}))]);
    assert Do(s4, Load(1, true)) == OneMissed();
    hide Do;
    assert Reaches(OneMissed(), [], OneMissed());
    Prepend(s4, Load(1, true), [], OneMissed());
    Prepend(s3, StartLook(1, 1), [Load(1, true)], OneMissed());
    assert [StartLook(1, 1)] + ([Load(1, true)] + []) == [StartLook(1, 1), Load(1, true)];
  }

  /** Such a run: thread 0 finishes an add of PC 1, then thread 1 looks for it, reads a stale 0, and misses. */
  lemma {:induction false} MissAfterAdd()
    ensures Init(TwoThreads()) && Reaches(TwoThreads(), [StartAdd(0, 1), Load(0, false), Exchange(0)], OneAdded())
    ensures Reaches(TwoThreads(), [StartAdd(0, 1), Load(0, false), Exchange(0), StartLook(1, 1), Load(1, true)],
                    OneMissed())
    ensures (1, {Slot(1, 0)}) in OneAdded().added && OneMissed().lookups == [Lookup(1, false, {})]
  {
    AddOne();
    MissOne();
    hide Reaches, Do, Init, Slot;
    var add := [StartAdd(0, 1), Load(0, false), Exchange(0)];
    var miss := [StartLook(1, 1), Load(1, true)];
    ReachesOn(TwoThreads(), add, OneAdded(), miss, OneMissed());
    assert add + miss == [StartAdd(0, 1), Load(0, false), Exchange(0), StartLook(1, 1), Load(1, true)];
  }

  lemma {:induction false} Prepend(s: State, a: Action, rest: seq<Action>, s': State)
    requires Enabled(s, a) && Reaches(Do(s, a), rest, s')
    ensures Reaches(s, [a] + rest, s')
  {
    assert ([a] + rest)[1..] == rest;
  }
}

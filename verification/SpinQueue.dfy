/**
 * The `SpinQueue` lock as a transition system: any number of threads, every interleaving of the
 * atomic operations of `lock` and `unlock`.
 */
module SpinQueue {
  import opened Arith

  datatype Phase = Idle | Waiting(ticket: nat) | Holding

  datatype State = State(data: nat, phases: seq<Phase>)

  /** One atomic operation of one thread. */
  datatype Action =
    | Arrive(thread: nat)
    | Load(thread: nat)
    | Unlock(thread: nat)

  /** Fewer threads than the counter has values. */
  predicate Sized(s: State) {
    |s.phases| < B64
  }

  predicate Initial(s: State) {
    Sized(s) && s.data == 0 && forall i :: 0 <= i < |s.phases| ==> s.phases[i] == Idle
  }

  predicate Enabled(s: State, a: Action) {
    a.thread < |s.phases| &&
    match a
    case Arrive(i) => s.phases[i] == Idle
    case Load(i) => s.phases[i].Waiting?
    case Unlock(i) => s.phases[i] == Holding
  }

  function Next(s: State, a: Action): State
    requires Enabled(s, a)
  {
    match a
    case Arrive(i) =>
      State(U64(s.data + 1), s.phases[i := if s.data == 0 then Holding else Waiting(s.data)])
    case Load(i) =>
      if s.data == s.phases[i].ticket then s.(phases := s.phases[i := Holding]) else s
    case Unlock(i) => State(U64(s.data - 1), s.phases[i := Idle])
  }

  predicate Waits(s: State, i: int, t: int) {
    0 <= i < |s.phases| && s.phases[i].Waiting? && s.phases[i].ticket == t
  }

  predicate Holds(s: State, i: int) {
    0 <= i < |s.phases| && s.phases[i] == Holding
  }

  ghost predicate Taken(s: State, t: int) {
    exists i :: Waits(s, i, t)
  }

  /** The waiting threads have exactly the tickets 1..top, each once. */
  ghost predicate TicketsAre(s: State, top: int) {
    && (forall i :: 0 <= i < |s.phases| && s.phases[i].Waiting? ==> 1 <= s.phases[i].ticket <= top)
    && (forall i, j, t :: Waits(s, i, t) && Waits(s, j, t) ==> i == j)
    && (forall t :: 1 <= t <= top ==> Taken(s, t))
  }

  /** One thread holds the lock. */
  ghost predicate Held(s: State) {
    && s.data >= 1 && TicketsAre(s, s.data - 1)
    && (exists h :: Holds(s, h))
    && (forall h, k :: Holds(s, h) && Holds(s, k) ==> h == k)
  }

  /** Nobody holds it, and the waiter whose ticket equals the counter is the next to get it. */
  ghost predicate HandOff(s: State) {
    TicketsAre(s, s.data) && forall h :: !Holds(s, h)
  }

  /** Nobody holds it and no ticket can ever match the counter again. */
  ghost predicate Stuck(s: State) {
    && s.data >= 2 && (forall h :: !Holds(s, h))
    && (forall i :: 0 <= i < |s.phases| && s.phases[i].Waiting? ==> s.phases[i].ticket < s.data)
    && (exists i, t :: Waits(s, i, t))
  }

  function Active(p: Phase): nat {
    if p == Idle then 0 else 1
  }

  function Count(ps: seq<Phase>): nat {
    if ps == [] then 0 else Active(ps[0]) + Count(ps[1..])
  }

  lemma {:induction false} CountUpdate(ps: seq<Phase>, i: nat, p: Phase)
    requires i < |ps|
    ensures Count(ps[i := p]) == Count(ps) - Active(ps[i]) + Active(p)
    ensures Active(ps[i]) <= Count(ps) <= |ps|
  {
    CountBound(ps);
    if i > 0 {
      CountUpdate(ps[1..], i - 1, p);
      assert ps[i := p][1..] == ps[1..][i - 1 := p];
    }
  }

  lemma {:induction false} CountBound(ps: seq<Phase>)
    ensures Count(ps) <= |ps|
  {
    if ps != [] {
      CountBound(ps[1..]);
    }
  }

  /** What every interleaving keeps; the counter is the number of threads inside, so it never wraps. */
  ghost predicate Invariant(s: State) {
    Sized(s) && s.data == Count(s.phases) && (Held(s) || HandOff(s) || Stuck(s))
  }

  lemma {:induction false} CountIdle(ps: seq<Phase>)
    requires forall i :: 0 <= i < |ps| ==> ps[i] == Idle
    ensures Count(ps) == 0
  {
    if ps != [] {
      CountIdle(ps[1..]);
    }
  }

  lemma InitialInvariant(s: State)
    requires Initial(s)
    ensures Invariant(s) && HandOff(s)
  {
    CountIdle(s.phases);
  }

  /** The arrival that breaks the queue: between an unlock and the hand-off load. */
  ghost predicate Intrudes(s: State, a: Action) {
    a.Arrive? && HandOff(s) && s.data >= 1
  }

  lemma CounterStep(s: State, a: Action)
    requires Invariant(s) && Enabled(s, a)
    ensures Sized(Next(s, a)) && Next(s, a).data == Count(Next(s, a).phases)
    ensures a.Arrive? ==> Next(s, a).data == s.data + 1
    ensures a.Unlock? ==> Next(s, a).data == s.data - 1
  {
    var i := a.thread;
    CountUpdate(s.phases, i, Idle);
    CountUpdate(s.phases, i, Holding);
    CountUpdate(s.phases, i, Waiting(s.data));
    CountBound(Next(s, a).phases);
  }

  /** A thread other than `k` waits in the updated state as it did before. */
  lemma OthersWait(s: State, data: nat, k: nat, p: Phase)
    requires k < |s.phases|
    ensures var u := State(data, s.phases[k := p]);
      && (forall i, t :: i != k ==> (Waits(u, i, t) <==> Waits(s, i, t)))
      && (forall i :: i != k ==> (Holds(u, i) <==> Holds(s, i)))
      && (forall t :: Waits(u, k, t) <==> (p.Waiting? && p.ticket == t))
      && (Holds(u, k) <==> p == Holding)
  {
  }

  /** A newcomer takes the next ticket. */
  lemma TicketAdded(s: State, k: nat, top: nat)
    requires k < |s.phases| && !s.phases[k].Waiting? && TicketsAre(s, top)
    ensures TicketsAre(State(top + 2, s.phases[k := Waiting(top + 1)]), top + 1)
  {
    var u := State(top + 2, s.phases[k := Waiting(top + 1)]);
    OthersWait(s, top + 2, k, Waiting(top + 1));
    forall t | 1 <= t <= top + 1 ensures Taken(u, t) {
      if t == top + 1 {
        assert Waits(u, k, t);
      } else {
        assert Taken(s, t);
        var i :| Waits(s, i, t);
        assert Waits(u, i, t);
      }
    }
    forall i, j, t | Waits(u, i, t) && Waits(u, j, t) ensures i == j {
      if i != k { assert Waits(s, i, t); }
      if j != k { assert Waits(s, j, t); }
    }
  }

  /** The waiter with the highest ticket leaves the waiting threads. */
  lemma TicketTaken(s: State, k: nat, top: nat)
    requires Waits(s, k, top) && TicketsAre(s, top)
    ensures TicketsAre(State(top, s.phases[k := Holding]), top - 1)
  {
    var u := State(top, s.phases[k := Holding]);
    OthersWait(s, top, k, Holding);
    forall t | 1 <= t <= top - 1 ensures Taken(u, t) {
      assert Taken(s, t);
      var i :| Waits(s, i, t);
      assert Waits(u, i, t);
    }
    forall i | 0 <= i < |u.phases| && u.phases[i].Waiting? ensures 1 <= u.phases[i].ticket <= top - 1 {
      assert Waits(s, i, s.phases[i].ticket);
    }
    forall i, j, t | Waits(u, i, t) && Waits(u, j, t) ensures i == j {
      assert Waits(s, i, t) && Waits(s, j, t);
    }
  }

  /** A thread that was not waiting changes without touching the tickets. */
  lemma TicketsKept(s: State, data: nat, k: nat, p: Phase, top: nat)
    requires k < |s.phases| && !s.phases[k].Waiting? && !p.Waiting? && TicketsAre(s, top)
    ensures TicketsAre(State(data, s.phases[k := p]), top)
  {
    var u := State(data, s.phases[k := p]);
    OthersWait(s, data, k, p);
    forall t | 1 <= t <= top ensures Taken(u, t) {
      assert Taken(s, t);
      var i :| Waits(s, i, t);
      assert Waits(u, i, t);
    }
    forall i, j, t | Waits(u, i, t) && Waits(u, j, t) ensures i == j {
      assert Waits(s, i, t) && Waits(s, j, t);
    }
  }

  lemma TicketBelow(s: State, k: nat, top: int)
    requires k < |s.phases| && s.phases[k].Waiting? && TicketsAre(s, top)
    ensures s.phases[k].ticket <= top
  {
  }

  lemma HeldStep(s: State, a: Action)
    requires Invariant(s) && Held(s) && Enabled(s, a)
    ensures var u := Next(s, a); if a.Unlock? then HandOff(u) else Held(u)
    ensures a.Load? ==> Next(s, a) == s
  {
    CounterStep(s, a);
    hide Count, TicketsAre;
    var k := a.thread;
    match a
    case Arrive(_) =>
      TicketAdded(s, k, s.data - 1);
      OthersWait(s, s.data + 1, k, Waiting(s.data));
      var h :| Holds(s, h);
      assert Holds(Next(s, a), h);
    case Load(_) =>
      TicketBelow(s, k, s.data - 1);
    case Unlock(_) =>
      TicketsKept(s, s.data - 1, k, Idle, s.data - 1);
      OthersWait(s, s.data - 1, k, Idle);
      assert Holds(s, k);
  }

  lemma HandOffStep(s: State, a: Action)
    requires Invariant(s) && HandOff(s) && Enabled(s, a)
    ensures var u := Next(s, a);
      if Intrudes(s, a) then Stuck(u)
      else if a.Arrive? || (a.Load? && s.phases[a.thread].ticket == s.data) then Held(u)
      else u == s
  {
    CounterStep(s, a);
    var k := a.thread;
    assert !Holds(s, k);
    var u := Next(s, a);
    match a
    case Arrive(_) =>
      if s.data == 0 {
        TicketsKept(s, 1, k, Holding, 0);
        OthersWait(s, 1, k, Holding);
        assert Holds(u, k);
      } else {
        OthersWait(s, s.data + 1, k, Waiting(s.data));
        assert Waits(u, k, s.data);
      }
    case Load(_) =>
      if s.phases[k].ticket == s.data {
        TicketTaken(s, k, s.data);
        OthersWait(s, s.data, k, Holding);
        assert Holds(u, k);
      }
    case Unlock(_) =>
  }

  /** Once stuck, stuck for ever: every later arrival only takes a ticket that will not match either. */
  lemma StuckStep(s: State, a: Action)
    requires Invariant(s) && Stuck(s) && Enabled(s, a)
    ensures Stuck(Next(s, a)) && !a.Unlock?
  {
    CounterStep(s, a);
    var k := a.thread;
    assert !Holds(s, k);
    var u := Next(s, a);
    match a
    case Arrive(_) =>
      OthersWait(s, s.data + 1, k, Waiting(s.data));
      assert Waits(u, k, s.data);
    case Load(_) =>
    case Unlock(_) =>
  }

  /** Every atomic step keeps the invariant. */
  lemma StepKeepsInvariant(s: State, a: Action)
    requires Invariant(s) && Enabled(s, a)
    ensures Invariant(Next(s, a))
    ensures Stuck(Next(s, a)) <==> (Stuck(s) || Intrudes(s, a))
  {
    CounterStep(s, a);
    ModesExclude(s);
    ModesExclude(Next(s, a));
    if Held(s) {
      HeldStep(s, a);
    } else if HandOff(s) {
      HandOffStep(s, a);
    } else {
      StuckStep(s, a);
    }
  }

  /** A state is in one mode only. */
  lemma ModesExclude(s: State)
    ensures Held(s) ==> !HandOff(s) && !Stuck(s)
    ensures HandOff(s) ==> !Stuck(s)
  {
    if HandOff(s) && s.data >= 1 {
      assert Taken(s, s.data);
      var i :| Waits(s, i, s.data);
    }
  }

  // ---------- whole runs ----------

  /** `states` is a run from a state where nobody is inside, performing `actions` in order. */
  ghost predicate IsRun(states: seq<State>, actions: seq<Action>) {
    && |states| == |actions| + 1 && Initial(states[0])
    && forall k :: 0 <= k < |actions| ==> Enabled(states[k], actions[k]) && states[k + 1] == Next(states[k], actions[k])
  }

  /** A newcomer has arrived in the hand-off window before step `k`. */
  ghost predicate IntrudedBefore(states: seq<State>, actions: seq<Action>, k: int)
    requires |states| == |actions| + 1
  {
    exists j :: 0 <= j < k && j < |actions| && Intrudes(states[j], actions[j])
  }

  lemma {:induction false} RunKeepsInvariant(states: seq<State>, actions: seq<Action>, k: nat)
    requires IsRun(states, actions) && k < |states|
    ensures Invariant(states[k])
    ensures Stuck(states[k]) <==> IntrudedBefore(states, actions, k)
    decreases k
  {
    if k == 0 {
      InitialInvariant(states[0]);
      ModesExclude(states[0]);
    } else {
      RunKeepsInvariant(states, actions, k - 1);
      hide Invariant, Stuck, Intrudes;
      assert states[k] == Next(states[k - 1], actions[k - 1]);
      StepKeepsInvariant(states[k - 1], actions[k - 1]);
    }
  }

  /** Mutual exclusion in every interleaving; while there is a holder the waiters have exactly 1..data-1. */
  lemma MutualExclusion(states: seq<State>, actions: seq<Action>, k: nat)
    requires IsRun(states, actions) && k < |states|
    ensures forall h, i :: Holds(states[k], h) && Holds(states[k], i) ==> h == i
    ensures (exists h :: Holds(states[k], h)) ==> states[k].data >= 1 && TicketsAre(states[k], states[k].data - 1)
    ensures states[k].data == Count(states[k].phases)
  {
    RunKeepsInvariant(states, actions, k);
  }

  /** Waiting threads, nobody inside, and nobody whose ticket is the counter. */
  ghost predicate NoNextHolder(s: State) {
    (exists i, t :: Waits(s, i, t)) && (forall h :: !Holds(s, h)) && forall i :: !Waits(s, i, s.data)
  }

  /** The lock is lost exactly when some newcomer arrived between an unlock and the hand-off load. */
  lemma LostExactlyByIntrusion(states: seq<State>, actions: seq<Action>, k: nat)
    requires IsRun(states, actions) && k < |states|
    ensures NoNextHolder(states[k]) <==> IntrudedBefore(states, actions, k)
  {
    RunKeepsInvariant(states, actions, k);
    NoNextHolderIsStuck(states[k]);
  }

  lemma NoNextHolderIsStuck(s: State)
    requires Invariant(s)
    ensures NoNextHolder(s) <==> Stuck(s)
  {
    if HandOff(s) && exists i, t :: Waits(s, i, t) {
      var i, t :| Waits(s, i, t);
      assert 1 <= t <= s.data;
      assert Taken(s, s.data);
      var j :| Waits(s, j, s.data);
      assert !NoNextHolder(s);
    }
  }

  lemma Extend(states: seq<State>, actions: seq<Action>, a: Action, u: State)
    returns (longer: seq<State>, more: seq<Action>)
    requires IsRun(states, actions)
    requires var s := states[|states| - 1]; Enabled(s, a) && Next(s, a) == u
    ensures IsRun(longer, more) && longer[|longer| - 1] == u
  {
    longer, more := states + [u], actions + [a];
  }

  /** It can happen with three threads. */
  lemma IntrusionHappens() returns (states: seq<State>, actions: seq<Action>)
    ensures IsRun(states, actions) && NoNextHolder(states[|states| - 1])
  {
    states, actions := [State(0, [Idle, Idle, Idle])], [];
    assert IsRun(states, actions);
    hide IsRun;
    states, actions := Extend(states, actions, Arrive(0), State(1, [Holding, Idle, Idle]));
    states, actions := Extend(states, actions, Arrive(1), State(2, [Holding, Waiting(1), Idle]));
    states, actions := Extend(states, actions, Unlock(0), State(1, [Idle, Waiting(1), Idle]));
    states, actions := Extend(states, actions, Arrive(2), State(2, [Idle, Waiting(1), Waiting(1)]));
    assert Waits(states[|states| - 1], 1, 1);
  }

  /** After such an arrival nobody ever holds the lock again. */
  lemma LostForEver(states: seq<State>, actions: seq<Action>, j: nat, k: nat)
    requires IsRun(states, actions) && j < |actions| && Intrudes(states[j], actions[j]) && j < k < |states|
    ensures forall h :: !Holds(states[k], h)
  {
    RunKeepsInvariant(states, actions, k);
  }

  /**
   * Otherwise somebody can go on: with waiters and nobody inside, exactly one waiter's load
   * succeeds, and it is the one that arrived last, every other ticket being lower.
   */
  lemma HandOffGoesToHighestTicket(s: State)
    requires Invariant(s) && !Stuck(s) && (forall h :: !Holds(s, h)) && (exists i, t :: Waits(s, i, t))
    ensures exists i :: Waits(s, i, s.data)
    ensures forall i, j :: Waits(s, i, s.data) && Waits(s, j, s.data) ==> i == j
    ensures forall i, j, t :: Waits(s, i, s.data) && Waits(s, j, t) && i != j ==> t < s.data
  {
    var i, t :| Waits(s, i, t);
    assert 1 <= t <= s.data;
    assert Taken(s, s.data);
    forall i, j, t | Waits(s, i, s.data) && Waits(s, j, t) && i != j ensures t < s.data {
      assert t <= s.data;
    }
  }

  /** The lock object: each method is one atomic operation of one thread. */
  class Lock {
    var data: nat
    ghost var phases: seq<Phase>

    ghost function Abstract(): State
      reads this
    {
      State(data, phases)
    }

    constructor (ghost threads: nat)
      requires threads < B64
      ensures Initial(Abstract()) && |phases| == threads
    {
      data := 0;
      phases := seq(threads, i => Idle);
    }

    /** The `fetch_add` of `lock`; ticket 0 enters at once. */
    method FetchAdd(ghost thread: nat) returns (ticket: nat)
      requires Invariant(Abstract()) && Enabled(Abstract(), Arrive(thread))
      modifies this
      ensures Abstract() == Next(old(Abstract()), Arrive(thread)) && Invariant(Abstract())
      ensures ticket == old(data)
      ensures phases[thread] == if ticket == 0 then Holding else Waiting(ticket)
    {
      StepKeepsInvariant(Abstract(), Arrive(thread));
      ticket := data;
      data := U64(data + 1);
      phases := phases[thread := if ticket == 0 then Holding else Waiting(ticket)];
    }

    /** One turn of the waiting loop of `lock`. */
    method Spin(ghost thread: nat, ticket: nat) returns (again: bool)
      requires Invariant(Abstract()) && Waits(Abstract(), thread, ticket)
      modifies this`phases
      ensures Abstract() == Next(old(Abstract()), Load(thread)) && Invariant(Abstract())
      ensures again <==> !Holds(Abstract(), thread)
    {
      StepKeepsInvariant(Abstract(), Load(thread));
      again := data != ticket;
      phases := if again then phases else phases[thread := Holding];
    }

    /** The `fetch_sub` of `unlock`. */
    method Release(ghost thread: nat)
      requires Invariant(Abstract()) && Holds(Abstract(), thread)
      modifies this
      ensures Abstract() == Next(old(Abstract()), Unlock(thread)) && Invariant(Abstract())
      ensures data == old(data) - 1
    {
      StepKeepsInvariant(Abstract(), Unlock(thread));
      CounterStep(Abstract(), Unlock(thread));
      data := U64(data - 1);
      phases := phases[thread := Idle];
    }
  }
}

/**
 * The start-up and shutdown barrier of the four game processes: one shared 8-bit counter, every
 * interleaving of the processes' operations on it.
 */
module Barrier {
  import opened Arith

  /** Where a process is. Process 0 is the one the user starts. */
  datatype Phase =
    | Started                              // before its fetch_add
    | Spawning(index: nat, left: nat)      // saw index 0, creating the other processes
    | WaitStart(index: nat)                // polling until the counter reaches 4
    | Running(index: nat)
    | WaitEnd(index: nat)                  // after its fetch_sub, polling until the counter is 0
    | Gone(index: nat)

  datatype State = State(counter: nat, procs: seq<Phase>)

  datatype Action =
    | Register(p: nat)
    | Spawn(p: nat)
    | SpawnFails(p: nat)
    | PollStart(p: nat)
    | Leave(p: nat)
    | PollEnd(p: nat)

  const CHILDREN: nat := 3
  const PROCESSES: nat := 4

  predicate Initial(s: State) {
    s == State(0, [Started])
  }

  predicate Enabled(s: State, a: Action) {
    a.p < |s.procs| &&
    match a
    case Register(p) => s.procs[p].Started?
    case Spawn(p) => s.procs[p].Spawning?
    case SpawnFails(p) => s.procs[p].Spawning?
    case PollStart(p) => s.procs[p].WaitStart?
    case Leave(p) => s.procs[p].Running?
    case PollEnd(p) => s.procs[p].WaitEnd?
  }

  /** After one more creation attempt. */
  function AfterSpawn(f: Phase): Phase
    requires f.Spawning?
  {
    if f.left <= 1 then WaitStart(f.index) else Spawning(f.index, f.left - 1)
  }

  function Next(s: State, a: Action): State
    requires Enabled(s, a)
  {
    var f := s.procs[a.p];
    match a
    case Register(p) =>
      State((s.counter + 1) % B8,
            s.procs[p := if s.counter == 0 then Spawning(0, CHILDREN) else WaitStart(s.counter)])
    case Spawn(p) => s.(procs := s.procs[p := AfterSpawn(f)] + [Started])
    case SpawnFails(p) => s.(procs := s.procs[p := AfterSpawn(f)])
    case PollStart(p) => if s.counter < PROCESSES then s else s.(procs := s.procs[p := Running(f.index)])
    case Leave(p) => State((s.counter - 1) % B8, s.procs[p := WaitEnd(f.index)])
    case PollEnd(p) => if s.counter != 0 then s else s.(procs := s.procs[p := Gone(f.index)])
  }

  predicate Registered(f: Phase) {
    !f.Started?
  }

  /** The process has done its fetch_sub. */
  predicate Left(f: Phase) {
    f.WaitEnd? || f.Gone?
  }

  function Registrations(ps: seq<Phase>): nat {
    if ps == [] then 0 else AsBit(Registered(ps[0])) + Registrations(ps[1..])
  }

  function Departures(ps: seq<Phase>): nat {
    if ps == [] then 0 else AsBit(Left(ps[0])) + Departures(ps[1..])
  }

  lemma {:induction false} CountUpdate(ps: seq<Phase>, i: nat, f: Phase)
    requires i < |ps|
    ensures Registrations(ps[i := f]) == Registrations(ps) - AsBit(Registered(ps[i])) + AsBit(Registered(f))
    ensures Departures(ps[i := f]) == Departures(ps) - AsBit(Left(ps[i])) + AsBit(Left(f))
  {
    if i > 0 {
      CountUpdate(ps[1..], i - 1, f);
      assert ps[i := f][1..] == ps[1..][i - 1 := f];
    }
  }

  lemma {:induction false} CountAppend(ps: seq<Phase>, f: Phase)
    ensures Registrations(ps + [f]) == Registrations(ps) + AsBit(Registered(f))
    ensures Departures(ps + [f]) == Departures(ps) + AsBit(Left(f))
  {
    if ps == [] {
      assert ps + [f] == [f];
    } else {
      CountAppend(ps[1..], f);
      assert (ps + [f])[1..] == ps[1..] + [f];
    }
  }

  lemma {:induction false} CountBounds(ps: seq<Phase>)
    ensures Departures(ps) <= Registrations(ps) <= |ps|
    ensures Registrations(ps) == |ps| <==> forall i :: 0 <= i < |ps| ==> Registered(ps[i])
    ensures Departures(ps) == |ps| <==> forall i :: 0 <= i < |ps| ==> Left(ps[i])
    ensures Departures(ps) == 0 <==> forall i :: 0 <= i < |ps| ==> !Left(ps[i])
  {
    if ps != [] {
      CountBounds(ps[1..]);
      assert forall i :: 0 < i < |ps| ==> ps[i] == ps[1..][i - 1];
    }
  }

  predicate AllRegistered(s: State) {
    |s.procs| == PROCESSES && forall i :: 0 <= i < |s.procs| ==> Registered(s.procs[i])
  }

  predicate AllLeft(s: State) {
    |s.procs| == PROCESSES && forall i :: 0 <= i < |s.procs| ==> Left(s.procs[i])
  }

  /** Past the start-up wait. */
  predicate PastStart(f: Phase) {
    f.Running? || Left(f)
  }

  /** What every interleaving keeps. */
  ghost predicate Invariant(s: State) {
    && 1 <= |s.procs| <= PROCESSES
    && s.counter == Registrations(s.procs) - Departures(s.procs)
    && (s.procs[0].Started? ==> |s.procs| == 1)
    && (s.procs[0].Spawning? ==> 1 <= s.procs[0].left && |s.procs| + s.procs[0].left <= PROCESSES)
    && (Registered(s.procs[0]) ==> s.procs[0].index == 0)
    && (forall i :: 1 <= i < |s.procs| ==> !s.procs[i].Spawning?)
    && (forall i :: 0 <= i < |s.procs| && Registered(s.procs[i]) ==> s.procs[i].index < Registrations(s.procs))
    && (forall i, j :: 0 <= i < j < |s.procs| && Registered(s.procs[i]) && Registered(s.procs[j])
          ==> s.procs[i].index != s.procs[j].index)
    && (forall i :: 0 <= i < |s.procs| && PastStart(s.procs[i]) ==> AllRegistered(s))
    && (forall i :: 0 <= i < |s.procs| && s.procs[i].Gone? ==> AllLeft(s))
  }

  lemma InitialInvariant(s: State)
    requires Initial(s)
    ensures Invariant(s)
  {
    assert Registrations([Started]) == 0 && Departures([Started]) == 0;
  }

  lemma RegisterStep(s: State, p: nat)
    requires Invariant(s) && Enabled(s, Register(p))
    ensures Invariant(Next(s, Register(p)))
  {
    hide Registrations, Departures;
    var f := if s.counter == 0 then Spawning(0, CHILDREN) else WaitStart(s.counter);
    CountBounds(s.procs);
    CountBounds(s.procs[p := f]);
    CountUpdate(s.procs, p, f);
    NobodyPastStart(s, p);
  }

  /** While a process has not registered, nobody is past the start-up wait. */
  lemma NobodyPastStart(s: State, p: nat)
    requires Invariant(s) && p < |s.procs| && s.procs[p].Started?
    ensures forall i :: 0 <= i < |s.procs| ==> !PastStart(s.procs[i])
    ensures Departures(s.procs) == 0 && s.counter == Registrations(s.procs) < PROCESSES
    ensures s.counter == 0 <==> p == 0
  {
    CountBounds(s.procs);
    if p != 0 {
      assert Registered(s.procs[0]);
    }
  }

  lemma SpawnStep(s: State, p: nat)
    requires Invariant(s) && Enabled(s, Spawn(p))
    ensures Invariant(Next(s, Spawn(p)))
  {
    hide Registrations, Departures;
    var f := AfterSpawn(s.procs[p]);
    var ps := s.procs[p := f];
    CountUpdate(s.procs, p, f);
    CountAppend(ps, Started);
    CountBounds(s.procs);
    CountBounds(ps + [Started]);
  }

  /** A failed creation is never retried. */
  lemma SpawnFailsStep(s: State, a: Action)
    requires Invariant(s) && Enabled(s, a) && a.SpawnFails?
    ensures Invariant(Next(s, a))
  {
    hide Registrations, Departures;
    var p := a.p;
    var u := Next(s, a);
    CountUpdate(s.procs, p, u.procs[p]);
    CountBounds(s.procs);
    CountBounds(u.procs);
    assert u.procs == s.procs[p := u.procs[p]];
  }

  /** Leaving the start-up wait needs all four registered. */
  lemma PollStartStep(s: State, a: Action)
    requires Invariant(s) && Enabled(s, a) && a.PollStart?
    ensures Invariant(Next(s, a))
    ensures Next(s, a) != s ==> AllRegistered(s)
  {
    hide Registrations, Departures;
    var p := a.p;
    var u := Next(s, a);
    CountUpdate(s.procs, p, u.procs[p]);
    CountBounds(s.procs);
    CountBounds(u.procs);
    assert u.procs == s.procs[p := u.procs[p]];
  }

  /** The decrement never wraps. */
  lemma LeaveStep(s: State, a: Action)
    requires Invariant(s) && Enabled(s, a) && a.Leave?
    ensures Invariant(Next(s, a))
    ensures Next(s, a).counter == s.counter - 1
  {
    hide Registrations, Departures;
    var p := a.p;
    var u := Next(s, a);
    CountUpdate(s.procs, p, u.procs[p]);
    CountBounds(s.procs);
    CountBounds(u.procs);
    assert u.procs == s.procs[p := u.procs[p]];
  }

  /** Leaving the shutdown wait needs all four decrements. */
  lemma PollEndStep(s: State, a: Action)
    requires Invariant(s) && Enabled(s, a) && a.PollEnd?
    ensures Invariant(Next(s, a))
    ensures Next(s, a).procs[a.p].Gone? <==> AllLeft(s)
  {
    hide Registrations, Departures;
    var p := a.p;
    var u := Next(s, a);
    CountUpdate(s.procs, p, u.procs[p]);
    CountBounds(s.procs);
    CountBounds(u.procs);
    assert u.procs == s.procs[p := u.procs[p]];
  }

  lemma StepKeepsInvariant(s: State, a: Action)
    requires Invariant(s) && Enabled(s, a)
    ensures Invariant(Next(s, a))
  {
    match a
    case Register(p) => RegisterStep(s, p);
    case Spawn(p) => SpawnStep(s, p);
    case SpawnFails(_) => SpawnFailsStep(s, a);
    case PollStart(_) => PollStartStep(s, a);
    case Leave(_) => LeaveStep(s, a);
    case PollEnd(_) => PollEndStep(s, a);
  }

  // ---------- whole runs ----------

  ghost predicate IsRun(states: seq<State>, actions: seq<Action>) {
    && |states| == |actions| + 1 && Initial(states[0])
    && forall k :: 0 <= k < |actions| ==> Enabled(states[k], actions[k]) && states[k + 1] == Next(states[k], actions[k])
  }

  lemma {:induction false} RunKeepsInvariant(states: seq<State>, actions: seq<Action>, k: nat)
    requires IsRun(states, actions) && k < |states|
    ensures Invariant(states[k])
    decreases k
  {
    if k == 0 {
      InitialInvariant(states[0]);
    } else {
      RunKeepsInvariant(states, actions, k - 1);
      StepKeepsInvariant(states[k - 1], actions[k - 1]);
      assert states[k] == Next(states[k - 1], actions[k - 1]);
    }
  }

  /**
   * In every run: at most four processes, distinct indices below the number of registrations, and
   * only the first process ever has index 0 or creates others.
   */
  lemma IndicesDistinct(states: seq<State>, actions: seq<Action>, k: nat)
    requires IsRun(states, actions) && k < |states|
    ensures var s := states[k];
      && |s.procs| <= 4 && s.counter <= 4
      && (forall i, j :: 0 <= i < j < |s.procs| && Registered(s.procs[i]) && Registered(s.procs[j])
            ==> s.procs[i].index != s.procs[j].index)
      && (forall i :: 0 <= i < |s.procs| && Registered(s.procs[i])
            ==> s.procs[i].index < 4 && (s.procs[i].index == 0 <==> i == 0))
      && (forall i :: 0 <= i < |s.procs| && s.procs[i].Spawning? ==> i == 0)
  {
    RunKeepsInvariant(states, actions, k);
    CountBounds(states[k].procs);
    FirstIsZero(states[k]);
  }

  lemma FirstIsZero(s: State)
    requires Invariant(s)
    ensures forall i :: 0 <= i < |s.procs| && Registered(s.procs[i]) ==> (s.procs[i].index == 0 <==> i == 0)
  {
    forall i | 1 <= i < |s.procs| && Registered(s.procs[i]) ensures s.procs[i].index != 0 {
      assert Registered(s.procs[0]) && s.procs[0].index == 0;
    }
  }

  /** Nobody leaves the start-up wait before all four have registered. */
  lemma StartBarrier(states: seq<State>, actions: seq<Action>, k: nat)
    requires IsRun(states, actions) && k < |actions|
    ensures actions[k].PollStart? && states[k + 1] != states[k] ==> |states[k].procs| == 4 && AllRegistered(states[k])
    ensures actions[k].Leave? ==> |states[k].procs| == 4 && AllRegistered(states[k])
  {
    RunKeepsInvariant(states, actions, k);
    assert Enabled(states[k], actions[k]);
    if actions[k].PollStart? {
      PollStartStep(states[k], actions[k]);
    }
    assert actions[k].Leave? ==> PastStart(states[k].procs[actions[k].p]);
  }

  /** A poll of the shutdown wait ends it if and only if all four have decremented. */
  lemma EndBarrier(states: seq<State>, actions: seq<Action>, k: nat)
    requires IsRun(states, actions) && k < |actions|
    ensures actions[k].PollEnd? ==> (Next(states[k], actions[k]).procs[actions[k].p].Gone? <==> AllLeft(states[k]))
  {
    RunKeepsInvariant(states, actions, k);
    if actions[k].PollEnd? {
      PollEndStep(states[k], actions[k]);
    }
  }

  /** Somebody has decremented while process `i` is still in the start-up wait. */
  predicate Stranded(s: State, i: nat) {
    i < |s.procs| && s.procs[i].WaitStart? && exists j :: 0 <= j < |s.procs| && Left(s.procs[j])
  }

  /** From then on the counter is below 4 for ever, so process i never starts and nobody ever finishes. */
  lemma StrandedStep(s: State, a: Action, i: nat)
    requires Invariant(s) && Stranded(s, i) && Enabled(s, a)
    ensures Stranded(Next(s, a), i)
  {
    var j :| 0 <= j < |s.procs| && Left(s.procs[j]);
    assert PastStart(s.procs[j]);
    CountBounds(s.procs);
    assert Registered(s.procs[a.p]) && Registered(s.procs[0]);
    assert s.counter < PROCESSES;
    assert Left(Next(s, a).procs[j]);
  }

  lemma {:induction false} StrandedForEver(states: seq<State>, actions: seq<Action>, k: nat, m: nat, i: nat)
    requires IsRun(states, actions) && k <= m < |states| && Stranded(states[k], i)
    ensures Stranded(states[m], i)
    ensures forall j :: 0 <= j < |states[m].procs| ==> !states[m].procs[j].Gone?
    decreases m
  {
    hide Invariant, Stranded, Next, Enabled;
    RunKeepsInvariant(states, actions, m);
    if k < m {
      StrandedForEver(states, actions, k, m - 1, i);
      RunKeepsInvariant(states, actions, m - 1);
      assert states[m - 1 + 1] == Next(states[m - 1], actions[m - 1]);
      StrandedStep(states[m - 1], actions[m - 1], i);
    }
    StrandedNobodyGone(states[m], i);
  }

  lemma StrandedNobodyGone(s: State, i: nat)
    requires Invariant(s) && Stranded(s, i)
    ensures forall j :: 0 <= j < |s.procs| ==> !s.procs[j].Gone?
  {
    assert !Left(s.procs[i]);
  }

  lemma Extend(states: seq<State>, actions: seq<Action>, a: Action, u: State)
    returns (longer: seq<State>, more: seq<Action>)
    requires IsRun(states, actions)
    requires var s := states[|states| - 1]; Enabled(s, a) && Next(s, a) == u
    ensures IsRun(longer, more) && longer[|longer| - 1] == u
  {
    longer, more := states + [u], actions + [a];
  }

  /** It can happen: the first process starts and shuts down before the second has polled. */
  lemma StrandingHappens() returns (states: seq<State>, actions: seq<Action>)
    ensures IsRun(states, actions) && Stranded(states[|states| - 1], 1)
  {
    var w0, w1, w2, w3 := WaitStart(0), WaitStart(1), WaitStart(2), WaitStart(3);
    states, actions := [State(0, [Started])], [];
    assert IsRun(states, actions);
    hide IsRun;
    states, actions := Extend(states, actions, Register(0), State(1, [Spawning(0, 3)]));
    states, actions := Extend(states, actions, Spawn(0), State(1, [Spawning(0, 2), Started]));
    states, actions := Extend(states, actions, Spawn(0), State(1, [Spawning(0, 1), Started, Started]));
    states, actions := Extend(states, actions, Spawn(0), State(1, [w0, Started, Started, Started]));
    states, actions := Extend(states, actions, Register(1), State(2, [w0, w1, Started, Started]));
    states, actions := Extend(states, actions, Register(2), State(3, [w0, w1, w2, Started]));
    states, actions := Extend(states, actions, Register(3), State(4, [w0, w1, w2, w3]));
    states, actions := Extend(states, actions, PollStart(0), State(4, [Running(0), w1, w2, w3]));
    states, actions := Extend(states, actions, Leave(0), State(3, [WaitEnd(0), w1, w2, w3]));
    assert Left(states[|states| - 1].procs[0]);
  }

  /** A poll of the start-up wait succeeds exactly when all four are registered and nobody has decremented. */
  lemma StartSucceedsUnlessStranded(s: State, i: nat)
    requires Invariant(s) && i < |s.procs| && s.procs[i].WaitStart?
    ensures Next(s, PollStart(i)).procs[i].Running? <==> AllRegistered(s) && !Stranded(s, i)
  {
    CountBounds(s.procs);
  }

  /** Processes the first one may still create. */
  function Missing(f: Phase): nat {
    match f
    case Started => CHILDREN
    case Spawning(_, left) => left
    case _ => 0
  }

  /** There will never be four processes. */
  predicate Short(s: State) {
    |s.procs| > 0 && |s.procs| + Missing(s.procs[0]) < PROCESSES
  }

  lemma ShortStep(s: State, a: Action)
    requires Invariant(s) && Enabled(s, a)
    ensures Short(s) || a.SpawnFails? ==> Short(Next(s, a))
  {
    if a.Register? {
      NobodyPastStart(s, a.p);
    }
  }

  /** The other way to hang: after one failed process creation nobody ever leaves the start-up wait. */
  lemma {:induction false} FailedSpawnHangs(states: seq<State>, actions: seq<Action>, j: nat, k: nat)
    requires IsRun(states, actions) && j < |actions| && actions[j].SpawnFails? && j < k < |states|
    ensures Short(states[k])
    ensures forall p :: 0 <= p < |states[k].procs| ==> !PastStart(states[k].procs[p])
    decreases k
  {
    hide Invariant, Next, Short;
    RunKeepsInvariant(states, actions, k - 1);
    RunKeepsInvariant(states, actions, k);
    assert states[k - 1 + 1] == Next(states[k - 1], actions[k - 1]);
    if j < k - 1 {
      FailedSpawnHangs(states, actions, j, k - 1);
    }
    ShortStep(states[k - 1], actions[k - 1]);
    ShortNobodyStarts(states[k]);
  }

  lemma ShortNobodyStarts(s: State)
    requires Invariant(s) && Short(s)
    ensures forall p :: 0 <= p < |s.procs| ==> !PastStart(s.procs[p])
  {
  }

  /** The shared byte, with the atomic operations the processes perform on it. */
  class SharedCounter {
    var nextIndex: nat
    ghost var procs: seq<Phase>

    ghost function Abstract(): State
      reads this
    {
      State(nextIndex, procs)
    }

    constructor ()
      ensures Initial(Abstract())
    {
      nextIndex := 0;
      procs := [Started];
    }

    /** The `fetch_add` of the set-up patch; the process that gets 0 creates the others. */
    method FetchAdd(ghost p: nat) returns (index: nat)
      requires Invariant(Abstract()) && Enabled(Abstract(), Register(p))
      modifies this
      ensures Abstract() == Next(old(Abstract()), Register(p)) && Invariant(Abstract())
      ensures index == old(nextIndex) && (index == 0 <==> p == 0) && index < PROCESSES
    {
      StepKeepsInvariant(Abstract(), Register(p));
      NobodyPastStart(Abstract(), p);
      index := nextIndex;
      nextIndex := (nextIndex + 1) % B8;
      procs := procs[p := if index == 0 then Spawning(0, CHILDREN) else WaitStart(index)];
    }

    /** One turn of the start-up wait. */
    method StartPoll(ghost p: nat) returns (again: bool)
      requires Invariant(Abstract()) && Enabled(Abstract(), PollStart(p))
      modifies this`procs
      ensures Abstract() == Next(old(Abstract()), PollStart(p)) && Invariant(Abstract())
      ensures again <==> procs[p].WaitStart?
      ensures !again ==> AllRegistered(old(Abstract()))
    {
      StepKeepsInvariant(Abstract(), PollStart(p));
      PollStartStep(Abstract(), PollStart(p));
      again := nextIndex < PROCESSES;
      procs := if again then procs else procs[p := Running(procs[p].index)];
    }

    /** The `fetch_sub` of the shutdown patch. */
    method FetchSub(ghost p: nat)
      requires Invariant(Abstract()) && Enabled(Abstract(), Leave(p))
      modifies this
      ensures Abstract() == Next(old(Abstract()), Leave(p)) && Invariant(Abstract())
      ensures nextIndex == old(nextIndex) - 1
    {
      StepKeepsInvariant(Abstract(), Leave(p));
      LeaveStep(Abstract(), Leave(p));
      nextIndex := (nextIndex - 1) % B8;
      procs := procs[p := WaitEnd(procs[p].index)];
    }

    /** One turn of the shutdown wait. */
    method EndPoll(ghost p: nat) returns (again: bool)
      requires Invariant(Abstract()) && Enabled(Abstract(), PollEnd(p))
      modifies this`procs
      ensures Abstract() == Next(old(Abstract()), PollEnd(p)) && Invariant(Abstract())
      ensures again <==> procs[p].WaitEnd?
      ensures !again ==> AllLeft(old(Abstract()))
    {
      StepKeepsInvariant(Abstract(), PollEnd(p));
      PollEndStep(Abstract(), PollEnd(p));
      again := nextIndex != 0;
      procs := if again then procs else procs[p := Gone(procs[p].index)];
    }
  }
}

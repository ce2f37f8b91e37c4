/** The loader lock built on two atomics and a futex, as a transition system over any number of threads:
    every atomic access and every futex call is a step of its own, and any thread may go next. */
module FutexLock {
  import opened Usize
  import opened AbstractLock

  /** Where a thread is. */
  datatype Pc =
    | Outside                    // not in lock or unlock; may hold guards
    | Loading                    // at the top of the lock loop, about to load the owner
    | Deepening                  // saw itself as owner, about to increment the depth
    | Swapping                   // saw no owner, about to compare-exchange it
    | Storing                    // won the exchange, about to store depth 1
    | Waiting(expected: Tid)     // about to call futex-wait, expecting this owner
    | Sleeping(expected: Tid)    // asleep in the kernel since the owner was as expected
    | Clearing                   // dropped the outermost guard, about to store owner 0
    | Waking                     // about to wake one sleeper

  /** The owner word is 0 when there is none; thread ids are not 0. */
  datatype State = State(owner: Tid, depth: nat, pc: map<Tid, Pc>, guards: map<Tid, nat>)

  datatype Step =
    | Call(t: Tid)
    | Load(t: Tid)
    | Deepen(t: Tid)
    | Swap(t: Tid)
    | Store(t: Tid)
    | Wait(t: Tid)
    | Drop(t: Tid)
    | Clear(t: Tid)
    | Wake(t: Tid, woken: Option<Tid>)
    | WakeSpuriously(t: Tid)

  function Start(threads: set<Tid>): State {
    State(0, 0, map t | t in threads :: Outside, map t | t in threads :: 0)
  }

  ghost predicate Can(s: State, step: Step) {
    && step.t in s.pc && step.t in s.guards
    && match step
       case Call(t) => s.pc[t] == Outside
       case Load(t) => s.pc[t] == Loading
       case Deepen(t) => s.pc[t] == Deepening
       case Swap(t) => s.pc[t] == Swapping
       case Store(t) => s.pc[t] == Storing
       case Wait(t) => s.pc[t].Waiting?
       case Drop(t) => s.pc[t] == Outside && s.guards[t] > 0
       case Clear(t) => s.pc[t] == Clearing
       case Wake(t, woken) =>
         && s.pc[t] == Waking
         && (match woken
             case None => forall u :: u in s.pc ==> !s.pc[u].Sleeping?
             case Some(u) => u in s.pc && s.pc[u].Sleeping?)
       case WakeSpuriously(t) => s.pc[t].Waiting? || s.pc[t].Sleeping?
  }

  ghost function Do(s: State, step: Step): State
    requires Can(s, step)
  {
    var t := step.t;
    match step
    case Call(_) => s.(pc := s.pc[t := Loading])
    case Load(_) =>
      s.(pc := s.pc[t := if s.owner == t then Deepening else if s.owner == 0 then Swapping else Waiting(s.owner)])
    case Deepen(_) =>
      // On overflow `lock` panics and returns no guard.
      if s.depth == MAX then s.(pc := s.pc[t := Outside])
      else s.(depth := s.depth + 1, pc := s.pc[t := Outside], guards := s.guards[t := s.guards[t] + 1])
    case Swap(_) =>
      if s.owner == 0 then s.(owner := t, pc := s.pc[t := Storing])
      else s.(pc := s.pc[t := Waiting(0)])
    case Store(_) => s.(depth := 1, pc := s.pc[t := Outside], guards := s.guards[t := s.guards[t] + 1])
    case Wait(_) =>
      s.(pc := s.pc[t := if s.owner == s.pc[t].expected then Sleeping(s.owner) else Loading])
    case Drop(_) =>
      s.(depth := (s.depth + MAX) % WORD, guards := s.guards[t := s.guards[t] - 1],
         pc := s.pc[t := if s.depth == 1 then Clearing else Outside])
    case Clear(_) => s.(owner := 0, pc := s.pc[t := Waking])
    case Wake(_, woken) =>
      var pc := match woken case None => s.pc case Some(u) => s.pc[u := Loading];
      s.(pc := pc[t := Outside])
    case WakeSpuriously(_) => s.(pc := s.pc[t := Loading])
  }

  // ----- Invariant -----

  predicate ThreadOk(owner: Tid, depth: nat, t: Tid, pc: Pc, guards: nat) {
    && t != 0
    && (guards > 0 ==> owner == t)
    && (owner == t ==> depth == guards)
    && (pc in {Storing, Clearing} ==> owner == t && guards == 0)
    && (owner == t && guards == 0 ==> pc in {Storing, Clearing})
    && (pc == Waking ==> guards == 0)
    && (pc == Deepening ==> owner == t)
    && (pc == Swapping || pc.Waiting? || pc.Sleeping? ==> owner != t)
  }

  ghost predicate OwnerOk(s: State) {
    && s.depth <= MAX
    && s.pc.Keys == s.guards.Keys
    && (s.owner == 0 ==> s.depth == 0)
    && (s.owner != 0 ==> s.owner in s.pc)
    && (forall t :: t in s.pc ==> ThreadOk(s.owner, s.depth, t, s.pc[t], s.guards[t]))
  }

  /** A thread in the lock loop that will look at the owner again before it can fall asleep. */
  predicate Active(pc: Pc) {
    pc == Loading || pc == Swapping || (pc.Waiting? && pc.expected != 0)
  }

  ghost predicate SomeoneActive(s: State) {
    exists t :: t in s.pc && (Active(s.pc[t]) || s.pc[t] == Waking)
  }

  /** A waiter that fell asleep on an owner, as opposed to on the value 0. */
  ghost predicate OwnedWaiter(s: State) {
    exists t :: t in s.pc && s.pc[t].Sleeping? && s.pc[t].expected != 0
  }

  ghost predicate Inv(s: State) {
    OwnerOk(s) && (s.owner == 0 && OwnedWaiter(s) ==> SomeoneActive(s))
  }

  lemma StartInv(threads: set<Tid>)
    requires 0 !in threads
    ensures Inv(Start(threads))
  {
  }

  lemma OwnPositionOk(s: State, step: Step)
    requires OwnerOk(s) && Can(s, step)
    ensures var s' := Do(s, step);
            && s'.pc.Keys == s'.guards.Keys == s.pc.Keys && s'.depth <= MAX
            && (s'.owner == 0 ==> s'.depth == 0) && (s'.owner != 0 ==> s'.owner in s'.pc)
            && ThreadOk(s'.owner, s'.depth, step.t, s'.pc[step.t], s'.guards[step.t])
  {
    assert ThreadOk(s.owner, s.depth, step.t, s.pc[step.t], s.guards[step.t]);
    if s.owner != 0 {
      assert ThreadOk(s.owner, s.depth, s.owner, s.pc[s.owner], s.guards[s.owner]);
    }
  }

  lemma OthersUnchanged(s: State, step: Step, u: Tid)
    requires OwnerOk(s) && Can(s, step) && u in s.pc && u != step.t
    ensures var s' := Do(s, step);
            && u in s'.pc && u in s'.guards && s'.guards[u] == s.guards[u]
            && (s'.pc[u] == s.pc[u] || (s.pc[u].Sleeping? && s'.pc[u] == Loading))
            && (s'.owner == u <==> s.owner == u)
            && (s.owner == u ==> s'.depth == s.depth)
  {
    assert ThreadOk(s.owner, s.depth, step.t, s.pc[step.t], s.guards[step.t]);
    assert ThreadOk(s.owner, s.depth, u, s.pc[u], s.guards[u]);
  }

  lemma StepKeepsOwner(s: State, step: Step)
    requires OwnerOk(s) && Can(s, step)
    ensures OwnerOk(Do(s, step))
  {
    var s' := Do(s, step);
    OwnPositionOk(s, step);
    forall u | u in s'.pc
      ensures ThreadOk(s'.owner, s'.depth, u, s'.pc[u], s'.guards[u])
    {
      if u != step.t {
        OthersUnchanged(s, step, u);
        hide Do, Can;
        assert ThreadOk(s.owner, s.depth, u, s.pc[u], s.guards[u]);
      }
    }
  }

  /** A step that leaves the owner 0 and sends nobody to sleep keeps an active thread active. */
  lemma OtherStepKeepsActive(s: State, step: Step)
    requires Inv(s) && Can(s, step) && !step.Clear? && !step.Wake?
    requires s.owner == 0 && Do(s, step).owner == 0 && OwnedWaiter(Do(s, step))
    ensures SomeoneActive(Do(s, step))
  {
    var s' := Do(s, step);
    var sleeper :| sleeper in s'.pc && s'.pc[sleeper].Sleeping? && s'.pc[sleeper].expected != 0;
    assert s.pc[sleeper] == s'.pc[sleeper];
    var w :| w in s.pc && (Active(s.pc[w]) || s.pc[w] == Waking);
    assert ThreadOk(s.owner, s.depth, step.t, s.pc[step.t], s.guards[step.t]);
    assert w in s'.pc && (Active(s'.pc[w]) || s'.pc[w] == Waking);
  }

  lemma StepKeepsActive(s: State, step: Step)
    requires Inv(s) && Can(s, step) && Do(s, step).owner == 0 && OwnedWaiter(Do(s, step))
    ensures SomeoneActive(Do(s, step))
  {
    var s' := Do(s, step);
    match step
    case Clear(t) => assert s'.pc[t] == Waking;
    case Wake(t, Some(u)) => assert u != t && s'.pc[u] == Loading;
    case Wake(t, None) =>
    case _ => if s.owner == 0 { OtherStepKeepsActive(s, step); }
  }

  lemma StepKeepsInv(s: State, step: Step)
    requires Inv(s) && Can(s, step)
    ensures Inv(Do(s, step))
  {
    StepKeepsOwner(s, step);
    if Do(s, step).owner == 0 && OwnedWaiter(Do(s, step)) {
      StepKeepsActive(s, step);
    }
  }

  // ----- Runs -----

  ghost predicate RunOk(s: State, steps: seq<Step>)
    decreases |steps|
  {
    steps == [] || (Can(s, steps[0]) && RunOk(Do(s, steps[0]), steps[1..]))
  }

  ghost function Run(s: State, steps: seq<Step>): State
    requires RunOk(s, steps)
    decreases |steps|
  {
    if steps == [] then s else Run(Do(s, steps[0]), steps[1..])
  }

  ghost predicate Reachable(s: State) {
    exists threads, steps :: 0 !in threads && RunOk(Start(threads), steps) && s == Run(Start(threads), steps)
  }

  lemma {:induction false} RunInv(s: State, steps: seq<Step>)
    requires Inv(s) && RunOk(s, steps)
    ensures Inv(Run(s, steps))
    decreases |steps|
  {
    if steps != [] {
      StepKeepsInv(s, steps[0]);
      RunInv(Do(s, steps[0]), steps[1..]);
    }
  }

  lemma ReachableInv(s: State)
    requires Reachable(s)
    ensures Inv(s)
  {
    var threads, steps :| 0 !in threads && RunOk(Start(threads), steps) && s == Run(Start(threads), steps);
    StartInv(threads);
    RunInv(Start(threads), steps);
  }

  // ----- Theorems -----

  /** At most one thread holds guards, it is the owner, and the depth is its guard count. */
  lemma MutualExclusion(s: State, t: Tid, u: Tid)
    requires Reachable(s) && t in s.pc && u in s.pc
    ensures s.pc.Keys == s.guards.Keys
    ensures s.guards[t] > 0 && s.guards[u] > 0 ==> t == u
    ensures s.owner == t ==> s.depth == s.guards[t]
    ensures s.guards[t] > 0 ==> s.owner == t
    ensures s.owner == t && s.guards[t] == 0 <==> s.pc[t] in {Storing, Clearing}
  {
    ReachableInv(s);
    assert ThreadOk(s.owner, s.depth, t, s.pc[t], s.guards[t]) && ThreadOk(s.owner, s.depth, u, s.pc[u], s.guards[u]);
  }

  /** The owner is cleared exactly by the thread that dropped the outermost guard, and dropping a guard
      never wraps the depth. */
  lemma ReleaseIsOutermost(s: State, step: Step)
    requires Reachable(s) && Can(s, step)
    ensures step.Drop? ==> s.owner == step.t && s.depth == s.guards[step.t] && Do(s, step).depth == s.depth - 1
    ensures step.Drop? ==> (Do(s, step).pc[step.t] == Clearing <==> s.guards[step.t] == 1)
    ensures s.owner != 0 && Do(s, step).owner == 0 <==> step.Clear?
    ensures step.Clear? ==> s.owner == step.t && s.guards[step.t] == 0
  {
    ReachableInv(s);
    assert ThreadOk(s.owner, s.depth, step.t, s.pc[step.t], s.guards[step.t]);
  }

  // ----- Progress -----

  /** Re-entry never waits: a thread that holds guards neither sleeps nor is about to. */
  lemma HolderNeverWaits(s: State, t: Tid)
    requires Reachable(s) && t in s.pc && t in s.guards && s.guards[t] > 0
    ensures s.owner == t && s.pc[t] in {Outside, Loading, Deepening}
  {
    ReachableInv(s);
    assert ThreadOk(s.owner, s.depth, t, s.pc[t], s.guards[t]);
  }

  /** Steps a thread in `lock` has left before it can return, when it need not wait: it is about to look at the
      owner, or will find that the owner it expects is gone. */
  function LockRank(s: State, t: Tid): Option<nat>
    requires t in s.pc
  {
    match s.pc[t]
    case Waiting(expected) => if expected != s.owner then Some(4) else None
    case Loading => Some(3)
    case Swapping => Some(2)
    case Deepening => Some(1)
    case Storing => Some(1)
    case _ => None
  }

  /** What the thread does next in `lock`. */
  function LockStep(pc: Pc, t: Tid): Step {
    match pc
    case Waiting(_) => Wait(t)
    case Swapping => Swap(t)
    case Deepening => Deepen(t)
    case Storing => Store(t)
    case _ => Load(t)
  }

  /** The thread has returned from `lock` with one guard more, and nothing else has happened. */
  function Granted(s: State, t: Tid): State
    requires t in s.guards
  {
    State(t, s.guards[t] + 1, s.pc[t := Outside], s.guards[t := s.guards[t] + 1])
  }

  /** Steps of this thread alone lead from one state to the other. */
  ghost predicate LeadsAlone(s: State, t: Tid, end: State) {
    exists steps: seq<Step> :: (forall step :: step in steps ==> step.t == t) && RunOk(s, steps) && Run(s, steps) == end
  }

  lemma AloneNow(s: State, t: Tid)
    ensures LeadsAlone(s, t, s)
  {
    assert RunOk(s, []) && Run(s, []) == s;
  }

  lemma AloneAfter(s: State, step: Step, end: State)
    requires Can(s, step) && LeadsAlone(Do(s, step), step.t, end)
    ensures LeadsAlone(s, step.t, end)
  {
    var rest: seq<Step> :| (forall r :: r in rest ==> r.t == step.t) && RunOk(Do(s, step), rest)
                           && Run(Do(s, step), rest) == end;
    var steps := [step] + rest;
    assert steps[1..] == rest && forall r :: r in steps ==> r.t == step.t;
    assert RunOk(s, steps) && Run(s, steps) == end;
  }

  /** One step nearer to the same guard, or there. */
  ghost predicate Nearer(s: State, s': State, t: Tid)
    requires t in s.pc && t in s.guards
  {
    || s' == Granted(s, t)
    || (&& s'.pc.Keys == s.pc.Keys && s'.guards == s.guards && (s'.owner == 0 || s'.owner == t)
        && LockRank(s, t).Some? && LockRank(s', t).Some? && LockRank(s', t).value < LockRank(s, t).value
        && Granted(s', t) == Granted(s, t))
  }

  lemma LockStepNext(s: State, t: Tid)
    requires t in s.pc && t in s.guards && LockRank(s, t).Some? && (s.owner == 0 || s.owner == t) && s.guards[t] < MAX
    requires ThreadOk(s.owner, s.depth, t, s.pc[t], s.guards[t])
    ensures Can(s, LockStep(s.pc[t], t)) && Nearer(s, Do(s, LockStep(s.pc[t], t)), t)
  {
    var s' := Do(s, LockStep(s.pc[t], t));
    assert s'.pc[t := Outside] == s.pc[t := Outside];
  }

  /** Whoever is in `lock` while it is free or its own gets its guard by its own steps, without a wait. */
  lemma {:induction false} Gets(s: State, t: Tid)
    requires Inv(s) && t in s.pc && LockRank(s, t).Some? && (s.owner == 0 || s.owner == t) && s.guards[t] < MAX
    ensures LeadsAlone(s, t, Granted(s, t))
    decreases LockRank(s, t).value
  {
    var step := LockStep(s.pc[t], t);
    assert ThreadOk(s.owner, s.depth, t, s.pc[t], s.guards[t]);
    LockStepNext(s, t);
    StepKeepsInv(s, step);
    hide Inv, Can, Do, LeadsAlone, LockRank, ThreadOk;
    if Do(s, step) == Granted(s, t) {
      AloneNow(Granted(s, t), t);
    } else {
      Gets(Do(s, step), t);
    }
    AloneAfter(s, step, Granted(s, t));
  }

  lemma CallEnters(s: State, t: Tid)
    requires Inv(s) && t in s.pc && t in s.guards && s.pc[t] == Outside && (s.owner == 0 || s.owner == t)
    ensures Can(s, Call(t))
    ensures var s' := Do(s, Call(t));
            && Inv(s') && t in s'.pc && LockRank(s', t).Some? && (s'.owner == 0 || s'.owner == t)
            && s'.guards == s.guards && Granted(s', t) == Granted(s, t)
  {
    StepKeepsInv(s, Call(t));
    hide Inv;
    assert Do(s, Call(t)).pc[t := Outside] == s.pc[t := Outside];
  }

  lemma Calls(s: State, t: Tid)
    requires Inv(s) && t in s.pc && t in s.guards && s.pc[t] == Outside && (s.owner == 0 || s.owner == t)
    requires s.guards[t] < MAX
    ensures LeadsAlone(s, t, Granted(s, t))
  {
    hide Inv, LeadsAlone, Can, Do;
    CallEnters(s, t);
    Gets(Do(s, Call(t)), t);
    AloneAfter(s, Call(t), Granted(s, t));
  }

  /** Re-entry succeeds from everywhere: a thread that holds guards and is in `lock`, or calls it, returns with one more
      by its own steps, whatever the others are doing. */
  lemma HolderGetsGuard(s: State, t: Tid)
    requires Reachable(s) && t in s.pc && t in s.guards && 0 < s.guards[t] < MAX
    ensures LeadsAlone(s, t, Granted(s, t))
  {
    ReachableInv(s);
    HolderNeverWaits(s, t);
    hide Inv, LeadsAlone, Reachable;
    if s.pc[t] == Outside { Calls(s, t); } else { Gets(s, t); }
  }

  /** A free lock is there for the asking. */
  lemma FreeLockTaken(s: State, t: Tid)
    requires Reachable(s) && t in s.pc && t in s.guards && s.pc[t] == Outside && s.owner == 0
    ensures s.guards[t] == 0 && LeadsAlone(s, t, Granted(s, t))
  {
    ReachableInv(s);
    assert ThreadOk(s.owner, s.depth, t, s.pc[t], s.guards[t]);
    hide Inv, LeadsAlone, Reachable;
    Calls(s, t);
  }

  /** Dropping a guard: one less; the last one frees the lock and wakes a sleeper if there is any. */
  ghost predicate Released(s: State, end: State, t: Tid)
    requires t in s.guards && s.guards[t] > 0
  {
    && end.guards == s.guards[t := s.guards[t] - 1] && end.depth == s.guards[t] - 1
    && end.owner == (if s.guards[t] == 1 then 0 else t)
    && if s.guards[t] == 1 && exists u :: u in s.pc && s.pc[u].Sleeping?
       then exists u :: u in s.pc && s.pc[u].Sleeping? && end.pc == s.pc[u := Loading]
       else end.pc == s.pc
  }

  /** `unlock` returns by its own steps and does what dropping a guard should. */
  lemma UnlockReturns(s: State, t: Tid) returns (end: State)
    requires Reachable(s) && t in s.pc && t in s.guards && s.pc[t] == Outside && s.guards[t] > 0
    ensures LeadsAlone(s, t, end) && Released(s, end, t)
  {
    ReachableInv(s);
    assert ThreadOk(s.owner, s.depth, t, s.pc[t], s.guards[t]);
    hide Inv, Reachable, LeadsAlone, ThreadOk;
    var s1 := Do(s, Drop(t));
    if s.guards[t] > 1 {
      end := s1;
      AloneNow(end, t);
      assert s.pc[t := Outside] == s.pc;
    } else {
      var woken := LastDropEnds(s1, t, s.pc);
      end := State(0, 0, if woken.Some? then s.pc[woken.value := Loading] else s.pc, s1.guards);
    }
    AloneAfter(s, Drop(t), end);
  }

  /** Clear the owner, wake one sleeper. */
  lemma LastDropEnds(s: State, t: Tid, pc: map<Tid, Pc>) returns (woken: Option<Tid>)
    requires t in pc && pc[t] == Outside && t in s.guards && s.pc == pc[t := Clearing]
    ensures woken.Some? ==> woken.value in pc && pc[woken.value].Sleeping?
    ensures woken.None? ==> forall u :: u in pc ==> !pc[u].Sleeping?
    ensures LeadsAlone(s, t, State(0, s.depth, if woken.Some? then pc[woken.value := Loading] else pc, s.guards))
  {
    hide LeadsAlone;
    woken := None;
    if u :| u in pc && pc[u].Sleeping? { woken := Some(u); }
    var after := if woken.Some? then pc[woken.value := Loading] else pc;
    var end := State(0, s.depth, after, s.guards);
    var s1 := Do(s, Clear(t));
    assert Do(s1, Wake(t, woken)).pc == after;
    AloneNow(end, t);
    AloneAfter(s1, Wake(t, woken), end);
    AloneAfter(s, Clear(t), end);
  }

  // ----- Refinement -----

  ghost function Abstraction(s: State): Lock {
    if s.depth == 0 then Free else Held(s.owner, s.depth)
  }

  ghost function ActionOf(s: State, step: Step): Action {
    match step
    case Deepen(t) => if s.depth == MAX then Stutter else Acquire(t)
    case Store(t) => Acquire(t)
    case Drop(t) => Release(t)
    case _ => Stutter
  }

  lemma StepRefines(s: State, step: Step)
    requires Inv(s) && Can(s, step)
    ensures Apply(Abstraction(s), ActionOf(s, step)) == Some(Abstraction(Do(s, step)))
  {
    assert ThreadOk(s.owner, s.depth, step.t, s.pc[step.t], s.guards[step.t]);
  }

  ghost function ActionsOf(s: State, steps: seq<Step>): seq<Action>
    requires RunOk(s, steps)
    decreases |steps|
  {
    if steps == [] then [] else [ActionOf(s, steps[0])] + ActionsOf(Do(s, steps[0]), steps[1..])
  }

  /** Every run is a run of the abstract re-entrant lock. */
  lemma {:induction false} RunRefines(s: State, steps: seq<Step>)
    requires Inv(s) && RunOk(s, steps)
    ensures ApplyAll(Abstraction(s), ActionsOf(s, steps)) == Some(Abstraction(Run(s, steps)))
    decreases |steps|
  {
    if steps != [] {
      StepRefines(s, steps[0]);
      StepKeepsInv(s, steps[0]);
      RunRefines(Do(s, steps[0]), steps[1..]);
    }
  }

  // ----- Wakeups -----

  /** The lock is free and threads sleep, but nobody is left who would look at the lock again or wake them. */
  ghost predicate Stranded(s: State) {
    && s.owner == 0
    && (exists t :: t in s.pc && s.pc[t].Sleeping?)
    && !SomeoneActive(s)
  }

  /** Only waiters that went to sleep on the value 0 can be stranded. */
  lemma StrandedWaitedOnZero(s: State, t: Tid)
    requires Reachable(s) && Stranded(s) && t in s.pc && s.pc[t].Sleeping?
    ensures s.pc[t].expected == 0
  {
    ReachableInv(s);
  }

  /** No other thread will look at the owner again or has someone to wake. */
  ghost predicate OthersIdle(s: State, t: Tid) {
    forall u :: u in s.pc && u != t ==> !Active(s.pc[u]) && s.pc[u] != Waking
  }

  /** The step that strands: the lock is free, the thread waits on the value 0, and nobody else is left
      to look at the lock or to wake it. */
  ghost predicate Strands(s: State, step: Step) {
    step.Wait? && step.t in s.pc && s.owner == 0 && s.pc[step.t] == Waiting(0) && OthersIdle(s, step.t)
  }

  /** When a wakeup is lost: a step leaves threads stranded that were not before if and only if it is a
      wait on the value 0, of a free lock, with nobody else active. */
  lemma StrandsExactly(s: State, step: Step)
    requires Reachable(s) && Can(s, step) && !Stranded(s)
    ensures Stranded(Do(s, step)) <==> Strands(s, step)
  {
    ReachableInv(s);
    if Strands(s, step) {
      StrandingWait(s, step);
    } else if Do(s, step).owner == 0 {
      OtherStepStrandsNobody(s, step);
    }
  }

  lemma SleepsOnFreeLockExactly(s: State, t: Tid)
    requires Can(s, Wait(t)) && s.owner == 0
    ensures Do(s, Wait(t)).pc[t].Sleeping? <==> s.pc[t] == Waiting(0)
  {
  }

  lemma StrandingWait(s: State, step: Step)
    requires Can(s, step) && Strands(s, step)
    ensures Stranded(Do(s, step))
  {
    SleepsOnFreeLockExactly(s, step.t);
  }

  /** Any other step that leaves the lock free leaves someone active, or nobody asleep. */
  lemma OtherStepStrandsNobody(s: State, step: Step)
    requires Inv(s) && Can(s, step) && Do(s, step).owner == 0 && !Strands(s, step)
    ensures !Stranded(Do(s, step))
  {
    var s' := Do(s, step);
    assert ThreadOk(s.owner, s.depth, step.t, s.pc[step.t], s.guards[step.t]);
    var t := step.t;
    if step.Wake? {
      if step.woken.Some? { assert step.woken.value != t && s'.pc[step.woken.value] == Loading; }
    } else if step.Wait? && s.pc[t] == Waiting(0) {
      var u :| u in s.pc && u != t && (Active(s.pc[u]) || s.pc[u] == Waking);
      assert s'.pc[u] == s.pc[u];
    } else {
      assert Active(s'.pc[t]) || s'.pc[t] == Waking;
    }
  }

  // A compare-exchange is lost when it finds another owner. Runs in which none is lost are safe.

  ghost predicate SwapsWon(s: State, steps: seq<Step>)
    requires RunOk(s, steps)
    decreases |steps|
  {
    steps == [] || ((steps[0].Swap? ==> s.owner == 0) && SwapsWon(Do(s, steps[0]), steps[1..]))
  }

  /** Nobody waits, or sleeps, on the value 0. */
  ghost predicate NoZeroWait(s: State) {
    forall t :: t in s.pc ==> s.pc[t] != Waiting(0) && s.pc[t] != Sleeping(0)
  }

  lemma ZeroWaitFollowsLostSwap(s: State, step: Step)
    requires Can(s, step) && s.pc[step.t] != Waiting(0)
    ensures Do(s, step).pc[step.t] == Waiting(0) <==> step.Swap? && s.owner != 0
  {
  }

  lemma {:induction false} WonRunHasNoZeroWait(s: State, steps: seq<Step>)
    requires NoZeroWait(s) && RunOk(s, steps) && SwapsWon(s, steps)
    ensures NoZeroWait(Run(s, steps))
    decreases |steps|
  {
    if steps != [] {
      ZeroWaitFollowsLostSwap(s, steps[0]);
      WonRunHasNoZeroWait(Do(s, steps[0]), steps[1..]);
    }
  }

  /** A run in which no compare-exchange is lost never strands anyone. */
  lemma WonRunStrandsNobody(threads: set<Tid>, steps: seq<Step>)
    requires 0 !in threads && RunOk(Start(threads), steps) && SwapsWon(Start(threads), steps)
    ensures !Stranded(Run(Start(threads), steps))
  {
    WonRunHasNoZeroWait(Start(threads), steps);
    var end := Run(Start(threads), steps);
    assert Reachable(end);
    if Stranded(end) {
      var t :| t in end.pc && end.pc[t].Sleeping?;
      StrandedWaitedOnZero(end, t);
    }
  }

  /** Stranding shows in the run: one of its steps is the one that strands. */
  lemma {:induction false} StrandedRunHasStep(s: State, steps: seq<Step>) returns (i: nat)
    requires Reachable(s) && RunOk(s, steps) && !Stranded(s) && Stranded(Run(s, steps))
    ensures i < |steps| && RunOk(s, steps[..i]) && Strands(Run(s, steps[..i]), steps[i])
    decreases |steps|
  {
    var next := Do(s, steps[0]);
    ReachableStep(s, steps[0]);
    if Stranded(next) {
      StrandsExactly(s, steps[0]);
      i := 0;
    } else {
      var j := StrandedRunHasStep(next, steps[1..]);
      i := j + 1;
      assert steps[..i][1..] == steps[1..][..j];
    }
  }

  lemma ReachableStep(s: State, step: Step)
    requires Reachable(s) && Can(s, step)
    ensures Reachable(Do(s, step))
  {
    var threads, steps :| 0 !in threads && RunOk(Start(threads), steps) && s == Run(Start(threads), steps);
    RunAppend(Start(threads), steps, step);
  }

  lemma {:induction false} RunAppend(s: State, steps: seq<Step>, step: Step)
    requires RunOk(s, steps) && Can(Run(s, steps), step)
    ensures RunOk(s, steps + [step]) && Run(s, steps + [step]) == Do(Run(s, steps), step)
    decreases |steps|
  {
    if steps == [] {
      assert [step][1..] == [];
    } else {
      assert (steps + [step])[1..] == steps[1..] + [step];
      RunAppend(Do(s, steps[0]), steps[1..], step);
    }
  }

  /** A state of threads 1 and 2 in which thread 1 holds every guard there is. */
  function Two(owner: Tid, depth: nat, one: Pc, two: Pc): State {
    State(owner, depth, map[1 := one, 2 := two], map[1 := depth, 2 := 0])
  }

  ghost predicate Leads(s: State, end: State) {
    exists steps :: RunOk(s, steps) && Run(s, steps) == end
  }

  lemma LeadsAfter(s: State, step: Step, end: State)
    requires Can(s, step) && Leads(Do(s, step), end)
    ensures Leads(s, end)
  {
    var rest :| RunOk(Do(s, step), rest) && Run(Do(s, step), rest) == end;
    var steps := [step] + rest;
    assert steps[1..] == rest;
    assert RunOk(s, steps) && Run(s, steps) == end;
  }

  /** One hop of the run, with the state it reaches. */
  lemma Hop(s: State, step: Step, next: State, end: State)
    requires Can(s, step) && Do(s, step) == next && Leads(next, end)
    ensures Leads(s, end)
  {
    LeadsAfter(s, step, end);
  }

  lemma LoserFallsAsleep()
    ensures Leads(Two(0, 0, Waking, Waiting(0)), Two(0, 0, Outside, Sleeping(0)))
  {
    hide RunOk, Run, Leads;
    var end := Two(0, 0, Outside, Sleeping(0));
    NoHop(end);
    Hop(Two(0, 0, Outside, Waiting(0)), Wait(2), end, end);
    NobodyToWake(end);
  }

  lemma NobodyToWake(end: State)
    requires Leads(Two(0, 0, Outside, Waiting(0)), end)
    ensures Leads(Two(0, 0, Waking, Waiting(0)), end)
  {
    hide RunOk, Run, Leads;
    Hop(Two(0, 0, Waking, Waiting(0)), Wake(1, None), Two(0, 0, Outside, Waiting(0)), end);
  }

  lemma NoHop(s: State)
    ensures Leads(s, s)
  {
    assert RunOk(s, []) && Run(s, []) == s;
  }

  lemma WinnerUnlocks(end: State)
    requires Leads(Two(0, 0, Waking, Waiting(0)), end)
    ensures Leads(Two(1, 1, Outside, Swapping), end)
  {
    hide RunOk, Run, Leads;
    Hop(Two(1, 0, Clearing, Waiting(0)), Clear(1), Two(0, 0, Waking, Waiting(0)), end);
    WinnerDrops(end);
  }

  lemma WinnerDrops(end: State)
    requires Leads(Two(1, 0, Clearing, Waiting(0)), end)
    ensures Leads(Two(1, 1, Outside, Swapping), end)
  {
    hide RunOk, Run, Leads;
    Hop(Two(1, 1, Outside, Waiting(0)), Drop(1), Two(1, 0, Clearing, Waiting(0)), end);
    Hop(Two(1, 1, Outside, Swapping), Swap(2), Two(1, 1, Outside, Waiting(0)), end);
  }

  lemma WinnerLocks(end: State)
    requires Leads(Two(1, 1, Outside, Swapping), end)
    ensures Leads(Two(0, 0, Loading, Swapping), end)
  {
    hide RunOk, Run, Leads;
    Hop(Two(1, 0, Storing, Swapping), Store(1), Two(1, 1, Outside, Swapping), end);
    WinnerSwaps(end);
  }

  lemma WinnerSwaps(end: State)
    requires Leads(Two(1, 0, Storing, Swapping), end)
    ensures Leads(Two(0, 0, Loading, Swapping), end)
  {
    hide RunOk, Run, Leads;
    Hop(Two(0, 0, Swapping, Swapping), Swap(1), Two(1, 0, Storing, Swapping), end);
    Hop(Two(0, 0, Loading, Swapping), Load(1), Two(0, 0, Swapping, Swapping), end);
  }

  lemma BothEnter(end: State)
    requires Leads(Two(0, 0, Loading, Swapping), end)
    ensures Leads(Two(0, 0, Outside, Outside), end)
  {
    hide RunOk, Run, Leads;
    Hop(Two(0, 0, Outside, Swapping), Call(1), Two(0, 0, Loading, Swapping), end);
    Hop(Two(0, 0, Outside, Loading), Load(2), Two(0, 0, Outside, Swapping), end);
    Hop(Two(0, 0, Outside, Outside), Call(2), Two(0, 0, Outside, Loading), end);
  }

  /** It does happen: thread 2 loses the exchange to thread 1, which locks, unlocks and finds nobody to
      wake before thread 2 goes to sleep on the value 0. */
  lemma StrandedIsReachable()
    ensures exists s :: Reachable(s) && Stranded(s)
  {
    hide Leads, RunOk, Run, Reachable, Stranded, Two;
    var end := Two(0, 0, Outside, Sleeping(0));
    LoserFallsAsleep();
    WinnerUnlocks(end);
    WinnerLocks(end);
    BothEnter(end);
    LeadsIsReachable(end);
    EndIsStranded();
  }

  lemma EndIsStranded()
    ensures Stranded(Two(0, 0, Outside, Sleeping(0)))
  {
    assert Two(0, 0, Outside, Sleeping(0)).pc[2].Sleeping?;
  }

  lemma LeadsIsReachable(end: State)
    requires Leads(Two(0, 0, Outside, Outside), end)
    ensures Reachable(end)
  {
    var threads := {1, 2};
    assert Start(threads) == Two(0, 0, Outside, Outside);
    assert 0 !in threads;
    var steps :| RunOk(Start(threads), steps) && Run(Start(threads), steps) == end;
  }
}

/** The loader lock built on a mutex and a condition variable, as a transition system over any number
    of threads: every access to the shared state is a step of its own, and any thread may go next. */
module CondvarLock {
  import opened Usize
  import opened AbstractLock

  /** Where a thread is. From `Testing` to `Returning`, and from `Dropping` to `Releasing`, it holds the
      inner mutex. */
  datatype Pc =
    | Outside                    // not in lock or unlock; may hold guards
    | Entering                   // called lock, wants the mutex
    | Testing(woken: bool)       // about to look at the owner; `woken` after a wait
    | Asleep                     // waiting on the condition variable
    | Awake                      // woken, wants the mutex back
    | Owning                     // found the lock free or its own, about to write the owner
    | Counting                   // about to increment the depth
    | Returning                  // about to release the mutex and return a guard
    | Unlocking                  // dropping a guard, wants the mutex
    | Dropping                   // about to decrement the depth
    | Clearing                   // the depth is zero, about to clear the owner
    | Notifying                  // about to notify one waiter
    | Releasing                  // about to release the mutex after unlock

  datatype State = State(mutex: Option<Tid>, owner: Option<Tid>, depth: nat, pc: map<Tid, Pc>, guards: map<Tid, nat>)

  datatype Step =
    | Call(t: Tid)
    | Take(t: Tid)
    | Test(t: Tid)
    | Own(t: Tid)
    | Count(t: Tid)
    | Return(t: Tid)
    | Drop(t: Tid)
    | Decrement(t: Tid)
    | Clear(t: Tid)
    | Notify(t: Tid, woken: Option<Tid>)
    | Unlock(t: Tid)
    | WakeSpuriously(t: Tid)

  function Start(threads: set<Tid>): State {
    State(None, None, 0, map t | t in threads :: Outside, map t | t in threads :: 0)
  }

  ghost predicate SomeoneAsleep(s: State) {
    exists t :: t in s.pc && s.pc[t] == Asleep
  }

  ghost predicate Can(s: State, step: Step) {
    && step.t in s.pc && step.t in s.guards
    && match step
       case Call(t) => s.pc[t] == Outside
       case Take(t) => s.mutex == None && s.pc[t] in {Entering, Awake, Unlocking}
       case Test(t) => s.pc[t].Testing?
       case Own(t) => s.pc[t] == Owning
       case Count(t) => s.pc[t] == Counting
       case Return(t) => s.pc[t] == Returning
       case Drop(t) => s.pc[t] == Outside && s.guards[t] > 0
       case Decrement(t) => s.pc[t] == Dropping && s.depth > 0
       case Clear(t) => s.pc[t] == Clearing
       case Notify(t, woken) =>
         && s.pc[t] == Notifying
         && (match woken
             case None => !SomeoneAsleep(s)
             case Some(u) => u in s.pc && s.pc[u] == Asleep)
       case Unlock(t) => s.pc[t] == Releasing
       case WakeSpuriously(t) => s.pc[t] == Asleep
  }

  ghost function Do(s: State, step: Step): State
    requires Can(s, step)
  {
    var t := step.t;
    match step
    case Call(_) => s.(pc := s.pc[t := Entering])
    case Take(_) =>
      var next := match s.pc[t] case Entering => Testing(false) case Awake => Testing(true) case _ => Dropping;
      s.(mutex := Some(t), pc := s.pc[t := next])
    case Test(_) =>
      if s.owner.Some? && s.owner.value != t then s.(mutex := None, pc := s.pc[t := Asleep])
      else s.(pc := s.pc[t := Owning])
    case Own(_) => s.(owner := Some(t), pc := s.pc[t := Counting])
    case Count(_) =>
      // On overflow `lock` panics: the mutex is released and no guard is returned.
      if s.depth == MAX then s.(mutex := None, pc := s.pc[t := Outside])
      else s.(depth := s.depth + 1, pc := s.pc[t := Returning])
    case Return(_) => s.(mutex := None, pc := s.pc[t := Outside], guards := s.guards[t := s.guards[t] + 1])
    case Drop(_) => s.(pc := s.pc[t := Unlocking], guards := s.guards[t := s.guards[t] - 1])
    case Decrement(_) => s.(depth := s.depth - 1, pc := s.pc[t := if s.depth == 1 then Clearing else Releasing])
    case Clear(_) => s.(owner := None, pc := s.pc[t := Notifying])
    case Notify(_, woken) =>
      var pc := match woken case None => s.pc case Some(u) => s.pc[u := Awake];
      s.(pc := pc[t := Releasing])
    case Unlock(_) => s.(mutex := None, pc := s.pc[t := Outside])
    case WakeSpuriously(_) => s.(pc := s.pc[t := Awake])
  }

  // ----- Invariant -----

  predicate HoldsMutex(pc: Pc) {
    pc.Testing? || pc in {Owning, Counting, Returning, Dropping, Clearing, Notifying, Releasing}
  }

  /** Guards a thread has, counting one that is being returned or dropped. */
  function Claims(pc: Pc, guards: nat): nat {
    guards + if pc in {Returning, Unlocking, Dropping} then 1 else 0
  }

  ghost predicate MutexOk(s: State) {
    && s.pc.Keys == s.guards.Keys
    && (s.mutex.Some? ==> s.mutex.value in s.pc)
    && (forall t :: t in s.pc ==> (HoldsMutex(s.pc[t]) <==> s.mutex == Some(t)))
  }

  /** What a thread's own position says about the owner and the depth. */
  predicate ThreadOk(owner: Option<Tid>, depth: nat, t: Tid, pc: Pc, guards: nat) {
    && (Claims(pc, guards) > 0 ==> owner == Some(t))
    && (guards > 0 ==> pc != Asleep && !YetToRecheck(pc))
    && (owner == Some(t) ==> depth == Claims(pc, guards))
    && (owner == Some(t) && depth == 0 ==> pc in {Counting, Clearing})
    && (pc in {Counting, Clearing} ==> owner == Some(t))
    && (pc == Clearing ==> depth == 0)
    && (pc == Notifying ==> owner.None?)
    && (pc == Owning ==> owner.None? || owner == Some(t))
  }

  ghost predicate OwnerOk(s: State) {
    && s.depth <= MAX
    && s.pc.Keys == s.guards.Keys
    && (s.owner.None? ==> s.depth == 0)
    && (s.owner.Some? ==> s.owner.value in s.pc)
    && (forall t :: t in s.pc ==> ThreadOk(s.owner, s.depth, t, s.pc[t], s.guards[t]))
  }

  /** A waiter that has been woken and has not looked at the owner since. */
  predicate YetToRecheck(pc: Pc) {
    pc == Awake || pc == Testing(true)
  }

  ghost predicate WakeupPending(s: State) {
    || (exists t :: t in s.pc && YetToRecheck(s.pc[t]))
    || (exists t :: t in s.pc && s.pc[t] in {Owning, Notifying})
  }

  ghost predicate Inv(s: State) {
    MutexOk(s) && OwnerOk(s) && (s.owner.None? && SomeoneAsleep(s) ==> WakeupPending(s))
  }

  lemma StartInv(threads: set<Tid>)
    ensures Inv(Start(threads))
  {
  }

  lemma StepKeepsMutex(s: State, step: Step)
    requires MutexOk(s) && Can(s, step)
    ensures MutexOk(Do(s, step))
  {
  }

  lemma OwnPositionOk(s: State, step: Step)
    requires OwnerOk(s) && Can(s, step)
    ensures var s' := Do(s, step);
            && s'.pc.Keys == s'.guards.Keys == s.pc.Keys && s'.depth <= MAX
            && (s'.owner.None? ==> s'.depth == 0) && (s'.owner.Some? ==> s'.owner.value in s'.pc)
            && ThreadOk(s'.owner, s'.depth, step.t, s'.pc[step.t], s'.guards[step.t])
  {
    OwnThreadOk(s, step);
    hide ThreadOk;
  }

  lemma OwnThreadOk(s: State, step: Step)
    requires Can(s, step) && s.depth <= MAX && (s.owner.None? ==> s.depth == 0)
    requires ThreadOk(s.owner, s.depth, step.t, s.pc[step.t], s.guards[step.t])
    ensures var s' := Do(s, step);
            s'.depth <= MAX && (s'.owner.None? ==> s'.depth == 0)
            && ThreadOk(s'.owner, s'.depth, step.t, s'.pc[step.t], s'.guards[step.t])
  {
  }

  /** Of another thread a step changes at most that it is woken; the owner and the depth change only under
      the mutex, and only in favour of the stepping thread. */
  lemma OthersUnchanged(s: State, step: Step, u: Tid)
    requires OwnerOk(s) && Can(s, step) && u in s.pc && u != step.t
    ensures var s' := Do(s, step);
            && u in s'.pc && u in s'.guards && s'.guards[u] == s.guards[u]
            && (s'.pc[u] == s.pc[u] || (s.pc[u] == Asleep && s'.pc[u] == Awake))
            && (s'.owner == Some(u) <==> s.owner == Some(u))
            && (s.owner == Some(u) ==> s'.depth == s.depth)
            && (HoldsMutex(s.pc[step.t]) || s'.owner == s.owner)
  {
    assert ThreadOk(s.owner, s.depth, step.t, s.pc[step.t], s.guards[step.t]);
  }

  lemma StepKeepsOwner(s: State, step: Step)
    requires MutexOk(s) && OwnerOk(s) && Can(s, step)
    ensures OwnerOk(Do(s, step))
  {
    var s' := Do(s, step);
    OwnPositionOk(s, step);
    forall u | u in s'.pc
      ensures ThreadOk(s'.owner, s'.depth, u, s'.pc[u], s'.guards[u])
    {
      if u != step.t {
        OthersUnchanged(s, step, u);
        hide Do, Can;
        assert ThreadOk(s.owner, s.depth, u, s.pc[u], s.guards[u]);
      }
    }
  }

  /** A step that leaves the owner alone and is not the woken thread's own look at it keeps the wakeup pending. */
  lemma OtherStepKeepsWakeup(s: State, step: Step)
    requires Inv(s) && Can(s, step) && (step.Call? || step.Take? || step.Drop? || step.Unlock?)
    ensures var s' := Do(s, step); s'.owner.None? && SomeoneAsleep(s') ==> WakeupPending(s')
  {
    var s' := Do(s, step);
    hide OwnerOk;
    if s'.owner.None? && SomeoneAsleep(s') {
      var sleeper :| sleeper in s'.pc && s'.pc[sleeper] == Asleep;
      assert s.pc[sleeper] == Asleep;
      var w :| w in s.pc && (YetToRecheck(s.pc[w]) || s.pc[w] in {Owning, Notifying});
      assert w in s'.pc && (YetToRecheck(s'.pc[w]) || s'.pc[w] in {Owning, Notifying});
    }
  }

  lemma StepKeepsWakeup(s: State, step: Step)
    requires Inv(s) && Can(s, step)
    ensures var s' := Do(s, step); s'.owner.None? && SomeoneAsleep(s') ==> WakeupPending(s')
  {
    var s' := Do(s, step);
    match step
    case Clear(t) => assert s'.pc[t] == Notifying;
    case Notify(t, None) => assert SomeoneAsleep(s') ==> SomeoneAsleep(s);
    case Notify(t, Some(u)) => assert u != t && s'.pc[u] == Awake;
    case Test(t) => assert s'.owner.None? ==> s'.pc[t] == Owning;
    case WakeSpuriously(t) => assert s'.pc[t] == Awake;
    case Own(_) =>
    case Count(_) =>
    case Return(_) => assert ThreadOk(s.owner, s.depth, step.t, s.pc[step.t], s.guards[step.t]);
    case Decrement(_) => assert ThreadOk(s.owner, s.depth, step.t, s.pc[step.t], s.guards[step.t]);
    case _ => OtherStepKeepsWakeup(s, step);
  }

  lemma StepKeepsInv(s: State, step: Step)
    requires Inv(s) && Can(s, step)
    ensures Inv(Do(s, step))
  {
    StepKeepsMutex(s, step);
    StepKeepsWakeup(s, step);
    StepKeepsOwner(s, step);
  }

  // ----- Runs -----

  ghost predicate RunOk(s: State, steps: seq<Step>)
    decreases |steps|
  {
    steps == [] || (Can(s, steps[0]) && RunOk(Do(s, steps[0]), steps[1..]))
  }

  ghost function Run(s: State, steps: seq<Step>): State
    requires RunOk(s, steps)
    decreases |steps|
  {
    if steps == [] then s else Run(Do(s, steps[0]), steps[1..])
  }

  ghost predicate Reachable(s: State) {
    exists threads, steps :: RunOk(Start(threads), steps) && s == Run(Start(threads), steps)
  }

  lemma {:induction false} RunInv(s: State, steps: seq<Step>)
    requires Inv(s) && RunOk(s, steps)
    ensures Inv(Run(s, steps))
    decreases |steps|
  {
    if steps != [] {
      StepKeepsInv(s, steps[0]);
      RunInv(Do(s, steps[0]), steps[1..]);
    }
  }

  lemma ReachableInv(s: State)
    requires Reachable(s)
    ensures Inv(s)
  {
    var threads, steps :| RunOk(Start(threads), steps) && s == Run(Start(threads), steps);
    StartInv(threads);
    RunInv(Start(threads), steps);
  }

  // ----- Theorems -----

  /** At most one thread holds guards, it is the owner, and at every moment the depth is the owner's guard
      count, plus one while a guard is being returned or dropped. */
  lemma MutualExclusion(s: State, t: Tid, u: Tid)
    requires Reachable(s) && t in s.pc && u in s.pc
    ensures s.pc.Keys == s.guards.Keys
    ensures s.guards[t] > 0 && s.guards[u] > 0 ==> t == u
    ensures s.guards[t] > 0 ==> s.owner == Some(t)
    ensures s.owner == Some(t) ==>
              s.depth == s.guards[t] + (if s.pc[t] in {Returning, Unlocking, Dropping} then 1 else 0)
    ensures s.owner.None? ==> s.depth == 0
    ensures s.owner == Some(t) && s.depth == 0 ==> s.pc[t] in {Counting, Clearing}
  {
    ReachableInv(s);
    assert ThreadOk(s.owner, s.depth, t, s.pc[t], s.guards[t]) && ThreadOk(s.owner, s.depth, u, s.pc[u], s.guards[u]);
  }

  /** No lost wakeup, barging newcomers included: whenever the lock is free and the mutex available while
      some thread sleeps, a woken thread has yet to take the mutex and look at the owner again, and it
      can do so now. */
  lemma NoLostWakeup(s: State)
    requires Reachable(s) && s.owner.None? && s.mutex.None? && SomeoneAsleep(s)
    ensures exists t :: t in s.pc && s.pc[t] == Awake && Can(s, Take(t))
  {
    ReachableInv(s);
    var t :| t in s.pc && (YetToRecheck(s.pc[t]) || s.pc[t] in {Owning, Notifying});
    assert !HoldsMutex(s.pc[t]);
    assert Can(s, Take(t));
  }

  /** The same with the mutex held: its holder is the one that is re-checking, is taking the lock or has
      still to notify, or a woken thread is waiting for the mutex. */
  lemma NoLostWakeupUnderMutex(s: State)
    requires Reachable(s) && s.owner.None? && SomeoneAsleep(s)
    ensures WakeupPending(s)
  {
    ReachableInv(s);
  }

  /** The debug assertion in `unlock` and the checked decrement of the depth always hold. */
  lemma UnlockIsBalanced(s: State, t: Tid)
    requires Reachable(s) && t in s.pc && s.pc[t] == Dropping
    ensures s.owner == Some(t) && s.depth > 0 && Can(s, Decrement(t))
  {
    ReachableInv(s);
    assert ThreadOk(s.owner, s.depth, t, s.pc[t], s.guards[t]);
  }

  // ----- Progress -----

  /** Re-entry never waits: a thread that holds guards is not asleep and has not been. */
  lemma HolderNeverWaits(s: State, t: Tid)
    requires Reachable(s) && t in s.pc && t in s.guards && s.guards[t] > 0
    ensures s.owner == Some(t) && s.pc[t] != Asleep && s.pc[t] != Awake && s.pc[t] != Testing(true)
  {
    ReachableInv(s);
    assert ThreadOk(s.owner, s.depth, t, s.pc[t], s.guards[t]);
  }

  /** Steps a thread in `lock` has left before it can return, when it need not wait. */
  function LockRank(pc: Pc): Option<nat> {
    match pc
    case Entering => Some(5)
    case Awake => Some(5)
    case Testing(_) => Some(4)
    case Owning => Some(3)
    case Counting => Some(2)
    case Returning => Some(1)
    case _ => None
  }

  /** The lock is free or the thread's own, and so is the mutex. */
  predicate Available(s: State, t: Tid) {
    (s.owner.None? || s.owner == Some(t)) && (s.mutex.None? || s.mutex == Some(t))
  }

  /** The thread has returned from `lock` with one guard more, and nothing else has happened. */
  function Granted(s: State, t: Tid): State
    requires t in s.guards
  {
    State(None, Some(t), s.guards[t] + 1, s.pc[t := Outside], s.guards[t := s.guards[t] + 1])
  }

  /** Steps of this thread alone lead from one state to the other. */
  ghost predicate LeadsAlone(s: State, t: Tid, end: State) {
    exists steps: seq<Step> :: (forall step :: step in steps ==> step.t == t) && RunOk(s, steps) && Run(s, steps) == end
  }

  lemma AloneNow(s: State, t: Tid)
    ensures LeadsAlone(s, t, s)
  {
    assert RunOk(s, []) && Run(s, []) == s;
  }

  lemma AloneAfter(s: State, step: Step, end: State)
    requires Can(s, step) && LeadsAlone(Do(s, step), step.t, end)
    ensures LeadsAlone(s, step.t, end)
  {
    var rest: seq<Step> :| (forall r :: r in rest ==> r.t == step.t) && RunOk(Do(s, step), rest)
                           && Run(Do(s, step), rest) == end;
    var steps := [step] + rest;
    assert steps[1..] == rest && forall r :: r in steps ==> r.t == step.t;
    assert RunOk(s, steps) && Run(s, steps) == end;
  }

  /** What the thread does next in `lock`. */
  function LockStep(pc: Pc, t: Tid): Step
    requires LockRank(pc).Some?
  {
    match pc
    case Entering => Take(t)
    case Awake => Take(t)
    case Testing(_) => Test(t)
    case Owning => Own(t)
    case Counting => Count(t)
    case Returning => Return(t)
  }

  lemma LockStepNext(s: State, t: Tid)
    requires MutexOk(s) && t in s.pc && LockRank(s.pc[t]).Some? && Available(s, t) && s.guards[t] < MAX
    requires ThreadOk(s.owner, s.depth, t, s.pc[t], s.guards[t]) && (s.owner.None? ==> s.depth == 0)
    ensures Can(s, LockStep(s.pc[t], t))
    ensures s.pc[t] == Returning ==> Do(s, LockStep(s.pc[t], t)) == Granted(s, t)
    ensures s.pc[t] != Returning ==> Nearer(s, Do(s, LockStep(s.pc[t], t)), t)
  {
    MutexFacts(s, t);
    hide MutexOk, Nearer, Do, Can, LockStep, ThreadOk, Granted;
    match s.pc[t]
    case Entering => TakesMutex(s, t);
    case Awake => TakesMutex(s, t);
    case Returning => ReturnsGuard(s, t);
    case _ => GoesOn(s, t);
  }

  lemma TakesMutex(s: State, t: Tid)
    requires t in s.pc && t in s.guards && s.pc[t] in {Entering, Awake} && Available(s, t) && s.mutex.None?
    ensures Can(s, LockStep(s.pc[t], t)) && Nearer(s, Do(s, LockStep(s.pc[t], t)), t)
  {
    LockStepFrame(s, t);
  }

  lemma GoesOn(s: State, t: Tid)
    requires t in s.pc && t in s.guards && (s.pc[t].Testing? || s.pc[t] in {Owning, Counting}) && Available(s, t)
    requires s.mutex == Some(t) && s.guards[t] < MAX
    requires ThreadOk(s.owner, s.depth, t, s.pc[t], s.guards[t]) && (s.owner.None? ==> s.depth == 0)
    ensures Can(s, LockStep(s.pc[t], t)) && Nearer(s, Do(s, LockStep(s.pc[t], t)), t)
  {
    LockStepFrame(s, t);
  }

  lemma ReturnsGuard(s: State, t: Tid)
    requires t in s.pc && t in s.guards && s.pc[t] == Returning
    requires ThreadOk(s.owner, s.depth, t, s.pc[t], s.guards[t])
    ensures Can(s, LockStep(s.pc[t], t)) && Do(s, LockStep(s.pc[t], t)) == Granted(s, t)
  {
  }

  lemma LockStepFrame(s: State, t: Tid)
    requires t in s.pc && t in s.guards && LockRank(s.pc[t]).Some? && s.pc[t] != Returning
    requires Can(s, LockStep(s.pc[t], t))
    ensures var s' := Do(s, LockStep(s.pc[t], t));
            s'.guards == s.guards && s'.pc.Keys == s.pc.Keys && s'.pc[t := Outside] == s.pc[t := Outside]
  {
  }

  lemma MutexFacts(s: State, t: Tid)
    requires MutexOk(s) && t in s.pc
    ensures s.pc.Keys == s.guards.Keys && (HoldsMutex(s.pc[t]) <==> s.mutex == Some(t))
  {
  }

  /** One step nearer to the same guard. */
  ghost predicate Nearer(s: State, s': State, t: Tid) {
    && s'.pc.Keys == s.pc.Keys && s'.guards == s.guards && t in s.guards && t in s.pc && Available(s', t)
    && LockRank(s.pc[t]).Some? && LockRank(s'.pc[t]) == Some(LockRank(s.pc[t]).value - 1)
    && Granted(s', t) == Granted(s, t)
  }

  /** Whoever is in `lock` while lock and mutex are free or its own gets its guard by its own steps. */
  lemma {:induction false} Gets(s: State, t: Tid)
    requires Inv(s) && t in s.pc && LockRank(s.pc[t]).Some? && Available(s, t) && s.guards[t] < MAX
    ensures LeadsAlone(s, t, Granted(s, t))
    decreases LockRank(s.pc[t]).value
  {
    var step := LockStep(s.pc[t], t);
    assert ThreadOk(s.owner, s.depth, t, s.pc[t], s.guards[t]);
    LockStepNext(s, t);
    StepKeepsInv(s, step);
    hide Inv, Can, Do, LeadsAlone, Available;
    if s.pc[t] == Returning {
      AloneNow(Granted(s, t), t);
    } else {
      Gets(Do(s, step), t);
    }
    AloneAfter(s, step, Granted(s, t));
  }

  lemma CallEnters(s: State, t: Tid)
    requires Inv(s) && t in s.pc && t in s.guards && s.pc[t] == Outside && Available(s, t)
    ensures Can(s, Call(t))
    ensures var s' := Do(s, Call(t));
            && Inv(s') && t in s'.pc && LockRank(s'.pc[t]).Some? && Available(s', t)
            && s'.guards == s.guards && Granted(s', t) == Granted(s, t)
  {
    StepKeepsInv(s, Call(t));
    hide Inv;
    assert Do(s, Call(t)).pc[t := Outside] == s.pc[t := Outside];
  }

  lemma Calls(s: State, t: Tid)
    requires Inv(s) && t in s.pc && t in s.guards && s.pc[t] == Outside && Available(s, t)
    requires s.guards[t] < MAX
    ensures LeadsAlone(s, t, Granted(s, t))
  {
    hide Inv, LeadsAlone, Can, Do, Available;
    CallEnters(s, t);
    Gets(Do(s, Call(t)), t);
    AloneAfter(s, Call(t), Granted(s, t));
  }

  /** A free lock is there for the asking: a thread that calls `lock` on it while the mutex is free gets it. */
  lemma FreeLockTaken(s: State, t: Tid)
    requires Reachable(s) && t in s.pc && t in s.guards && s.pc[t] == Outside && s.mutex.None? && s.owner.None?
    ensures s.guards[t] == 0 && LeadsAlone(s, t, Granted(s, t))
  {
    ReachableInv(s);
    assert ThreadOk(s.owner, s.depth, t, s.pc[t], s.guards[t]);
    hide Inv, LeadsAlone, Reachable;
    Calls(s, t);
  }

  /** What a step of one thread leaves of another: its guards, what it owns and where it is, except that it may be
      woken. */
  ghost predicate LeavesThread(s: State, s': State, t: Tid) {
    && t in s.pc && t in s'.pc && t in s.guards && t in s'.guards && s'.guards[t] == s.guards[t]
    && (s'.pc[t] == s.pc[t] || (s.pc[t] == Asleep && s'.pc[t] == Awake))
    && (s'.owner == Some(t) <==> s.owner == Some(t))
  }

  lemma OthersLeft(s: State, step: Step)
    requires Inv(s) && Can(s, step)
    ensures forall t :: t in s.pc && t != step.t ==> LeavesThread(s, Do(s, step), t)
  {
    forall t | t in s.pc && t != step.t
      ensures LeavesThread(s, Do(s, step), t)
    {
      OthersUnchanged(s, step, t);
      hide ThreadOk, Do, Can;
    }
  }

  /** Steps a thread that holds the mutex has left before it lets go of it. */
  function MutexRank(pc: Pc): nat {
    match pc
    case Testing(_) => 4
    case Owning => 3
    case Counting => 2
    case Returning => 1
    case Dropping => 4
    case Clearing => 3
    case Notifying => 2
    case Releasing => 1
    case _ => 0
  }

  lemma MutexStep(s: State, u: Tid) returns (step: Step)
    requires Inv(s) && s.mutex == Some(u)
    ensures step.t == u && Can(s, step) && u in s.pc && u in Do(s, step).pc
    ensures MutexRank(Do(s, step).pc[u]) < MutexRank(s.pc[u])
    ensures Do(s, step).mutex == None || Do(s, step).mutex == Some(u)
  {
    assert ThreadOk(s.owner, s.depth, u, s.pc[u], s.guards[u]) && HoldsMutex(s.pc[u]);
    hide OwnerOk, ThreadOk;
    match s.pc[u]
    case Testing(_) => step := Test(u);
    case Owning => step := Own(u);
    case Counting => step := Count(u);
    case Returning => step := Return(u);
    case Dropping =>
      step := Decrement(u);
      assert s.depth > 0 by { DroppingHasDepth(s, u); }
    case Clearing => step := Clear(u);
    case Notifying =>
      if w :| w in s.pc && s.pc[w] == Asleep {
        step := Notify(u, Some(w));
      } else {
        step := Notify(u, None);
      }
    case Releasing => step := Unlock(u);
  }

  lemma DroppingHasDepth(s: State, u: Tid)
    requires Inv(s) && u in s.pc && s.pc[u] == Dropping
    ensures s.depth > 0
  {
    assert ThreadOk(s.owner, s.depth, u, s.pc[u], s.guards[u]);
  }

  /** Whoever holds the mutex lets go of it by its own steps, and leaves every other thread alone but for a wakeup. */
  lemma {:induction false} MutexLetGo(s: State, u: Tid) returns (end: State)
    requires Inv(s) && s.mutex == Some(u)
    ensures LeadsAlone(s, u, end) && Inv(end) && end.mutex.None?
    ensures forall t :: t in s.pc && t != u ==> LeavesThread(s, end, t)
    decreases if u in s.pc then MutexRank(s.pc[u]) else 0
  {
    hide Inv, Can, Do, LeadsAlone;
    var step := MutexStep(s, u);
    StepKeepsInv(s, step);
    var s' := Do(s, step);
    OthersLeft(s, step);
    if s'.mutex.None? {
      end := s';
      AloneNow(end, u);
    } else {
      end := MutexLetGo(s', u);
      forall t | t in s.pc && t != u
        ensures LeavesThread(s, end, t)
      {
        assert LeavesThread(s, s', t) && LeavesThread(s', end, t);
      }
    }
    AloneAfter(s, step, end);
  }

  /** Re-entry succeeds from everywhere: a thread that holds guards and is in `lock`, or calls it, can go on to return
      with one more, whatever the others are doing. It waits for the mutex at most, which its holder can let
      go of at once. */
  lemma HolderGetsGuard(s: State, t: Tid) returns (middle: State, end: State)
    requires Reachable(s) && t in s.pc && t in s.guards && 0 < s.guards[t] < MAX
    requires s.pc[t] == Outside || LockRank(s.pc[t]).Some?
    ensures s.mutex.None? || s.mutex == Some(t) ==> middle == s
    ensures s.mutex.Some? ==> s.mutex == Some(t) || LeadsAlone(s, s.mutex.value, middle)
    ensures LeadsAlone(middle, t, end)
    ensures t in end.pc && end.pc[t] == Outside && t in end.guards && end.guards[t] == s.guards[t] + 1
    ensures end.owner == Some(t) && end.depth == end.guards[t] && end.mutex.None?
  {
    ReachableInv(s);
    HolderNeverWaits(s, t);
    middle := s;
    if s.mutex.Some? && s.mutex != Some(t) {
      middle := MutexLetGo(s, s.mutex.value);
      assert LeavesThread(s, middle, t);
    }
    hide LeadsAlone, RunOk, Run, Reachable;
    if middle.pc[t] == Outside {
      assert middle.mutex.None? by { MutexFree(middle, t); }
      Calls(middle, t);
    } else {
      Gets(middle, t);
    }
    end := Granted(middle, t);
  }

  lemma MutexFree(s: State, t: Tid)
    requires MutexOk(s) && t in s.pc && s.pc[t] == Outside
    ensures s.mutex != Some(t)
  {
  }

  /** Dropping a guard: one less; the last one frees the lock and wakes a sleeper if there is any. */
  ghost predicate Released(s: State, end: State, t: Tid)
    requires t in s.guards && s.guards[t] > 0
  {
    && end.mutex.None? && end.guards == s.guards[t := s.guards[t] - 1] && end.depth == s.guards[t] - 1
    && end.owner == (if s.guards[t] == 1 then None else Some(t))
    && if s.guards[t] == 1 && SomeoneAsleep(s)
       then exists u :: u in s.pc && s.pc[u] == Asleep && end.pc == s.pc[u := Awake]
       else end.pc == s.pc
  }

  /** `unlock` returns by its own steps when the mutex is free, and does what dropping a guard should. */
  lemma UnlockReturns(s: State, t: Tid) returns (end: State)
    requires Reachable(s) && t in s.pc && t in s.guards && s.pc[t] == Outside && s.guards[t] > 0 && s.mutex.None?
    ensures LeadsAlone(s, t, end) && Released(s, end, t)
  {
    ReachableInv(s);
    var n := s.guards[t] - 1;
    assert ThreadOk(s.owner, s.depth, t, s.pc[t], s.guards[t]);
    hide Inv, Reachable, LeadsAlone, ThreadOk;
    var fewer := s.guards[t := n];
    var s3 := State(Some(t), Some(t), n, s.pc[t := if n == 0 then Clearing else Releasing], fewer);
    if n == 0 {
      var woken := LastDropEnds(State(Some(t), Some(t), 0, s.pc[t := Clearing], fewer), t, s.pc);
      end := State(None, None, 0, if woken.Some? then s.pc[woken.value := Awake] else s.pc, fewer);
      assert SomeoneAsleep(s) <==> woken.Some?;
    } else {
      end := State(None, Some(t), n, s.pc, fewer);
      AloneNow(end, t);
      assert s3.pc[t := Outside] == s.pc;
      AloneAfter(s3, Unlock(t), end);
    }
    DropBegins(s, t, s3, end);
  }

  /** Drop, take the mutex, decrement. */
  lemma DropBegins(s: State, t: Tid, s3: State, end: State)
    requires t in s.pc && t in s.guards && s.pc[t] == Outside && s.guards[t] > 0 && s.mutex.None?
    requires s.owner == Some(t) && s.depth == s.guards[t] && LeadsAlone(s3, t, end)
    requires s3 == State(Some(t), Some(t), s.guards[t] - 1,
                         s.pc[t := if s.guards[t] == 1 then Clearing else Releasing], s.guards[t := s.guards[t] - 1])
    ensures LeadsAlone(s, t, end)
  {
    hide LeadsAlone;
    var s1 := Do(s, Drop(t));
    var s2 := Do(s1, Take(t));
    assert Do(s2, Decrement(t)) == s3;
    AloneAfter(s2, Decrement(t), end);
    AloneAfter(s1, Take(t), end);
    AloneAfter(s, Drop(t), end);
  }

  /** Clear the owner, notify one sleeper, let go of the mutex. */
  lemma LastDropEnds(s: State, t: Tid, pc: map<Tid, Pc>) returns (woken: Option<Tid>)
    requires t in pc && pc[t] == Outside && t in s.guards && s.pc == pc[t := Clearing]
    ensures woken.Some? ==> woken.value in pc && pc[woken.value] == Asleep
    ensures woken.None? ==> forall u :: u in pc ==> pc[u] != Asleep
    ensures LeadsAlone(s, t, State(None, None, s.depth, if woken.Some? then pc[woken.value := Awake] else pc, s.guards))
  {
    hide LeadsAlone;
    woken := None;
    if u :| u in pc && pc[u] == Asleep { woken := Some(u); }
    var after := if woken.Some? then pc[woken.value := Awake] else pc;
    var end := State(None, None, s.depth, after, s.guards);
    var s1 := Do(s, Clear(t));
    var s2 := Do(s1, Notify(t, woken));
    assert s2.pc[t := Outside] == after;
    AloneNow(end, t);
    AloneAfter(s2, Unlock(t), end);
    AloneAfter(s1, Notify(t, woken), end);
    AloneAfter(s, Clear(t), end);
  }

  // ----- Refinement -----

  ghost function Abstraction(s: State): Lock {
    if s.depth == 0 || s.owner.None? then Free else Held(s.owner.value, s.depth)
  }

  ghost function ActionOf(s: State, step: Step): Action {
    match step
    case Count(t) => if s.depth == MAX then Stutter else Acquire(t)
    case Decrement(t) => Release(t)
    case _ => Stutter
  }

  lemma StepRefines(s: State, step: Step)
    requires Inv(s) && Can(s, step)
    ensures Apply(Abstraction(s), ActionOf(s, step)) == Some(Abstraction(Do(s, step)))
  {
    if step.Decrement? {
      assert ThreadOk(s.owner, s.depth, step.t, s.pc[step.t], s.guards[step.t]);
    }
  }

  ghost function ActionsOf(s: State, steps: seq<Step>): seq<Action>
    requires RunOk(s, steps)
    decreases |steps|
  {
    if steps == [] then [] else [ActionOf(s, steps[0])] + ActionsOf(Do(s, steps[0]), steps[1..])
  }

  /** Every run is a run of the abstract re-entrant lock. */
  lemma {:induction false} RunRefines(s: State, steps: seq<Step>)
    requires Inv(s) && RunOk(s, steps)
    ensures ApplyAll(Abstraction(s), ActionsOf(s, steps)) == Some(Abstraction(Run(s, steps)))
    decreases |steps|
  {
    if steps != [] {
      StepRefines(s, steps[0]);
      StepKeepsInv(s, steps[0]);
      RunRefines(Do(s, steps[0]), steps[1..]);
    }
  }
}

/** What the loader lock is for: one thread at a time, re-entrant, released by the outermost guard. */
module AbstractLock {
  import opened Usize

  type Tid = nat

  datatype Lock = Free | Held(owner: Tid, depth: nat)

  datatype Action = Acquire(t: Tid) | Release(t: Tid) | Stutter

  /** The lock after an action, or nothing if the action is not allowed. */
  function Apply(l: Lock, a: Action): Option<Lock> {
    match (a, l)
    case (Stutter, _) => Some(l)
    case (Acquire(t), Free) => Some(Held(t, 1))
    case (Acquire(t), Held(o, d)) => if o == t then Some(Held(t, d + 1)) else None
    case (Release(t), Free) => None
    case (Release(t), Held(o, d)) =>
      if o != t || d == 0 then None else if d == 1 then Some(Free) else Some(Held(t, d - 1))
  }

  function ApplyAll(l: Lock, actions: seq<Action>): Option<Lock>
    decreases |actions|
  {
    if actions == [] then Some(l)
    else
      match Apply(l, actions[0])
      case None => None
      case Some(next) => ApplyAll(next, actions[1..])
  }

  /** Acquisitions minus releases by one thread. */
  function Balance(actions: seq<Action>, t: Tid): int {
    if actions == [] then 0
    else
      (match actions[0]
       case Acquire(u) => if u == t then 1 else 0
       case Release(u) => if u == t then -1 else 0
       case Stutter => 0) + Balance(actions[1..], t)
  }

  function DepthOf(l: Lock, t: Tid): nat {
    match l
    case Free => 0
    case Held(o, d) => if o == t then d else 0
  }

  /** Along every allowed run, a thread's depth is its acquisitions minus its releases. */
  lemma {:induction false} DepthIsBalance(l: Lock, actions: seq<Action>, t: Tid)
    requires ApplyAll(l, actions).Some?
    ensures DepthOf(ApplyAll(l, actions).value, t) == DepthOf(l, t) + Balance(actions, t)
    decreases |actions|
  {
    if actions != [] {
      DepthIsBalance(Apply(l, actions[0]).value, actions[1..], t);
    }
  }
}

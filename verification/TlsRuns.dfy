/** Whole runs of the TLS runtime: any sequence of resolver calls, address lookups, thread starts and
    exits, from the initial state. */
module TlsRuns {
  import opened Usize
  import opened TlsLayout
  import opened TlsState
  import opened TlsInvariant
  import opened TlsRegister
  import opened TlsPublish
  import opened TlsThreads

  /** One call into the runtime, with what the allocator and the kernel answer. `Supply` and `Reclaim`
      are the C library handing over and withdrawing storage of its own. */
  datatype Op =
    | OpRegister(info: TlsInfo, request: Request, grant: Grant)
    | OpPublish(source: Source, id: nat)
    | OpUnregister(id: nat)
    | OpGetAddr(tp: nat, id: nat, tiOffset: nat, ptr: nat)
    | OpAllocate(base: nat, dtv: nat)
    | OpInit(tp: nat, dtv: nat)
    | OpDeallocate(tp: nat, deallocTcb: bool)
    | OpSupply(tp: nat, storage: Storage)
    | OpReclaim(tp: nat)

  /** What the environment owes the runtime before each call. */
  ghost predicate Enabled(s: Tls, op: Op) {
    match op
    case OpRegister(info, request, grant) => request.RequestStatic? && s.area.None? ==> GrantOk(s, grant)
    case OpPublish(source, id) => PublishOk(s, source, id)
    case OpUnregister(id) => true
    case OpGetAddr(tp, id, _, ptr) => (tp != 0 ==> tp in s.storage) && PtrFresh(s, ptr)
    case OpAllocate(base, dtv) =>
      && BaseFresh(s, base)
      && var (s1, tp) := AllocateStorage(s, base);
         tp.Some? ==> InitEnabled(s1, tp.value, dtv)
    case OpInit(tp, dtv) => InitEnabled(s, tp, dtv)
    case OpDeallocate(tp, _) => tp != 0 ==> tp in s.storage
    case OpSupply(tp, st) => tp != 0 && tp !in s.storage && st.tcb.dtv == 0
    case OpReclaim(tp) =>
      && tp in s.storage && s.storage[tp].tcb.dtv == 0
      && (forall r :: r in s.records ==> r.tp != tp)
      && (forall a :: a in s.allocations ==> a.tp != tp)
      && (s.area.Some? ==> s.area.value.tp != tp)
  }

  ghost function StepAllocate(s: Tls, base: nat, dtv: nat): (t: Tls)
    requires Inv(s) && Enabled(s, OpAllocate(base, dtv))
    ensures Inv(t)
  {
    AllocateStorageKeeps(s, base);
    match AllocateStorage(s, base)
    case (s1, None) => s1
    case (s1, Some(tp)) =>
      InitWrites(s1, tp, dtv);
      Init(s1, tp, dtv)
  }

  ghost function StepPublish(s: Tls, source: Source, id: nat): (t: Tls)
    requires Inv(s) && PublishOk(s, source, id)
    ensures Inv(t)
  {
    PublishInitOk(s, source, id);
    PublishKeeps(s, source, id);
    Publish(s, source, id).0
  }

  ghost function StepInit(s: Tls, tp: nat, dtv: nat): (t: Tls)
    requires Inv(s) && InitEnabled(s, tp, dtv)
    ensures Inv(t)
  {
    InitWrites(s, tp, dtv);
    Init(s, tp, dtv)
  }

  ghost function Step(s: Tls, op: Op): (t: Tls)
    requires Inv(s) && Enabled(s, op)
    ensures Inv(t)
  {
    StepKeeps(s, op);
    match op
    case OpRegister(info, request, grant) => Register(s, info, request, grant).0
    case OpPublish(source, id) => StepPublish(s, source, id)
    case OpUnregister(id) => Unregister(s, id)
    case OpGetAddr(tp, id, tiOffset, ptr) => GetAddr(s, tp, id, tiOffset, ptr).0
    case OpAllocate(base, dtv) => StepAllocate(s, base, dtv)
    case OpInit(tp, dtv) => StepInit(s, tp, dtv)
    case OpDeallocate(tp, deallocTcb) => DlDeallocate(s, tp, deallocTcb)
    case OpSupply(tp, st) => s.(storage := s.storage[tp := st])
    case OpReclaim(tp) => s.(storage := s.storage - {tp})
  }

  /** Publishing a live module succeeds; publishing an unknown or dead id changes nothing. */
  lemma PublishKeeps(s: Tls, source: Source, id: nat)
    requires Inv(s) && PublishOk(s, source, id)
    ensures InitTlsOk(s, source, id)
    ensures Inv(Publish(s, source, id).0)
    ensures Lookup(s, id).Some? <==> Publish(s, source, id).1.Ok?
    ensures Lookup(s, id).None? ==> Publish(s, source, id) == (s, Err(InvalidModuleId(id)))
    ensures Lookup(s, id).Some? && Lookup(s, id).value.Static? ==>
              var info, offset := Lookup(s, id).value.info, Lookup(s, id).value.offset;
              Published(s, Publish(s, source, id).0, StaticModule(id, info, Some(source), offset))
  {
    PublishInitOk(s, source, id);
    match Lookup(s, id)
    case None =>
    case Some(m) =>
      FindOffsetFinds(s.resolver, id, OffsetOf(m));
      match m
      case Static(info, offset) => PublishStatic(s, StaticModule(id, info, Some(source), offset));
      case Dynamic(info, old_) => PublishDynamic(s, id, info, source);
  }

  lemma PublishDynamic(s: Tls, id: nat, info: TlsInfo, source: Source)
    requires Inv(s) && Lookup(s, id).Some? && Lookup(s, id).value.Dynamic? && Lookup(s, id).value.info == info
    requires source.Image? ==> |source.bytes| <= info.memsz
    ensures Inv(s.(modules := s.modules[id - 1 := Some(Dynamic(info, Some(source)))]))
  {
    var t := s.(modules := s.modules[id - 1 := Some(Dynamic(info, Some(source)))]);
    assert forall i: nat :: i != id ==> Lookup(t, i) == Lookup(s, i);
    MemoryFrame(s, t);
    PublishDynamicTables(s, t, id);
    hide MemoryOk, TablesOk, PublishedHolds;
    assert ContentsOk(t) by { SamePlaced(s, t); }
  }

  lemma PublishDynamicTables(s: Tls, t: Tls, id: nat)
    requires TablesOk(s) && t == s.(modules := t.modules) && |t.modules| == |s.modules| && 1 <= id <= |s.modules|
    requires forall i: nat :: i != id ==> Lookup(t, i) == Lookup(s, i)
    requires Lookup(s, id).Some? && Lookup(s, id).value.Dynamic? && Lookup(t, id).Some? && Lookup(t, id).value.Dynamic?
    requires t.modules == s.modules[id - 1 := Lookup(t, id)]
    requires match Lookup(t, id) case Some(Dynamic(info, Some(Image(b)))) => |b| <= info.memsz case _ => true
    ensures TablesOk(t)
  {
    if s.area.Some? {
      assert forall k :: 0 <= k < |t.placed| && PlacementOk(s, s.area.value, t.placed[k])
                         ==> PlacementOk(t, t.area.value, t.placed[k]);
    }
  }

  /** Every operation keeps the invariant. */
  lemma StepKeeps(s: Tls, op: Op)
    requires Inv(s) && Enabled(s, op)
    ensures match op
            case OpRegister(info, request, grant) => Inv(Register(s, info, request, grant).0)
            case OpUnregister(id) => Inv(Unregister(s, id))
            case OpGetAddr(tp, id, tiOffset, ptr) => Inv(GetAddr(s, tp, id, tiOffset, ptr).0)
            case OpDeallocate(tp, deallocTcb) => Inv(DlDeallocate(s, tp, deallocTcb))
            case OpSupply(tp, st) => Inv(s.(storage := s.storage[tp := st]))
            case OpReclaim(tp) => Inv(s.(storage := s.storage - {tp}))
            case _ => true
  {
    match op
    case OpRegister(info, RequestDynamic, grant) => RegisterDynamicKeeps(s, info, grant);
    case OpRegister(info, RequestStatic, grant) => RegisterStaticKeeps(s, info, grant);
    case OpRegister(info, RequestStaticAt(offset), grant) => AddStaticKeeps(s, info, offset, grant);
    case OpUnregister(id) => UnregisterKeeps(s, id);
    case OpGetAddr(tp, id, tiOffset, ptr) => GetAddrKeeps(s, tp, id, tiOffset, ptr);
    case OpDeallocate(tp, deallocTcb) => DlDeallocateKeeps(s, tp, deallocTcb);
    case OpSupply(tp, st) =>
      NewStorageKeeps(s, tp, st, {});
      assert s.(storage := s.storage[tp := st])
          == s.(storage := s.storage[tp := st], allocations := s.allocations + {});
    case OpReclaim(tp) => ReclaimKeeps(s, tp);
    case _ =>
  }

  ghost predicate RunOk(s: Tls, ops: seq<Op>)
    requires Inv(s)
    decreases |ops|
  {
    ops == [] || (Enabled(s, ops[0]) && RunOk(Step(s, ops[0]), ops[1..]))
  }

  ghost function Run(s: Tls, ops: seq<Op>): (t: Tls)
    requires Inv(s) && RunOk(s, ops)
    ensures Inv(t)
    decreases |ops|
  {
    if ops == [] then s else Run(Step(s, ops[0]), ops[1..])
  }

  ghost predicate Reachable(s: Tls) {
    exists ops :: Inv(INITIAL) && RunOk(INITIAL, ops) && s == Run(INITIAL, ops)
  }

  lemma InitialReachable()
    ensures Inv(INITIAL) && Reachable(INITIAL)
  {
    hide Inv;
    InitialInv();
    assert RunOk(INITIAL, []) && Run(INITIAL, []) == INITIAL;
  }

  lemma ReachableStep(s: Tls, op: Op)
    requires Reachable(s) && Inv(s) && Enabled(s, op)
    ensures Reachable(Step(s, op))
  {
    hide Inv, Enabled, Step, Run, RunOk;
    InitialInv();
    var ops :| RunOk(INITIAL, ops) && s == Run(INITIAL, ops);
    RunAppend(INITIAL, ops, op);
  }

  lemma {:induction false} RunAppend(s: Tls, ops: seq<Op>, op: Op)
    requires Inv(s) && RunOk(s, ops) && Enabled(Run(s, ops), op)
    ensures RunOk(s, ops + [op]) && Run(s, ops + [op]) == Step(Run(s, ops), op)
    decreases |ops|
  {
    hide Inv, Enabled, Step;
    if ops == [] {
      assert [op][1..] == [];
    } else {
      assert (ops + [op])[1..] == ops[1..] + [op];
      RunAppend(Step(s, ops[0]), ops[1..], op);
    }
  }
}

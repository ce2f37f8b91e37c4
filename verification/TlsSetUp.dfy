/** Control blocks and DTVs: who sets them up, that they stay, and what they are good for. */
module TlsSetUp {
  import opened Usize
  import opened TlsLayout
  import opened TlsState
  import opened TlsInvariant
  import opened TlsRegister
  import opened TlsPublish
  import opened TlsSlots
  import opened TlsThreads
  import opened TlsRuns
  import opened TlsTheorems
  import opened TlsLookups
  import opened TlsRoom

  // ----- The initial thread -----

  /** What a first static registration does to memory: a zeroed arena under the granted thread pointer, its control
      block pointing to itself and to an empty DTV, and nothing else. Only if the kernel has installed the
      pointer is it the initial area; if not, the storage stays behind. */
  ghost predicate AreaSetUp(s: Tls, t: Tls, grant: Grant) {
    && t.storage == s.storage[grant.tp := Storage(Zeros(1024 * 1024),
                                                   Tcb(grant.tp, grant.dtv, grant.tp, BOOTSTRAP_STACK_GUARD,
                                                       BOOTSTRAP_POINTER_GUARD))]
    && t.dtvs.Keys == s.dtvs.Keys + {grant.dtv} && (forall d :: d in s.dtvs ==> t.dtvs[d] == s.dtvs[d])
    && |t.dtvs[grant.dtv]| == 66 && t.dtvs[grant.dtv][0].first == 64
    && (forall i :: 1 <= i < 66 ==> t.dtvs[grant.dtv][i] == DtvEntry(0, 0))
    && t.blocks == s.blocks && t.records == s.records && t.allocations == s.allocations
  }

  lemma EnsureAreaSetsUp(s: Tls, grant: Grant)
    requires s.area.None? && GrantOk(s, grant)
    ensures var (t, ready) := EnsureArea(s, grant);
            && AreaSetUp(s, t, grant) && (ready <==> grant.installed)
            && t.area == if ready then Some(StaticArea(grant.tp, 0, 1)) else None
  {
  }

  /** The first static registration leaves the initial thread set up, whether or not the module finds a place. */
  lemma InitialThreadSetUp(s: Tls, info: TlsInfo, grant: Grant)
    requires s.area.None? && GrantOk(s, grant)
    ensures var (t, r) := Register(s, info, RequestStatic, grant);
            && AreaSetUp(s, t, grant)
            && (t.area.Some? <==> grant.installed) && (t.area.Some? ==> t.area.value.tp == grant.tp)
            && (!grant.installed ==> r == Err(ResolverUnsupported) && t.modules == s.modules)
  {
    EnsureAreaSetsUp(s, grant);
    RegisterMemory(s, info, RequestStatic, grant);
    RegisterArea(s, info, grant);
    hide EnsureArea, Register;
  }

  lemma RegisterArea(s: Tls, info: TlsInfo, grant: Grant)
    ensures var (t, r) := Register(s, info, RequestStatic, grant);
            var (s1, ready) := EnsureArea(s, grant);
            && t.allocations == s1.allocations
            && (t.area.Some? <==> s1.area.Some?) && (s1.area.Some? ==> t.area.value.tp == s1.area.value.tp)
            && (!ready ==> t == s1 && r == Err(ResolverUnsupported)) && s1.modules == s.modules
  {
    hide InitTcb, NextPow2, StaticModuleEnd, StaticUsedWithRseq;
  }

  // ----- Set up, and staying so -----

  /** The thread's control block points to itself and to a live DTV. */
  ghost predicate SetUp(s: Tls, tp: nat) {
    && tp in s.storage
    && var tcb := s.storage[tp].tcb;
       && tcb.dtv != 0 && tcb.dtv in s.dtvs
       && tcb == Tcb(tp, tcb.dtv, tp, BOOTSTRAP_STACK_GUARD, BOOTSTRAP_POINTER_GUARD)
  }

  /** The operation takes the thread's DTV or its storage away. */
  predicate Ends(op: Op, tp: nat) {
    match op
    case OpDeallocate(t, _) => t == tp
    case OpReclaim(t) => t == tp
    case _ => false
  }

  ghost predicate SameTcb(s: Tls, t: Tls, tp: nat) {
    tp in s.storage && tp in t.storage && t.storage[tp].tcb == s.storage[tp].tcb
  }

  /** A control block is written only when its thread is initialised or ends. */
  lemma StepKeepsTcb(s: Tls, op: Op, tp: nat)
    requires Inv(s) && Enabled(s, op) && tp in s.storage && !Ends(op, tp) && !(op.OpInit? && op.tp == tp)
    ensures SameTcb(s, Step(s, op), tp)
  {
    hide DtvsOk, DtvLinks, BlocksOk, AllocationsOk, ArenaOk, ContentsOk, InitEnabled, TablesAgree, SourcesFit,
         StaticSourcesFit, LayoutOk, Register, GetAddr, Init, Publish, PublishOk, RoomFor, StorageLayout;
    match op
    case OpRegister(info, request, grant) => RegisterKeepsTcb(s, info, request, grant, tp);
    case OpPublish(source, id) => PublishKeepsTcb(s, source, id, tp);
    case OpAllocate(base, dtv) =>
      AllocateStorageKeeps(s, base);
      var (s1, r) := AllocateStorage(s, base);
      if r.Some? { InitWrites(s1, r.value, dtv); }
    case OpInit(u, dtv) => InitWrites(s, u, dtv);
    case _ =>
  }

  lemma RegisterKeepsTcb(s: Tls, info: TlsInfo, request: Request, grant: Grant, tp: nat)
    requires tp in s.storage && (request.RequestStatic? && s.area.None? ==> GrantOk(s, grant))
    ensures SameTcb(s, Register(s, info, request, grant).0, tp)
  {
    RegisterMemory(s, info, request, grant);
    hide StaticModuleEnd, StaticUsedWithRseq, NextPow2, Register;
  }

  lemma PublishKeepsTcb(s: Tls, source: Source, id: nat, tp: nat)
    requires Inv(s) && PublishOk(s, source, id) && tp in s.storage
    ensures SameTcb(s, StepPublish(s, source, id), tp)
  {
    PublishInitOk(s, source, id);
    PublishTables(s, source, id);
    hide MemoryOk, TablesOk, ArenaOk, ContentsOk, PublishOk, Republish, Written, MarkRseq, Writable, RseqFits;
  }

  lemma InvTcb(s: Tls, tp: nat)
    requires Inv(s) && tp in s.storage
    ensures s.storage[tp].tcb.dtv == 0 || s.storage[tp].tcb.dtv in s.dtvs
  {
    hide TablesOk, ArenaOk, ContentsOk, DtvLinks, BlocksOk;
  }

  /** Initialising a thread sets it up. */
  lemma InitSetsUp(s: Tls, tp: nat, dtv: nat)
    requires Inv(s) && InitEnabled(s, tp, dtv)
    ensures SetUp(StepInit(s, tp, dtv), tp)
  {
    InitWrites(s, tp, dtv);
    InvTcb(StepInit(s, tp, dtv), tp);
    hide Inv, Init, RoomFor, SlotsFrom, AllHeld, RseqHolds;
  }

  lemma StepKeepsSetUp(s: Tls, op: Op, tp: nat)
    requires Inv(s) && Enabled(s, op) && SetUp(s, tp) && !Ends(op, tp)
    ensures SetUp(Step(s, op), tp)
  {
    if op.OpInit? && op.tp == tp {
      InitSetsUp(s, tp, op.dtv);
    } else {
      StepKeepsTcb(s, op, tp);
      InvTcb(Step(s, op), tp);
    }
    hide Inv, InitEnabled, Register, GetAddr, Publish, Unregister, DlDeallocate, StepAllocate, StepInit, StepPublish;
  }

  lemma {:induction false} RunKeepsSetUp(s: Tls, ops: seq<Op>, tp: nat)
    requires Inv(s) && RunOk(s, ops) && SetUp(s, tp) && forall op :: op in ops ==> !Ends(op, tp)
    ensures SetUp(Run(s, ops), tp)
    decreases |ops|
  {
    hide Inv, Enabled, Step, SetUp;
    if ops != [] {
      assert ops[0] in ops;
      StepKeepsSetUp(s, ops[0], tp);
      RunKeepsSetUp(Step(s, ops[0]), ops[1..], tp);
    }
  }

  // ----- What a set-up thread can look up -----

  /** A published dynamic module with an entry and a representable layout. */
  ghost predicate HasAddress(s: Tls, id: nat) {
    && 1 <= id <= DTV_SLOT_COUNT && Lookup(s, id).Some? && Lookup(s, id).value.Dynamic?
    && DynamicLayout(Lookup(s, id).value.info).Some?
    && Lookup(s, id).value.source.Some? && Lookup(s, id).value.source.value.Image?
  }

  /** Every such module has an address in a thread that is set up. */
  lemma SetUpResolves(s: Tls, tp: nat, id: nat, tiOffset: nat, ptr: nat)
    requires Inv(s) && SetUp(s, tp) && HasAddress(s, id) && PtrFresh(s, ptr)
    ensures ThreadOk(s, tp) && SourcesFit(s) && GetAddr(s, tp, id, tiOffset, ptr).1 != 0
  {
    RecordsLive(s);
    InvDtvs(s);
    hide Inv, DynamicLayout, GetAddr;
    var m := Lookup(s, id).value;
    AddressExactly(s, tp, id, m.info, m.source.value.bytes, tiOffset, ptr);
  }

  /** From its set-up by the first static registration on, the initial thread has an address for every published
      dynamic module with an id up to 64, until its storage is withdrawn. */
  lemma InitialThreadResolves(s: Tls, info: TlsInfo, grant: Grant, ops: seq<Op>, id: nat, tiOffset: nat, ptr: nat)
    requires Inv(s) && s.area.None? && GrantOk(s, grant)
    requires Enabled(s, OpRegister(info, RequestStatic, grant))
    requires RunOk(Step(s, OpRegister(info, RequestStatic, grant)), ops)
    requires forall op :: op in ops ==> !Ends(op, grant.tp)
    ensures var t := Run(Step(s, OpRegister(info, RequestStatic, grant)), ops);
            && SetUp(t, grant.tp)
            && (HasAddress(t, id) && PtrFresh(t, ptr) ==>
                  && ThreadOk(t, grant.tp) && SourcesFit(t)
                  && GetAddr(t, grant.tp, id, tiOffset, ptr).1 != 0)
  {
    var op := OpRegister(info, RequestStatic, grant);
    FirstRegistrationSetsUp(s, info, grant);
    hide Inv, Enabled, RunOk, Run, Step, SetUp, HasAddress, GrantOk, GetAddr;
    RunKeepsSetUp(Step(s, op), ops, grant.tp);
    var t := Run(Step(s, op), ops);
    if HasAddress(t, id) && PtrFresh(t, ptr) { SetUpResolves(t, grant.tp, id, tiOffset, ptr); }
  }

  lemma FirstRegistrationSetsUp(s: Tls, info: TlsInfo, grant: Grant)
    requires Inv(s) && s.area.None? && GrantOk(s, grant) && Enabled(s, OpRegister(info, RequestStatic, grant))
    ensures SetUp(Step(s, OpRegister(info, RequestStatic, grant)), grant.tp)
  {
    InitialThreadSetUp(s, info, grant);
    hide Inv, Register;
  }

  /** The same for any thread from its initialisation on. */
  lemma StartedThreadResolves(s: Tls, tp: nat, dtv: nat, ops: seq<Op>, id: nat, tiOffset: nat, ptr: nat)
    requires Inv(s) && InitEnabled(s, tp, dtv) && RunOk(StepInit(s, tp, dtv), ops)
    requires forall op :: op in ops ==> !Ends(op, tp)
    ensures var t := Run(StepInit(s, tp, dtv), ops);
            && SetUp(t, tp)
            && (HasAddress(t, id) && PtrFresh(t, ptr) ==>
                  ThreadOk(t, tp) && SourcesFit(t) && GetAddr(t, tp, id, tiOffset, ptr).1 != 0)
  {
    hide Inv, InitEnabled, RunOk, Run, StepInit, SetUp, HasAddress, GetAddr;
    InitSetsUp(s, tp, dtv);
    RunKeepsSetUp(StepInit(s, tp, dtv), ops, tp);
    var t := Run(StepInit(s, tp, dtv), ops);
    if HasAddress(t, id) && PtrFresh(t, ptr) { SetUpResolves(t, tp, id, tiOffset, ptr); }
  }

  // ----- No DTV is lost -----

  ghost predicate Owns(s: Tls, tp: nat, d: nat) {
    tp in s.storage && s.storage[tp].tcb.dtv == d
  }

  /** Every DTV is some thread's current one. */
  ghost predicate AllOwned(s: Tls) {
    forall d :: d in s.dtvs ==> exists tp :: Owns(s, tp, d)
  }

  /** Apart from one thread's, the DTVs there are were there before, with the same owners. */
  ghost predicate OwnersStay(s: Tls, t: Tls, tp: nat) {
    && (forall d :: d in t.dtvs ==> Owns(t, tp, d) || (d in s.dtvs && !Owns(s, tp, d)))
    && (forall u :: u in s.storage && u != tp && s.storage[u].tcb.dtv in s.dtvs ==> Owns(t, u, s.storage[u].tcb.dtv))
  }

  lemma OwnersStayOwned(s: Tls, t: Tls, tp: nat)
    requires AllOwned(s) && OwnersStay(s, t, tp)
    ensures AllOwned(t)
  {
    forall d | d in t.dtvs
      ensures exists u :: Owns(t, u, d)
    {
      if !Owns(t, tp, d) {
        var u :| Owns(s, u, d);
        assert Owns(t, u, d);
      }
    }
  }

  ghost predicate SameDtvs(s: Tls, t: Tls) {
    t.dtvs.Keys == s.dtvs.Keys && forall u :: u in s.storage ==> SameTcb(s, t, u)
  }

  lemma SameDtvsOwned(s: Tls, t: Tls)
    requires AllOwned(s) && SameDtvs(s, t)
    ensures AllOwned(t)
  {
    forall d | d in t.dtvs
      ensures exists u :: Owns(t, u, d)
    {
      var u :| Owns(s, u, d);
      assert SameTcb(s, t, u) && Owns(t, u, d);
    }
  }

  lemma {:induction false} InitModulesDtvs(s: Tls, tp: nat, ms: seq<StaticModule>)
    requires DtvsOk(s) && tp in s.storage && forall i :: 0 <= i < |ms| ==> Writable(|s.storage[tp].below|, ms[i])
    ensures SameDtvs(s, InitModules(s, tp, ms))
    decreases |ms|
  {
    if ms != [] {
      var n := |ms| - 1;
      InitModulesDtvs(s, tp, ms[..n]);
      hide Writable, DtvsOk;
      ModuleDtvs(InitModules(s, tp, ms[..n]), tp, ms[n]);
    }
  }

  lemma ModuleDtvs(s: Tls, tp: nat, m: StaticModule)
    requires DtvsOk(s) && tp in s.storage && Writable(|s.storage[tp].below|, m)
    ensures SameDtvs(s, InitStaticModule(s, tp, m))
  {
    hide Written, Writable;
  }

  /** Initialising a thread replaces its DTV: the old one is gone. */
  lemma InitReplacesDtv(s: Tls, tp: nat, dtv: nat)
    requires RoomFor(s, tp) && DtvFresh(s, tp, dtv)
    ensures Init(s, tp, dtv).dtvs.Keys == s.dtvs.Keys - {s.storage[tp].tcb.dtv} + {dtv}
    ensures OwnersStay(s, Init(s, tp, dtv), tp)
  {
    InitTcbRoom(s, tp, dtv);
    var s1 := InitTcb(s, tp, dtv);
    assert s1.dtvs.Keys == s.dtvs.Keys - {s.storage[tp].tcb.dtv} + {dtv} by { InitTcbDtvs(s, tp, dtv); }
    InitModulesDtvs(s1, tp, s1.statics);
    InitTcbDtvs(s, tp, dtv);
    hide RoomFor, DtvFresh, InitTcb, InitModules, MarkRseq;
    var t := Init(s, tp, dtv);
    assert SameDtvs(s1, t);
    forall d | d in t.dtvs
      ensures Owns(t, tp, d) || (d in s.dtvs && !Owns(s, tp, d))
    {
      assert SameTcb(s1, t, tp);
    }
    forall u | u in s.storage && u != tp && s.storage[u].tcb.dtv in s.dtvs
      ensures Owns(t, u, s.storage[u].tcb.dtv)
    {
      assert SameTcb(s1, t, u);
    }
  }

  lemma InitTcbDtvs(s: Tls, tp: nat, dtv: nat)
    requires RoomFor(s, tp) && DtvFresh(s, tp, dtv)
    ensures var t := InitTcb(s, tp, dtv);
            && t.dtvs.Keys == s.dtvs.Keys - {s.storage[tp].tcb.dtv} + {dtv}
            && t.storage.Keys == s.storage.Keys && t.storage[tp].tcb.dtv == dtv
            && (forall u :: u in s.storage && u != tp ==> t.storage[u] == s.storage[u])
  {
  }

  lemma RegisterKeepsOwned(s: Tls, info: TlsInfo, request: Request, grant: Grant)
    requires Inv(s) && AllOwned(s) && (request.RequestStatic? && s.area.None? ==> GrantOk(s, grant))
    ensures AllOwned(Register(s, info, request, grant).0)
  {
    RegisterMemory(s, info, request, grant);
    var t := Register(s, info, request, grant).0;
    if request.RequestStatic? && s.area.None? {
      EnsureAreaSetsUp(s, grant);
      hide Register, EnsureArea, Inv;
      OwnersStayOwned(s, t, grant.tp);
    } else {
      hide Register, EnsureArea, Inv;
      assert EnsureArea(s, grant) == (s, true) || !request.RequestStatic? by { AreaThere(s, grant); }
      SameDtvsOwned(s, t);
    }
  }

  lemma AreaThere(s: Tls, grant: Grant)
    ensures s.area.Some? ==> EnsureArea(s, grant) == (s, true)
  {
  }

  lemma InitStaticDtvs(s: Tls, m: StaticModule)
    requires 1 <= m.id <= |s.modules| && InitStaticOk(s, m)
    ensures SameDtvs(s, InitStatic(s, m))
  {
    hide Republish, Written, MarkRseq, Writable, RseqFits;
  }

  lemma PublishDtvs(s: Tls, source: Source, id: nat)
    requires InitTlsOk(s, source, id)
    ensures SameDtvs(s, Publish(s, source, id).0)
  {
    hide DtvsOk, InitStatic, SameDtvs, FindOffset, InitStaticOk;
    if Lookup(s, id).Some? && Lookup(s, id).value.Static? && Publish(s, source, id).1.Ok? {
      InitStaticDtvs(s, StaticModule(id, Lookup(s, id).value.info, Some(source), Lookup(s, id).value.offset));
    } else {
      NoDtvsTouched(s, Publish(s, source, id).0);
    }
  }

  lemma NoDtvsTouched(s: Tls, t: Tls)
    requires t.dtvs == s.dtvs && t.storage == s.storage
    ensures SameDtvs(s, t)
  {
  }

  lemma PublishKeepsOwned(s: Tls, source: Source, id: nat)
    requires Inv(s) && AllOwned(s) && PublishOk(s, source, id)
    ensures AllOwned(StepPublish(s, source, id))
  {
    hide Inv, PublishOk, AllOwned, SameDtvs, Publish, InitTlsOk;
    PublishInitOk(s, source, id);
    PublishDtvs(s, source, id);
    SameDtvsOwned(s, StepPublish(s, source, id));
  }

  lemma DeallocateKeepsOwned(s: Tls, tp: nat, deallocTcb: bool)
    requires Inv(s) && AllOwned(s) && (tp != 0 ==> tp in s.storage)
    ensures AllOwned(DlDeallocate(s, tp, deallocTcb))
  {
    if tp != 0 {
      hide TablesOk, ArenaOk, ContentsOk, BlocksOk;
      OwnersStayOwned(s, DlDeallocate(s, tp, deallocTcb), tp);
    }
  }

  lemma InitKeepsOwned(s: Tls, tp: nat, dtv: nat)
    requires Inv(s) && AllOwned(s) && InitEnabled(s, tp, dtv)
    ensures AllOwned(StepInit(s, tp, dtv))
  {
    InitWrites(s, tp, dtv);
    InitReplacesDtv(s, tp, dtv);
    hide Inv, InitEnabled, RoomFor, DtvFresh, Init, OwnersStay, AllOwned;
    OwnersStayOwned(s, StepInit(s, tp, dtv), tp);
  }

  lemma AllocateKeepsOwned(s: Tls, base: nat, dtv: nat)
    requires Inv(s) && AllOwned(s) && Enabled(s, OpAllocate(base, dtv))
    ensures AllOwned(StepAllocate(s, base, dtv))
  {
    AllocateStorageKeeps(s, base);
    var (s1, tp) := AllocateStorage(s, base);
    assert SameDtvs(s, s1) by { hide StorageLayout; }
    SameDtvsOwned(s, s1);
    hide Inv, InitEnabled, AllOwned, AllocateStorage, Init;
    if tp.Some? { InitKeepsOwned(s1, tp.value, dtv); }
  }

  lemma StepKeepsOwned(s: Tls, op: Op)
    requires Inv(s) && AllOwned(s) && Enabled(s, op)
    ensures AllOwned(Step(s, op))
  {
    StepKeeps(s, op);
    RecordsLive(s);
    InvDtvs(s);
    hide Inv, InitEnabled, BaseFresh, Register, Publish, Unregister, GetAddr, DlDeallocate, StepAllocate, StepInit,
         StepPublish, AllOwned, PublishOk, AllocateStorage, SameDtvs;
    match op
    case OpRegister(info, request, grant) => RegisterKeepsOwned(s, info, request, grant);
    case OpPublish(source, id) => PublishKeepsOwned(s, source, id);
    case OpUnregister(id) =>
      UnregisterMemory(s, id);
      NoDtvsTouched(s, Unregister(s, id));
      SameDtvsOwned(s, Unregister(s, id));
    case OpGetAddr(tp, id, tiOffset, ptr) =>
      LookupKeepsDtvs(s, tp, id, tiOffset, ptr);
      SameDtvsOwned(s, GetAddr(s, tp, id, tiOffset, ptr).0);
    case OpAllocate(base, dtv) => AllocateKeepsOwned(s, base, dtv);
    case OpInit(tp, dtv) => InitKeepsOwned(s, tp, dtv);
    case OpDeallocate(tp, deallocTcb) => DeallocateKeepsOwned(s, tp, deallocTcb);
    case _ => SupplyKeepsOwned(s, op);
  }

  lemma SupplyKeepsOwned(s: Tls, op: Op)
    requires Inv(s) && AllOwned(s) && Enabled(s, op) && (op.OpSupply? || op.OpReclaim?)
    ensures AllOwned(Step(s, op))
  {
    hide TablesOk, ArenaOk, ContentsOk, DtvLinks, BlocksOk, AllocationsOk;
    OwnersStayOwned(s, Step(s, op), op.tp);
  }

  lemma LookupKeepsDtvs(s: Tls, tp: nat, id: nat, tiOffset: nat, ptr: nat)
    requires ThreadOk(s, tp) && SourcesFit(s)
    ensures SameDtvs(s, GetAddr(s, tp, id, tiOffset, ptr).0)
  {
    hide DynamicLayout;
  }

  lemma {:induction false} RunKeepsOwned(s: Tls, ops: seq<Op>)
    requires Inv(s) && AllOwned(s) && RunOk(s, ops)
    ensures AllOwned(Run(s, ops))
    decreases |ops|
  {
    hide Inv, Enabled, Step, AllOwned;
    if ops != [] {
      StepKeepsOwned(s, ops[0]);
      RunKeepsOwned(Step(s, ops[0]), ops[1..]);
    }
  }

  /** No DTV is ever lost: in every reachable state each one is the current DTV of some thread. */
  lemma NoDtvLost(s: Tls)
    requires Reachable(s)
    ensures AllOwned(s)
  {
    InitialInv();
    var ops :| RunOk(INITIAL, ops) && s == Run(INITIAL, ops);
    hide Inv, RunOk, Run;
    RunKeepsOwned(INITIAL, ops);
  }
}

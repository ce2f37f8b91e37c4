/** Room below a thread pointer: the static layout grows, storage that exists does not. */
module TlsRoom {
  import opened Usize
  import opened TlsLayout
  import opened TlsState
  import opened TlsInvariant
  import opened TlsRegister
  import opened TlsPublish
  import opened TlsSlots
  import opened TlsThreads
  import opened TlsRuns
  import opened TlsTheorems
  import opened TlsLookups

  // ----- What initialisation needs -----

  lemma PowersUsed()
    ensures IsPow2(1) && IsPow2(32) && IsPow2(64)
  {
    assert Pow2(0) == 1 && Pow2(5) == 32 && Pow2(6) == 64;
  }

  /** The blocks of the published placed modules and the rseq area, the ranges that initialising a thread writes,
      all lie inside `size` bytes below its thread pointer. */
  ghost predicate WritesInside(s: Tls, size: nat) {
    && (forall m :: m in s.statics && IsPlaced(s, m.id) && HasImage(m) ==> InRange(size, m.offset, m.info.memsz))
    && InRange(size, -(RseqDistance(s) as int), RSEQ_AREA_SIZE)
  }

  /** Initialisation stays inside the storage exactly when the rseq area, the lowest thing it writes, does. */
  lemma WritesInsideExactly(s: Tls, size: nat)
    requires Inv(s)
    ensures StaticUsedWithRseq(UsedInfo(s).0) == Some(RseqDistance(s))
    ensures WritesInside(s, size) <==> RseqDistance(s) <= size
  {
    UsedHasRseq(s);
    RseqBelowUsed(UsedInfo(s).0);
    hide MemoryOk, ArenaOk, ContentsOk;
    if RseqDistance(s) <= size {
      forall m | m in s.statics && IsPlaced(s, m.id) && HasImage(m)
        ensures InRange(size, m.offset, m.info.memsz)
      {
        PlacedInRange(s, m.id, m.info, m.offset);
      }
    }
  }

  // ----- The layout only grows -----

  ghost predicate UsedGrows(s: Tls, t: Tls) {
    && UsedInfo(s).0 <= UsedInfo(t).0 && UsedInfo(s).1 <= UsedInfo(t).1
    && (s.area.Some? ==> t.area.Some? && t.area.value.tp == s.area.value.tp)
  }

  lemma RegisterUsedGrows(s: Tls, info: TlsInfo, request: Request, grant: Grant)
    ensures UsedGrows(s, Register(s, info, request, grant).0)
  {
    if request.RequestStatic? {
      var (s1, ready) := EnsureArea(s, grant);
      assert UsedInfo(s1) == UsedInfo(s);
      if ready {
        match NextPow2(Max(info.align, 1))
        case None =>
        case Some(align) => PlacedEnd(s1, info, align);
      }
    }
  }

  lemma StepUsedGrows(s: Tls, op: Op)
    requires Inv(s) && Enabled(s, op)
    ensures UsedGrows(s, Step(s, op))
  {
    hide DtvsOk, DtvLinks, BlocksOk, AllocationsOk, ArenaOk, ContentsOk, InitEnabled, BaseFresh, TablesAgree,
         SourcesFit, StaticSourcesFit, LayoutOk, Register, GetAddr, Init, Publish, AllocateStorage, DeallocateTcb,
         PublishOk, RoomFor;
    match op
    case OpRegister(info, request, grant) => RegisterUsedGrows(s, info, request, grant);
    case OpPublish(source, id) =>
      PublishInitOk(s, source, id);
      PublishTables(s, source, id);
    case OpAllocate(base, dtv) =>
      AllocateStorageKeeps(s, base);
      var (s1, tp) := AllocateStorage(s, base);
      if tp.Some? { InitWrites(s1, tp.value, dtv); }
    case OpInit(tp, dtv) => InitWrites(s, tp, dtv);
    case _ =>
  }

  /** The used space never shrinks and the initial thread stays the same, over every run; not even unregistering
      gives space back. */
  lemma {:induction false} RunUsedGrows(s: Tls, ops: seq<Op>)
    requires Inv(s) && RunOk(s, ops)
    ensures UsedGrows(s, Run(s, ops))
    decreases |ops|
  {
    if ops != [] {
      StepUsedGrows(s, ops[0]);
      RunUsedGrows(Step(s, ops[0]), ops[1..]);
      hide Inv, Enabled, Step;
    }
  }

  // ----- Storage stays as it is -----

  /** The operation may take the thread's storage away. */
  predicate Withdraws(op: Op, tp: nat) {
    match op
    case OpDeallocate(t, deallocTcb) => t == tp && deallocTcb
    case OpReclaim(t) => t == tp
    case _ => false
  }

  /** The operation writes below the thread pointer: it initialises this thread, or it publishes and this is
      the initial thread. */
  predicate Writes(s: Tls, op: Op, tp: nat) {
    || (op.OpInit? && op.tp == tp)
    || (op.OpPublish? && s.area.Some? && s.area.value.tp == tp)
  }

  ghost predicate StorageKept(s: Tls, t: Tls, tp: nat, written: bool) {
    && tp in s.storage && tp in t.storage && |t.storage[tp].below| == |s.storage[tp].below|
    && (!written ==> t.storage[tp].below == s.storage[tp].below)
  }

  /** Storage that is not withdrawn keeps its size, and all its bytes unless the operation is one of the two that
      write. */
  lemma StepKeepsStorage(s: Tls, op: Op, tp: nat)
    requires Inv(s) && Enabled(s, op) && tp in s.storage && !Withdraws(op, tp)
    ensures StorageKept(s, Step(s, op), tp, Writes(s, op, tp))
  {
    hide DtvsOk, DtvLinks, BlocksOk, AllocationsOk, ArenaOk, ContentsOk, InitEnabled, TablesAgree, SourcesFit,
         StaticSourcesFit, LayoutOk, Register, GetAddr, Init, Publish, PublishOk, RoomFor, StorageLayout;
    match op
    case OpRegister(info, request, grant) => RegisterStorage(s, info, request, grant, tp);
    case OpPublish(source, id) => PublishStorage(s, source, id, tp);
    case OpAllocate(base, dtv) =>
      AllocateStorageKeeps(s, base);
      var (s1, r) := AllocateStorage(s, base);
      if r.Some? { InitWrites(s1, r.value, dtv); }
    case OpInit(u, dtv) => InitWrites(s, u, dtv);
    case _ =>
  }

  lemma RegisterStorage(s: Tls, info: TlsInfo, request: Request, grant: Grant, tp: nat)
    requires tp in s.storage && (request.RequestStatic? && s.area.None? ==> GrantOk(s, grant))
    ensures StorageKept(s, Register(s, info, request, grant).0, tp, false)
    ensures Register(s, info, request, grant).0.allocations == s.allocations
  {
    RegisterMemory(s, info, request, grant);
    hide StaticModuleEnd, StaticUsedWithRseq, NextPow2;
  }

  lemma PublishStorage(s: Tls, source: Source, id: nat, tp: nat)
    requires Inv(s) && PublishOk(s, source, id) && tp in s.storage
    ensures StorageKept(s, StepPublish(s, source, id), tp, s.area.Some? && s.area.value.tp == tp)
  {
    PublishInitOk(s, source, id);
    PublishTables(s, source, id);
    hide MemoryOk, TablesOk, ArenaOk, ContentsOk, PublishOk, Republish, Written, MarkRseq, Writable, RseqFits;
  }

  /** Storage no operation of a run withdraws still has the size it had. */
  lemma {:induction false} RunKeepsStorage(s: Tls, ops: seq<Op>, tp: nat)
    requires Inv(s) && RunOk(s, ops) && tp in s.storage
    requires forall op :: op in ops ==> !Withdraws(op, tp)
    ensures StorageKept(s, Run(s, ops), tp, true)
    decreases |ops|
  {
    if ops != [] {
      assert ops[0] in ops;
      StepKeepsStorage(s, ops[0], tp);
      RunKeepsStorage(Step(s, ops[0]), ops[1..], tp);
      hide Inv, Enabled, Step;
    }
  }

  // ----- When storage can be initialised again -----

  /** Fresh storage has the size it was laid out with, and no table changes. */
  ghost predicate LaidOut(s: Tls, t: Tls, base: nat, layout: Layout, size: nat) {
    && base + size in t.storage && |t.storage[base + size].below| == size
    && TlsAllocation(base + size, base, layout) in t.allocations
    && t.area == s.area && t.modules == s.modules && t.statics == s.statics && t.placed == s.placed
  }

  lemma AllocatedSize(s: Tls, base: nat, dtv: nat)
    requires Inv(s) && Enabled(s, OpAllocate(base, dtv)) && StorageLayout(s).Some?
    ensures LaidOut(s, StepAllocate(s, base, dtv), base, StorageLayout(s).value.0, StorageLayout(s).value.1)
  {
    hide MemoryOk, TablesOk, ArenaOk, ContentsOk, InitEnabled, BaseFresh, StorageLayout, Init, RoomFor, SlotsFrom,
         AllHeld, RseqHolds;
    AllocateStorageKeeps(s, base);
    var size := StorageLayout(s).value.1;
    var s1 := AllocateStorage(s, base).0;
    assert |s1.storage[base + size].below| == size;
    InitWrites(s1, base + size, dtv);
  }

  /** In state `t` the storage of `tp` has its `size` bytes, and what initialising it writes stays inside them
      exactly when the distance down to the current rseq area is no more than that. */
  ghost predicate RoomIf(t: Tls, tp: nat, size: nat) {
    && tp in t.storage && |t.storage[tp].below| == size
    && StaticUsedWithRseq(UsedInfo(t).0) == Some(RseqDistance(t))
    && (RseqFits(size, UsedInfo(t).0) <==> RseqDistance(t) <= size)
    && (WritesInside(t, size) <==> RseqDistance(t) <= size)
  }

  lemma RoomAfterRun(s: Tls, ops: seq<Op>, tp: nat)
    requires Inv(s) && RunOk(s, ops) && tp in s.storage
    requires forall op :: op in ops ==> !Withdraws(op, tp)
    ensures RoomIf(Run(s, ops), tp, |s.storage[tp].below|)
  {
    RunKeepsStorage(s, ops, tp);
    WritesInsideExactly(Run(s, ops), |s.storage[tp].below|);
    hide Inv, Enabled, Step, Run, RunOk, WritesInside, StaticUsedWithRseq, RseqDistance;
  }

  /** Storage laid out in one state can be initialised in a later one exactly when the layout of the later state needs
      no more than the size it was laid out with; otherwise the writes leave it. Nothing in the source looks. */
  lemma RoomExactly(s: Tls, base: nat, dtv: nat, layout: Layout, size: usize, ops: seq<Op>)
    requires Inv(s) && Enabled(s, OpAllocate(base, dtv)) && StorageLayout(s) == Some((layout, size))
    requires RunOk(StepAllocate(s, base, dtv), ops)
    requires forall op :: op in ops ==> !Withdraws(op, base + size)
    ensures RoomIf(Run(StepAllocate(s, base, dtv), ops), base + size, size)
  {
    hide Inv, Enabled, StepAllocate, Run, RunOk, RoomIf, StorageLayout;
    AllocatedSize(s, base, dtv);
    RoomAfterRun(StepAllocate(s, base, dtv), ops, base + size);
  }

  /** The area starts at the least multiple of its alignment that leaves the used space alone. */
  lemma DistanceLeast(s: Tls)
    requires Inv(s)
    ensures RSEQ_AREA_SIZE <= RseqDistance(s)
    ensures LeastCongruent(RseqDistance(s) - RSEQ_AREA_SIZE, UsedInfo(s).0, 0, RSEQ_AREA_ALIGN)
  {
    UsedHasRseq(s);
    PowersUsed();
    AlignUpExact(UsedInfo(s).0, RSEQ_AREA_ALIGN);
    hide Inv, AlignUp, Multiple, IsPow2, LeastCongruent;
  }

  /** The distance to the rseq area follows the used space. */
  lemma DistanceGrows(s: Tls, t: Tls)
    requires Inv(s) && Inv(t) && UsedGrows(s, t)
    ensures RseqDistance(s) <= RseqDistance(t)
  {
    DistanceLeast(s);
    DistanceLeast(t);
    hide Inv, Multiple, RseqDistance;
    assert Fits(RseqDistance(t) - RSEQ_AREA_SIZE, UsedInfo(s).0, 0, RSEQ_AREA_ALIGN);
  }

  /** Room that is lost does not come back, whatever is unregistered. */
  lemma RoomStaysLost(s: Tls, ops: seq<Op>, size: nat)
    requires Inv(s) && RunOk(s, ops) && !WritesInside(s, size)
    ensures !WritesInside(Run(s, ops), size)
  {
    hide Inv, Enabled, Step, Run, RunOk, WritesInside, UsedGrows, RseqDistance;
    RunUsedGrows(s, ops);
    DistanceGrows(s, Run(s, ops));
    WritesInsideExactly(s, size);
    WritesInsideExactly(Run(s, ops), size);
  }

  // ----- The rseq area the C library was told of -----

  /** No placed block touches an rseq area at this distance below the thread pointer. */
  ghost predicate AreaClear(s: Tls, distance: nat) {
    forall p :: p in s.placed ==> Apart(-(distance as int), RSEQ_AREA_SIZE, -(p.end as int), p.info.memsz)
  }

  /** The place of the rseq area is told to the C library in one state and computed afresh by every later
      initialisation. The two agree exactly while the used space has not grown into the area told; then no block
      touches it either. */
  lemma ReportedAreaExactly(s: Tls, ops: seq<Op>)
    requires Inv(s) && RunOk(s, ops)
    ensures var t := Run(s, ops);
            && (RseqDistance(t) == RseqDistance(s) <==> UsedInfo(t).0 + RSEQ_AREA_SIZE <= RseqDistance(s))
            && (RseqDistance(t) == RseqDistance(s) ==> AreaClear(t, RseqDistance(s)))
  {
    var t := Run(s, ops);
    RunUsedGrows(s, ops);
    hide RunOk, Run, Enabled, Step;
    DistanceGrows(s, t);
    DistanceLeast(s);
    DistanceLeast(t);
    BlocksClear(t);
    hide Inv, RseqDistance, AreaClear;
    if UsedInfo(t).0 + RSEQ_AREA_SIZE <= RseqDistance(s) {
      assert Fits(RseqDistance(s) - RSEQ_AREA_SIZE, UsedInfo(t).0, 0, RSEQ_AREA_ALIGN);
    }
  }

  lemma BlocksClear(s: Tls)
    requires Inv(s)
    ensures AreaClear(s, RseqDistance(s))
  {
    UsedHasRseq(s);
    RseqBelowUsed(UsedInfo(s).0);
    hide MemoryOk, ArenaOk, ContentsOk, TablesAgree, SourcesFit, StaticSourcesFit;
    forall p | p in s.placed
      ensures Apart(-(RseqDistance(s) as int), RSEQ_AREA_SIZE, -(p.end as int), p.info.memsz)
    {
      assert PlacementOk(s, s.area.value, p);
    }
  }

  // ----- A thread that is too small for a module registered after it started -----

  const EARLY_BASE: nat := 4096
  const EARLY_TP: nat := 4160
  const LATE_MODULE: TlsInfo := TlsInfo(4096, 0, 1)

  /** `align_up` where the answer is known. */
  lemma AlignUpAt(value: usize, align: usize, up: usize)
    requires IsPow2(align) && Fits(up, value, 0, align) && up < value + align
    ensures align >= 1 && AlignUp(value, align) == Some(up)
  {
    AlignUpExact(value, align);
    CongruentIsLeast(up, value, 0, align);
    hide AlignUp, Multiple, IsPow2;
  }

  /** Before any module, 64 bytes below the thread pointer are laid out. */
  lemma FirstLayout()
    ensures StorageLayout(INITIAL) == Some((Layout(2432, 64), 64))
  {
    hide And, Multiple, IsPow2, NextPow2, AlignUp;
    EmptyLayout();
    PowersUsed();
    NextPow2OfPow2(64);
    MultipleRemainder(64, 64);
    AlignUpAt(32, 64, 64);
    MaskRoundsDown(64, 64);
    hide StaticUsedWithRseq;
    assert MakeLayout(2432, 64) == Some(Layout(2432, 64));
  }

  /** A module of 4096 bytes takes the used space from 0 to 4096, and the rseq area down to 4128. */
  lemma LateModuleEnd()
    ensures StaticModuleEnd(0, 4096, 0, 1) == Some(4096) && StaticUsedWithRseq(4096) == Some(4128)
  {
    hide And, Multiple, IsPow2, AlignUp, StaticModuleEnd;
    PowersUsed();
    StaticModuleEndExact(0, 4096, 0, 1);
    MultipleRemainder(4096, 32);
    AlignUpAt(4096, RSEQ_AREA_ALIGN, 4096);
    MultipleRemainder(4096, 1);
    assert Fits(4096, 4096, 0, 1);
  }

  lemma {:induction false} AboveAll(used: set<nat>) returns (n: nat)
    ensures n != 0 && forall x :: x in used ==> x < n
  {
    if used == {} {
      n := 1;
    } else {
      var x :| x in used;
      var k := AboveAll(used - {x});
      assert used == (used - {x}) + {x};
      n := if x < k then k else x + 1;
    }
  }

  lemma EarlyEnabled()
    ensures Inv(INITIAL) && Enabled(INITIAL, OpAllocate(EARLY_BASE, 8))
  {
    FirstLayout();
    EmptyLayout();
    PowersUsed();
    MultipleRemainder(EARLY_BASE, 64);
    hide StorageLayout, StaticUsedWithRseq, Multiple, IsPow2;
  }

  lemma AllocateStep(s: Tls, base: nat, dtv: nat)
    requires Inv(s) && Enabled(s, OpAllocate(base, dtv))
    ensures Step(s, OpAllocate(base, dtv)) == StepAllocate(s, base, dtv)
  {
    hide Inv, Enabled, StepAllocate;
  }

  /** A thread started before any module is registered. */
  lemma EarlyThread() returns (s: Tls)
    ensures Reachable(s) && Inv(s) && LaidOut(INITIAL, s, EARLY_BASE, Layout(2432, 64), 64)
    ensures s.storage.Keys == {EARLY_TP}
  {
    hide *;
    EarlyEnabled();
    FirstLayout();
    InitialReachable();
    AllocatedSize(INITIAL, EARLY_BASE, 8);
    EarlyKeys();
    var op := OpAllocate(EARLY_BASE, 8);
    ReachableStep(INITIAL, op);
    s := Step(INITIAL, op);
    AllocateStep(INITIAL, EARLY_BASE, 8);
  }

  lemma EarlyKeys()
    requires Inv(INITIAL) && Enabled(INITIAL, OpAllocate(EARLY_BASE, 8))
    ensures StepAllocate(INITIAL, EARLY_BASE, 8).storage.Keys == {EARLY_TP}
  {
    FirstLayout();
    hide StorageLayout, Inv, InitEnabled, Init;
    AllocateStorageKeeps(INITIAL, EARLY_BASE);
    InitWrites(AllocateStorage(INITIAL, EARLY_BASE).0, EARLY_TP, 8);
  }

  /** What is left of the room below the early thread once the module has been registered. */
  ghost predicate TooSmall(s: Tls, tp: nat, base: nat, id: nat) {
    && TlsAllocation(tp, base, Layout(2432, 64)) in s.allocations && tp == base + 64
    && tp in s.storage && |s.storage[tp].below| == 64
    && Lookup(s, id) == Some(Static(LATE_MODULE, -4096)) && IsPlaced(s, id) && RseqDistance(s) == 4128
    && s.area.Some? && s.area.value.tp in s.storage && s.area.value.tp != tp
  }

  lemma LastPlaced(s: Tls, before: seq<Placement>, p: Placement)
    requires s.placed == before + [p]
    ensures IsPlaced(s, p.id)
  {
    assert s.placed[|before|] == p;
  }

  lemma FirstArea(s: Tls, grant: Grant)
    requires s.area.None? && grant.installed
    ensures var (t, ready) := EnsureArea(s, grant);
            && ready && t.area == Some(StaticArea(grant.tp, 0, 1))
            && t.modules == s.modules && t.placed == s.placed && t.allocations == s.allocations
  {
    hide InitTcb;
  }

  /** Placing the module below an empty arena. */
  lemma FirstPlaced(s: Tls, tp: nat)
    requires s.area == Some(StaticArea(tp, 0, 1)) && s.modules == []
    ensures var (t, r) := PlaceStatic(s, LATE_MODULE, 1);
            && r == Ok((1, -4096)) && t.modules == [Some(Static(LATE_MODULE, -4096))]
            && t.area == Some(StaticArea(tp, 4096, 1)) && t.allocations == s.allocations
            && t.placed == s.placed + [Placement(1, LATE_MODULE, 1, 4096)]
  {
    LateModuleEnd();
    hide StaticModuleEnd, StaticUsedWithRseq;
  }

  /** Registering the module as the first one. */
  lemma LateRegistration(s: Tls, grant: Grant)
    requires s.area.None? && s.modules == [] && grant.installed
    ensures var t := Register(s, LATE_MODULE, RequestStatic, grant).0;
            && Lookup(t, 1) == Some(Static(LATE_MODULE, -4096)) && IsPlaced(t, 1) && RseqDistance(t) == 4128
            && t.area.Some? && t.area.value.tp == grant.tp && t.allocations == s.allocations
  {
    PowersUsed();
    NextPow2OfPow2(1);
    LateModuleEnd();
    FirstArea(s, grant);
    FirstPlaced(EnsureArea(s, grant).0, grant.tp);
    LastPlaced(Register(s, LATE_MODULE, RequestStatic, grant).0, s.placed, Placement(1, LATE_MODULE, 1, 4096));
    hide NextPow2, PlaceStatic, StaticModuleEnd, StaticUsedWithRseq, EnsureArea, IsPow2, IsPlaced;
  }

  lemma LateEnabled(s: Tls, grant: Grant)
    requires Inv(s) && s.storage.Keys == {EARLY_TP} && grant.tp == 8192 && grant.dtv != 0 && grant.dtv !in s.dtvs
    ensures Enabled(s, OpRegister(LATE_MODULE, RequestStatic, grant))
  {
    hide Inv;
    MultipleRemainder(8192, 4096);
  }

  lemma LateTooSmall(s: Tls, grant: Grant)
    requires Inv(s) && LaidOut(INITIAL, s, EARLY_BASE, Layout(2432, 64), 64) && grant.tp == 8192 && grant.installed
    requires Enabled(s, OpRegister(LATE_MODULE, RequestStatic, grant))
    ensures TooSmall(Step(s, OpRegister(LATE_MODULE, RequestStatic, grant)), EARLY_TP, EARLY_BASE, 1)
  {
    var op := OpRegister(LATE_MODULE, RequestStatic, grant);
    StepKeepsStorage(s, op, EARLY_TP);
    LateRegistration(s, grant);
    assert ArenaOk(Step(s, op));
    hide MemoryOk, TablesOk, ArenaOk, ContentsOk, Register, RseqDistance;
  }

  lemma TooSmallHasNoRoom(s: Tls, tp: nat, base: nat, id: nat)
    requires Inv(s) && TooSmall(s, tp, base, id)
    ensures !RseqFits(|s.storage[tp].below|, UsedInfo(s).0) && !WritesInside(s, |s.storage[tp].below|)
  {
    WritesInsideExactly(s, 64);
    hide Inv, WritesInside, StaticUsedWithRseq, RseqDistance;
  }

  /** It does happen: the runtime lays out a thread's storage, a module is registered, and storage the runtime still
      owns is too small for the layout. Initialising it would write below its first byte. */
  lemma RoomIsLost() returns (s: Tls)
    ensures Reachable(s) && Inv(s) && TooSmall(s, EARLY_TP, EARLY_BASE, 1)
    ensures !RseqFits(|s.storage[EARLY_TP].below|, UsedInfo(s).0) && !WritesInside(s, |s.storage[EARLY_TP].below|)
  {
    hide Inv, Enabled, Reachable, Step, LaidOut, RseqFits, WritesInside, RseqDistance;
    var s1 := EarlyThread();
    var d := AboveAll(s1.dtvs.Keys);
    var grant := Grant(8192, d, true);
    LateEnabled(s1, grant);
    ReachableStep(s1, OpRegister(LATE_MODULE, RequestStatic, grant));
    LateTooSmall(s1, grant);
    s := Step(s1, OpRegister(LATE_MODULE, RequestStatic, grant));
    TooSmallHasNoRoom(s, EARLY_TP, EARLY_BASE, 1);
  }

  /** It does happen: what was told before any module was registered is the module's block now. */
  lemma ReportedAreaIsTaken() returns (s: Tls)
    ensures Reachable(s) && Inv(s) && !AreaClear(s, RseqDistance(INITIAL))
  {
    hide Reachable, RseqFits, WritesInside;
    s := RoomIsLost();
    EmptyLayout();
    hide MemoryOk, ArenaOk, ContentsOk, TablesAgree, SourcesFit, StaticSourcesFit, StaticUsedWithRseq;
    var p :| p in s.placed && p.id == 1;
    assert PlacementOk(s, s.area.value, p);
  }
}

/** What holds in every reachable state of the TLS runtime, and along every run. */
module TlsTheorems {
  import opened Usize
  import opened TlsLayout
  import opened TlsState
  import opened TlsInvariant
  import opened TlsRegister
  import opened TlsPublish
  import opened TlsSlots
  import opened TlsThreads
  import opened TlsRuns

  lemma ReachableInv(s: Tls)
    requires Reachable(s)
    ensures Inv(s)
  {
  }

  // ----- Layout -----

  /** Distance from the thread pointer down to the current rseq area. */
  function RseqDistance(s: Tls): usize {
    match StaticUsedWithRseq(UsedInfo(s).0) case Some(r) => r case None => 0
  }

  /** Placed blocks are pairwise disjoint and lie in [tp - used, tp); the rseq area fits the arena below
      them and overlaps none; the arena's thread pointer is page aligned. */
  lemma LayoutSound(s: Tls)
    requires Reachable(s) && s.area.Some?
    ensures var a := s.area.value;
            && Multiple(a.tp, 4096)
            && a.used + RSEQ_AREA_SIZE <= RseqDistance(s) <= STATIC_TLS_ARENA_SIZE
            && (forall p :: p in s.placed ==> -(a.used as int) <= -(p.end as int) && p.info.memsz <= p.end)
            && (forall p :: p in s.placed ==>
                  Apart(-(RseqDistance(s) as int), RSEQ_AREA_SIZE, -(p.end as int), p.info.memsz))
            && (forall j, k :: 0 <= j < k < |s.placed| ==>
                  Apart(-(s.placed[j].end as int), s.placed[j].info.memsz,
                        -(s.placed[k].end as int), s.placed[k].info.memsz))
  {
    ReachableInv(s);
    RseqBelowUsed(s.area.value.used);
    assert forall p :: p in s.placed ==> PlacementOk(s, s.area.value, p);
  }

  /** Each placed block starts at an address congruent to `p_vaddr` modulo its alignment, for every
      thread pointer that is itself so aligned. */
  lemma BlockAddressCongruent(s: Tls, p: Placement, tp: nat)
    requires Reachable(s) && p in s.placed
    ensures s.area.Some?
    ensures Multiple(tp, p.align) ==> Multiple(tp - p.end - p.info.vaddr, p.align)
    ensures p.align <= 4096 ==> Multiple(s.area.value.tp - p.end - p.info.vaddr, p.align)
  {
    ReachableInv(s);
    assert PlacementOk(s, s.area.value, p);
    CongruentAt(p, tp);
    if p.align <= 4096 {
      Page();
      Pow2Divides(p.align, 4096);
      MultipleThrough(s.area.value.tp, 4096, p.align);
      CongruentAt(p, s.area.value.tp);
    }
  }

  lemma CongruentAt(p: Placement, tp: nat)
    requires IsPow2(p.align) && Multiple(p.end + p.info.vaddr, p.align)
    ensures Multiple(tp, p.align) ==> Multiple(tp - p.end - p.info.vaddr, p.align)
  {
    if Multiple(tp, p.align) {
      MultipleAlgebra(tp, p.end + p.info.vaddr, p.align);
      assert tp - (p.end + p.info.vaddr) == tp - p.end - p.info.vaddr;
    }
  }

  lemma Page()
    ensures IsPow2(4096)
  {
    Pow2Sum(6, 6);
    assert Pow2(6) == 64;
    assert 4096 == Pow2(12);
  }

  /** A failed registration leaves the used space, all three tables and the placements as they were. */
  lemma FailedRegistration(s: Tls, info: TlsInfo, request: Request, grant: Grant)
    requires Register(s, info, request, grant).1.Err?
    ensures var t := Register(s, info, request, grant).0;
            && t.modules == s.modules && t.statics == s.statics && t.resolver == s.resolver && t.placed == s.placed
            && UsedInfo(t) == UsedInfo(s)
  {
  }

  // ----- The three tables -----

  /** The resolver lists exactly the live modules, each once and with its own offset, and the static
      list holds exactly the live static modules, each once and with the same offset. */
  lemma ThreeTablesAgree(s: Tls)
    requires Reachable(s)
    ensures DistinctEntries(s.resolver) && DistinctIds(s.statics)
    ensures forall id: nat, o :: (id, o) in s.resolver <==> Lookup(s, id).Some? && OffsetOf(Lookup(s, id).value) == o
    ensures forall id: nat, info, o ::
              Lookup(s, id) == Some(Static(info, o)) <==>
              exists m :: m in s.statics && m.id == id && m.info == info && m.offset == o
  {
    ReachableInv(s);
    forall id: nat, info, o
      ensures Lookup(s, id) == Some(Static(info, o)) <==>
              exists m :: m in s.statics && m.id == id && m.info == info && m.offset == o
    {
      if Lookup(s, id) == Some(Static(info, o)) {
        assert HasStatic(s.statics, id);
      }
    }
  }

  /** The whole outcome of publishing, table by table. */
  lemma PublishTables(s: Tls, source: Source, id: nat)
    requires TablesOk(s) && InitTlsOk(s, source, id)
    ensures var (t, r) := Publish(s, source, id);
            match Lookup(s, id)
            case None => t == s && r == Err(InvalidModuleId(id))
            case Some(Dynamic(info, _)) =>
              r == Ok(()) && t == s.(modules := s.modules[id - 1 := Some(Dynamic(info, Some(source)))])
            case Some(Static(info, offset)) =>
              && r == Ok(()) && t.modules == s.modules
              && t.statics == Republish(s.statics, StaticModule(id, info, Some(source), offset))
              && t.area == s.area && t.placed == s.placed && t.blocks == s.blocks
  {
    match Lookup(s, id)
    case None =>
    case Some(m) =>
      FindOffsetFinds(s.resolver, id, OffsetOf(m));
      hide TablesOk, FindOffset, Republish, Written, StaticUsedWithRseq, RseqFits, Writable;
      match m
      case Static(info, offset) => assert s.modules[id - 1 := Some(Static(info, offset))] == s.modules;
      case Dynamic(_, _) =>
  }

  /** Publishing a live module never reports a mismatch and never inserts a list entry. */
  lemma PublishLive(s: Tls, source: Source, id: nat)
    requires Reachable(s) && Lookup(s, id).Some? && PublishOk(s, source, id)
    ensures InitTlsOk(s, source, id)
    ensures Publish(s, source, id).1 == Ok(())
    ensures |Publish(s, source, id).0.statics| == |s.statics|
    ensures Lookup(s, id).value.Static? ==> FindStatic(s.statics, id) < |s.statics|
  {
    ReachableInv(s);
    PublishInitOk(s, source, id);
    PublishTables(s, source, id);
    match Lookup(s, id).value
    case Static(info, offset) => RepublishReplaces(s, StaticModule(id, info, Some(source), offset));
    case Dynamic(_, _) =>
    hide Publish, RunOk, Run, Reachable, Inv, PublishOk, InitTlsOk, FindStatic, Republish;
  }

  lemma PublishSlotSet(s: Tls, source: Source, id: nat)
    requires Inv(s) && PublishOk(s, source, id) && s.area.Some?
    requires Lookup(s, id).Some? && Lookup(s, id).value.Static?
    ensures InitTlsOk(s, source, id)
    ensures SlotPublished(s, Publish(s, source, id).0, s.area.value.tp,
                          StaticModule(id, Lookup(s, id).value.info, Some(source), Lookup(s, id).value.offset))
  {
    var m := StaticModule(id, Lookup(s, id).value.info, Some(source), Lookup(s, id).value.offset);
    PublishInitOk(s, source, id);
    PublishLiveOffset(s, id);
    PublishSlot(s, m);
    hide SlotPublished, InitStatic, FindOffset;
  }

  /** The resolver knows a live module's own offset. */
  lemma PublishLiveOffset(s: Tls, id: nat)
    requires TablesOk(s) && Lookup(s, id).Some? && Lookup(s, id).value.Static?
    ensures FindOffset(s.resolver, id) == Some(Lookup(s, id).value.offset)
  {
    FindOffsetFinds(s.resolver, id, Some(Lookup(s, id).value.offset));
  }

  /** After publishing a static module the current rseq area of the initial thread holds exactly its
      pattern, its DTV has the module's entry, and a placed block exactly the image followed by zeros. */
  lemma PublishWrites(s: Tls, source: Source, id: nat)
    requires Reachable(s) && Lookup(s, id).Some? && Lookup(s, id).value.Static?
    requires s.area.Some? && PublishOk(s, source, id)
    ensures InitTlsOk(s, source, id)
    ensures var t := Publish(s, source, id).0;
            var tp := s.area.value.tp;
            && tp in t.storage && RseqHolds(t.storage[tp].below, s.area.value.used)
            && SlotPublished(s, t, tp, StaticModule(id, Lookup(s, id).value.info, Some(source),
                                                    Lookup(s, id).value.offset))
            && (IsPlaced(s, id) && source.Image? ==>
                  Holds(t.storage[tp].below, Lookup(s, id).value.offset, source.bytes, Lookup(s, id).value.info.memsz))
  {
    ReachableInv(s);
    PublishKeeps(s, source, id);
    PublishSlotSet(s, source, id);
    hide SlotPublished;
    hide MemoryOk, TablesOk, ContentsOk, RseqHolds, Holds, Publish;
  }

  /** The module table keeps its length and its kinds; empty slots stay empty. */
  ghost predicate TableGrows(s: Tls, t: Tls) {
    && |s.modules| <= |t.modules|
    && (forall id: nat :: 1 <= id <= |s.modules| && Lookup(s, id) == None ==> Lookup(t, id) == None)
    && (forall id: nat :: 1 <= id <= |s.modules| ==> SameKind(s, t, id))
  }

  /** The module table never shrinks, and a slot that has been emptied stays empty. */
  lemma StepTableGrows(s: Tls, op: Op)
    requires Inv(s) && Enabled(s, op)
    ensures TableGrows(s, Step(s, op))
  {
    hide DtvsOk, DtvLinks, BlocksOk, AllocationsOk, ArenaOk, ContentsOk, InitEnabled, BaseFresh, TablesAgree,
         SourcesFit, StaticSourcesFit, LayoutOk, Register, GetAddr, Init, Publish, AllocateStorage, DeallocateTcb,
         PublishOk, RoomFor;
    match op
    case OpPublish(source, id) =>
      PublishInitOk(s, source, id);
      PublishTables(s, source, id);
    case OpAllocate(base, dtv) =>
      AllocateStorageKeeps(s, base);
      var (s1, tp) := AllocateStorage(s, base);
      if tp.Some? { InitWrites(s1, tp.value, dtv); }
    case OpInit(tp, dtv) => InitWrites(s, tp, dtv);
    case _ =>
  }

  /** Ids are never reused: a registration anywhere later in a run returns an id above every id that
      was in the table before, and a dead id stays dead. */
  lemma {:induction false} RunTableGrows(s: Tls, ops: seq<Op>)
    requires Inv(s) && RunOk(s, ops)
    ensures TableGrows(s, Run(s, ops))
    decreases |ops|
  {
    if ops != [] {
      var s1 := Step(s, ops[0]);
      StepTableGrows(s, ops[0]);
      RunTableGrows(s1, ops[1..]);
      var t := Run(s, ops);
      hide Inv, RunOk, Run, Step;
      forall id: nat | 1 <= id <= |s.modules|
        ensures SameKind(s, t, id)
      {
        assert SameKind(s, s1, id) && SameKind(s1, t, id);
      }
    }
  }

  lemma IdsNeverReused(s: Tls, ops: seq<Op>, info: TlsInfo, request: Request, grant: Grant)
    requires Inv(s) && RunOk(s, ops)
    ensures var r := Register(Run(s, ops), info, request, grant).1;
            r.Ok? ==> r.value > |s.modules| && Lookup(s, r.value).None?
  {
    RunTableGrows(s, ops);
    RegisterReturnsNext(Run(s, ops), info, request, grant);
  }

  lemma RegisterReturnsNext(s: Tls, info: TlsInfo, request: Request, grant: Grant)
    ensures var (t, r) := Register(s, info, request, grant);
            r.Ok? ==> r.value == |s.modules| + 1 && |t.modules| == |s.modules| + 1
  {
  }

  // ----- Published blocks persist -----

  /** The operation neither publishes nor unregisters the module. */
  ghost predicate LeavesModule(op: Op, id: nat) {
    && (op.OpPublish? ==> op.id != id)
    && (op.OpUnregister? ==> op.id != id)
  }

  lemma StepKeepsModule(s: Tls, op: Op, m: StaticModule)
    requires Inv(s) && Enabled(s, op) && m in s.statics && LeavesModule(op, m.id)
    ensures m in Step(s, op).statics
    ensures IsPlaced(s, m.id) ==> IsPlaced(Step(s, op), m.id)
    ensures s.area.Some? ==> Step(s, op).area.Some? && Step(s, op).area.value.tp == s.area.value.tp
  {
    hide DtvsOk, DtvLinks, BlocksOk, AllocationsOk, ArenaOk, ContentsOk, InitEnabled, BaseFresh, TablesAgree,
         SourcesFit, StaticSourcesFit, LayoutOk, GetAddr, Init, Publish, AllocateStorage, DeallocateTcb, PublishOk,
         RoomFor, Republish, Register, WithoutStatic;
    match op
    case OpRegister(info, request, grant) => RegisterKeepsModule(s, info, request, grant, m);
    case OpPublish(source, id) =>
      PublishInitOk(s, source, id);
      PublishTables(s, source, id);
      RepublishKeeps(s, source, id, m);
    case OpUnregister(id) => WithoutStaticMembers(s.statics, id);
    case OpAllocate(base, dtv) =>
      AllocateStorageKeeps(s, base);
      var (s1, tp) := AllocateStorage(s, base);
      if tp.Some? { InitWrites(s1, tp.value, dtv); }
    case OpInit(tp, dtv) => InitWrites(s, tp, dtv);
    case _ =>
  }

  lemma RepublishKeeps(s: Tls, source: Source, id: nat, m: StaticModule)
    requires TablesOk(s) && m in s.statics && m.id != id
    ensures match Lookup(s, id)
            case Some(Static(info, offset)) => m in Republish(s.statics, StaticModule(id, info, Some(source), offset))
            case _ => true
  {
    match Lookup(s, id)
    case Some(Static(info, offset)) => RepublishReplaces(s, StaticModule(id, info, Some(source), offset));
    case _ =>
  }

  lemma RegisterKeepsModule(s: Tls, info: TlsInfo, request: Request, grant: Grant, m: StaticModule)
    requires m in s.statics
    ensures var t := Register(s, info, request, grant).0;
            && m in t.statics
            && (IsPlaced(s, m.id) ==> IsPlaced(t, m.id))
            && (s.area.Some? ==> t.area.Some? && t.area.value.tp == s.area.value.tp)
  {
    var t := Register(s, info, request, grant).0;
    assert s.statics <= t.statics;
    assert s.placed <= t.placed;
  }

  /** Once published, a placed block of the initial thread holds exactly that image, then zeros, at the
      end of every run that does not publish or unregister the module again. */
  lemma {:induction false} PublishedBlockPersists(s: Tls, ops: seq<Op>, m: StaticModule)
    requires Inv(s) && RunOk(s, ops) && m in s.statics && IsPlaced(s, m.id) && s.area.Some?
    requires forall op :: op in ops ==> LeavesModule(op, m.id)
    requires m.source.Some? && m.source.value.Image?
    ensures var t := Run(s, ops);
            && t.area.Some? && t.area.value.tp == s.area.value.tp && t.area.value.tp in t.storage
            && Holds(t.storage[t.area.value.tp].below, m.offset, m.source.value.bytes, m.info.memsz)
    decreases |ops|
  {
    if ops != [] {
      assert ops[0] in ops;
      StepKeepsModule(s, ops[0], m);
      PublishedBlockPersists(Step(s, ops[0]), ops[1..], m);
    }
  }

  // ----- No dangling DTV -----

  /** A live block recorded for the thread, with the layout it was allocated with. */
  ghost predicate LiveBlock(s: Tls, tp: nat, v: int) {
    exists r :: r in s.records && r.tp == tp && r.ptr == v && r.ptr in s.blocks && s.blocks[r.ptr].layout == r.layout
  }

  lemma RecordedIsLive(s: Tls, tp: nat, v: int)
    requires BlocksOk(s) && Recorded(s, tp, v)
    ensures LiveBlock(s, tp, v)
  {
    var r :| r in s.records && r.tp == tp && r.ptr == v;
  }

  /** The second word of the thread's entry for the id: the block to free with it, or 0. */
  ghost function ToFree(s: Tls, tp: nat, id: nat): int
    requires DtvsOk(s) && tp in s.storage
  {
    match DtvIndex(s, tp, id)
    case None => 0
    case Some(i) => s.dtvs[s.storage[tp].tcb.dtv][i].second
  }

  /** Every DTV entry that owns a block, and every set entry of a dynamic module, points to a live block recorded
      for that thread, also when the module has been unregistered since; a static module's entry is the
      block's own address. */
  lemma NoDanglingDtv(s: Tls, tp: nat, id: nat, v: int)
    requires Reachable(s) && HasValue(s, tp, id, v)
    ensures ToFree(s, tp, id) != 0 ==> ToFree(s, tp, id) == v && LiveBlock(s, tp, v)
    ensures Lookup(s, id).Some? && Lookup(s, id).value.Dynamic? ==> LiveBlock(s, tp, v) && ToFree(s, tp, id) == v
    ensures Lookup(s, id).Some? && Lookup(s, id).value.Static? ==> v == tp + Lookup(s, id).value.offset
  {
    ReachableInv(s);
    hide RunOk, Run, Reachable, TablesOk, ArenaOk, ContentsOk, LiveBlock, Recorded, ToFree, HasValue;
    EntryMeaning(s, tp, id, v);
    if ToFree(s, tp, id) != 0 { RecordedIsLive(s, tp, v); }
  }

  /** What the invariant says of a set entry. */
  lemma EntryMeaning(s: Tls, tp: nat, id: nat, v: int)
    requires MemoryOk(s) && HasValue(s, tp, id, v)
    ensures ToFree(s, tp, id) != 0 ==> ToFree(s, tp, id) == v && Recorded(s, tp, v)
    ensures Lookup(s, id).Some? && Lookup(s, id).value.Dynamic? ==> ToFree(s, tp, id) != 0
    ensures Lookup(s, id).Some? && Lookup(s, id).value.Static? ==> v == tp + Lookup(s, id).value.offset
  {
    hide BlocksOk, AllocationsOk, Recorded;
    assert EntriesOk(s, tp);
    assert EntryOk(s, tp, id, s.dtvs[s.storage[tp].tcb.dtv][DtvIndex(s, tp, id).value]);
  }

  /** The DTV layout recomputed from its length word when it is freed is the one it was allocated with. */
  lemma DtvLayoutRecomputed(s: Tls, tp: nat)
    requires Reachable(s) && tp in s.storage
    ensures s.storage[tp].tcb.dtv != 0 ==>
              && s.storage[tp].tcb.dtv in s.dtvs
              && |s.dtvs[s.storage[tp].tcb.dtv]| == s.dtvs[s.storage[tp].tcb.dtv][0].first + 2
  {
    ReachableInv(s);
  }

  // ----- Lazy allocation -----

  /** The operation resets the thread's DTV or takes its storage away. */
  ghost predicate Resets(op: Op, tp: nat) {
    match op
    case OpInit(t, _) => t == tp
    case OpDeallocate(t, _) => t == tp
    case OpReclaim(t) => t == tp
    case _ => false
  }

  ghost predicate NotStatic(s: Tls, id: nat) {
    1 <= id <= |s.modules| && (Lookup(s, id).Some? ==> Lookup(s, id).value.Dynamic?)
  }

  /** The thread's entry for the module is set to this address. */
  ghost predicate HasValue(s: Tls, tp: nat, id: nat, v: int) {
    DtvsOk(s) && tp in s.storage && DtvValue(s, tp, id) == Some(v)
  }

  lemma SameDtvSameValue(s: Tls, t: Tls, tp: nat, id: nat, v: int)
    requires HasValue(s, tp, id, v) && DtvsOk(t) && SameDtv(s, t, tp)
    ensures HasValue(t, tp, id, v)
  {
  }

  /** Writing another entry leaves this one alone. */
  lemma SetOtherKeepsValue(s: Tls, tp: nat, id: nat, v: int, u: nat, other: nat, value: int, toFree: int)
    requires DtvsOk(s) && HasValue(s, tp, id, v) && u in s.storage && (u != tp || other != id)
    requires u == tp || s.storage[u].tcb.dtv == 0 || s.storage[u].tcb.dtv != s.storage[tp].tcb.dtv
    ensures HasValue(SetDtvValue(s, u, other, value, toFree).0, tp, id, v)
  {
  }

  /** Publishing a module cannot change the entry of a different one. */
  lemma PublishKeepsValue(s: Tls, source: Source, pub: nat, tp: nat, id: nat, v: int)
    requires Inv(s) && PublishOk(s, source, pub) && HasValue(s, tp, id, v) && NotStatic(s, id)
    ensures HasValue(StepPublish(s, source, pub), tp, id, v)
    ensures StepPublish(s, source, pub).blocks == s.blocks && StepPublish(s, source, pub).records == s.records
  {
    PublishInitOk(s, source, pub);
    PublishTables(s, source, pub);
    match Lookup(s, pub)
    case Some(Static(info, offset)) =>
      FindOffsetFinds(s.resolver, pub, Some(offset));
      InitStaticKeepsValue(s, StaticModule(pub, info, Some(source), offset), tp, id, v);
    case _ =>
  }

  lemma InitStaticKeepsValue(s: Tls, m: StaticModule, tp: nat, id: nat, v: int)
    requires MemoryOk(s) && HasValue(s, tp, id, v) && m.id != id
    requires 1 <= m.id <= |s.modules| && InitStaticOk(s, m)
    ensures HasValue(InitStatic(s, m), tp, id, v)
  {
    var s1 := WithStatic(s, m);
    TablesKeepValue(s, s1, tp, id, v);
    assert s1.storage == s.storage;
    hide WithStatic;
    if s.area.Some? {
      var u := s.area.value.tp;
      DtvsApart(s, u, tp);
      hide MemoryOk, DtvsOk, InitStaticModule, HasValue, Republish, InitRseq, RseqFits, Writable;
      InitStaticModuleKeepsValue(s1, m, u, tp, id, v);
      RseqKeepsValue(InitStaticModule(s1, u, m), u, s.area.value.used, tp, id, v);
    }
  }

  lemma TablesKeepValue(s: Tls, t: Tls, tp: nat, id: nat, v: int)
    requires HasValue(s, tp, id, v) && t.storage == s.storage && t.dtvs == s.dtvs
    ensures HasValue(t, tp, id, v) && DtvsOk(t)
  {
  }

  lemma DtvsApart(s: Tls, u: nat, tp: nat)
    requires MemoryOk(s) && u in s.storage && tp in s.storage
    ensures DtvsOk(s)
    ensures u == tp || s.storage[u].tcb.dtv == 0 || s.storage[u].tcb.dtv != s.storage[tp].tcb.dtv
  {
  }

  lemma RseqKeepsValue(s: Tls, u: nat, used: usize, tp: nat, id: nat, v: int)
    requires HasValue(s, tp, id, v) && u in s.storage && RseqFits(|s.storage[u].below|, used)
    ensures HasValue(InitRseq(s, u, used), tp, id, v)
  {
  }

  lemma InitStaticModuleKeepsValue(s: Tls, m: StaticModule, u: nat, tp: nat, id: nat, v: int)
    requires DtvsOk(s) && HasValue(s, tp, id, v) && u in s.storage && m.id != id && Writable(|s.storage[u].below|, m)
    requires u == tp || s.storage[u].tcb.dtv == 0 || s.storage[u].tcb.dtv != s.storage[tp].tcb.dtv
    ensures HasValue(InitStaticModule(s, u, m), tp, id, v)
  {
    if m.source.Some? && m.source.value.Image? {
      var st := s.storage[u];
      var s1 := s.(storage := s.storage[u := st.(below := Written(st.below, m))]);
      assert HasValue(s1, tp, id, v);
      hide Written, Writable;
      SetOtherKeepsValue(s1, tp, id, v, u, m.id, u + m.offset, 0);
    }
  }

  lemma RegisterKeepsValue(s: Tls, info: TlsInfo, request: Request, grant: Grant, tp: nat, id: nat, v: int)
    requires HasValue(s, tp, id, v) && (request.RequestStatic? && s.area.None? ==> GrantOk(s, grant))
    ensures var t := Register(s, info, request, grant).0;
            DtvsOk(t) ==> HasValue(t, tp, id, v)
    ensures var t := Register(s, info, request, grant).0; t.blocks == s.blocks && t.records == s.records
  {
    RegisterMemory(s, info, request, grant);
    if request.RequestStatic? { EnsureAreaKeepsDtv(s, grant, tp); }
    hide Register, EnsureArea;
  }

  /** Only the first static registration touches memory, by setting up the initial area. */
  lemma RegisterMemory(s: Tls, info: TlsInfo, request: Request, grant: Grant)
    ensures var t := Register(s, info, request, grant).0;
            var s1 := if request.RequestStatic? then EnsureArea(s, grant).0 else s;
            t.storage == s1.storage && t.dtvs == s1.dtvs && t.blocks == s1.blocks && t.records == s1.records
    ensures EnsureArea(s, grant).0.blocks == s.blocks && EnsureArea(s, grant).0.records == s.records
  {
    assert EnsureArea(s, grant).0.blocks == s.blocks && EnsureArea(s, grant).0.records == s.records;
    hide EnsureArea, StaticModuleEnd, StaticUsedWithRseq, NextPow2;
  }

  lemma EnsureAreaKeepsDtv(s: Tls, grant: Grant, tp: nat)
    requires s.area.None? ==> GrantOk(s, grant)
    ensures SameDtv(s, EnsureArea(s, grant).0, tp)
  {
  }

  lemma GetAddrKeepsValue(s: Tls, u: nat, other: nat, tiOffset: nat, ptr: nat, tp: nat, id: nat, v: int)
    requires Inv(s) && (u != 0 ==> u in s.storage) && PtrFresh(s, ptr) && HasValue(s, tp, id, v)
    ensures var t := GetAddr(s, u, other, tiOffset, ptr).0;
            && HasValue(t, tp, id, v) && s.records <= t.records
            && (forall b :: b in s.blocks ==> b in t.blocks && t.blocks[b] == s.blocks[b])
  {
    if u != 0 {
      DtvsApart(s, u, tp);
      if u != tp || other != id {
        hide MemoryOk, TablesOk, ArenaOk, ContentsOk, HasValue, SetDtvValue, DtvIndex, DtvValue, DynamicLayout;
        if Lookup(s, other).Some? && Lookup(s, other).value.Dynamic? && DtvValue(s, u, other).None? {
          SetOtherKeepsValue(s, tp, id, v, u, other, ptr, ptr);
          AllocateKeepsValue(s, u, other, Lookup(s, other).value.info, Lookup(s, other).value.source, ptr, tp, id, v);
        }
      }
    }
  }

  lemma AllocateKeepsValue(s: Tls, u: nat, other: nat, info: TlsInfo, source: Option<Source>, ptr: nat,
                           tp: nat, id: nat, v: int)
    requires ThreadOk(s, u) && u != 0 && PtrFresh(s, ptr) && HasValue(s, tp, id, v)
    requires source.Some? && source.value.Image? ==> |source.value.bytes| <= info.memsz
    requires HasValue(SetDtvValue(s, u, other, ptr, ptr).0, tp, id, v)
    ensures var t := AllocateDynamic(s, u, other, info, source, ptr).0;
            && HasValue(t, tp, id, v) && s.records <= t.records
            && (forall b :: b in s.blocks ==> b in t.blocks && t.blocks[b] == s.blocks[b])
  {
    hide DynamicLayout, SetDtvValue;
    var s1 := SetDtvValue(s, u, other, ptr, ptr).0;
    var t := AllocateDynamic(s, u, other, info, source, ptr).0;
    if t.dtvs == s.dtvs {
      TablesKeepValue(s, t, tp, id, v);
    } else {
      TablesKeepValue(s1, t, tp, id, v);
    }
  }

  lemma DeallocateKeepsValue(s: Tls, u: nat, deallocTcb: bool, tp: nat, id: nat, v: int)
    requires Inv(s) && u != 0 && u in s.storage && u != tp && HasValue(s, tp, id, v) && Recorded(s, tp, v)
    ensures var t := DlDeallocate(s, u, deallocTcb);
            && (DtvsOk(t) ==> HasValue(t, tp, id, v)) && Recorded(t, tp, v)
            && v in s.blocks && v in t.blocks && t.blocks[v] == s.blocks[v]
  {
    var r :| r in s.records && r.tp == tp && r.ptr == v;
    var s1 := DeallocateTcb(s, u);
    OthersNotFreed(s, u, r);
    var t := DlDeallocate(s, u, deallocTcb);
    assert r in t.records;
    hide LayoutOk, TablesAgree, SourcesFit, StaticSourcesFit, ContentsOk, ArenaOk, BlocksOk, AllocationsOk, EntriesOk;
    assert SameDtv(s, s1, tp);
    assert SameDtv(s1, t, tp);
  }

  ghost predicate ValueKept(s: Tls, t: Tls, tp: nat, id: nat, v: int) {
    && HasValue(t, tp, id, v) && Recorded(t, tp, v)
    && v in s.blocks && v in t.blocks && t.blocks[v] == s.blocks[v]
  }

  lemma InvDtvs(s: Tls)
    requires Inv(s)
    ensures DtvsOk(s)
  {
    hide TablesOk, ArenaOk, ContentsOk;
  }

  lemma ModuleStepKeepsValue(s: Tls, op: Op, tp: nat, id: nat, v: int)
    requires Inv(s) && Enabled(s, op) && !Resets(op, tp) && LiveBlock(s, tp, v)
    requires HasValue(s, tp, id, v) && NotStatic(s, id) && Recorded(s, tp, v)
    requires op.OpRegister? || op.OpPublish? || op.OpUnregister? || op.OpGetAddr?
    ensures ValueKept(s, Step(s, op), tp, id, v)
  {
    hide MemoryOk, TablesOk, ArenaOk, ContentsOk, PublishOk, HasValue, Register, GetAddr, Publish, Unregister;
    InvDtvs(Step(s, op));
    match op
    case OpRegister(info, request, grant) => RegisterKeepsValue(s, info, request, grant, tp, id, v);
    case OpPublish(source, pub) => PublishKeepsValue(s, source, pub, tp, id, v);
    case OpUnregister(gone) => UnregisterMemory(s, gone); TablesKeepValue(s, Unregister(s, gone), tp, id, v);
    case OpGetAddr(u, other, tiOffset, ptr) => GetAddrKeepsValue(s, u, other, tiOffset, ptr, tp, id, v);
  }

  lemma ThreadStepKeepsValue(s: Tls, op: Op, tp: nat, id: nat, v: int)
    requires Inv(s) && Enabled(s, op) && !Resets(op, tp) && LiveBlock(s, tp, v)
    requires HasValue(s, tp, id, v) && NotStatic(s, id) && Recorded(s, tp, v)
    requires !(op.OpRegister? || op.OpPublish? || op.OpUnregister? || op.OpGetAddr?)
    ensures ValueKept(s, Step(s, op), tp, id, v)
  {
    hide MemoryOk, TablesOk, ArenaOk, ContentsOk, InitEnabled, BaseFresh, HasValue,
         Init, AllocateStorage, DlDeallocate, RoomFor;
    InvDtvs(Step(s, op));
    match op
    case OpAllocate(base, dtv) => AllocateStepKeepsValue(s, base, dtv, tp, id, v);
    case OpInit(u, dtv) => InitStepKeepsValue(s, u, dtv, tp, id, v);
    case OpDeallocate(u, deallocTcb) =>
      if u != 0 { DeallocateKeepsValue(s, u, deallocTcb, tp, id, v); } else { ZeroDeallocate(s, deallocTcb); }
    case _ => SupplyStepKeepsValue(s, op, tp, id, v);
  }

  /** A set entry of a dynamic module, its record and its block survive every operation that does not
      reset the thread. */
  lemma StepKeepsValue(s: Tls, op: Op, tp: nat, id: nat, v: int)
    requires Inv(s) && Enabled(s, op) && !Resets(op, tp)
    requires HasValue(s, tp, id, v) && NotStatic(s, id) && Recorded(s, tp, v)
    ensures ValueKept(s, Step(s, op), tp, id, v)
  {
    RecordedIsLive(s, tp, v);
    hide MemoryOk, TablesOk, ArenaOk, ContentsOk, HasValue, Recorded, LiveBlock, ValueKept, Enabled;
    if op.OpRegister? || op.OpPublish? || op.OpUnregister? || op.OpGetAddr? {
      ModuleStepKeepsValue(s, op, tp, id, v);
    } else {
      ThreadStepKeepsValue(s, op, tp, id, v);
    }
  }

  lemma UnregisterMemory(s: Tls, id: nat)
    ensures var t := Unregister(s, id);
            t.storage == s.storage && t.dtvs == s.dtvs && t.blocks == s.blocks && t.records == s.records
  {
  }

  lemma ZeroDeallocate(s: Tls, deallocTcb: bool)
    ensures DlDeallocate(s, 0, deallocTcb) == s
  {
  }

  lemma SupplyKeepsValue(s: Tls, storage: map<nat, Storage>, tp: nat, id: nat, v: int)
    requires HasValue(s, tp, id, v) && tp in storage && storage[tp] == s.storage[tp] && DtvsOk(s.(storage := storage))
    ensures HasValue(s.(storage := storage), tp, id, v)
  {
  }

  lemma SupplyStepKeepsValue(s: Tls, op: Op, tp: nat, id: nat, v: int)
    requires Inv(s) && Enabled(s, op) && !Resets(op, tp) && (op.OpSupply? || op.OpReclaim?) && HasValue(s, tp, id, v)
    ensures var t := Step(s, op); HasValue(t, tp, id, v) && t.blocks == s.blocks && t.records == s.records
  {
    StepKeeps(s, op);
    hide TablesOk, ArenaOk, ContentsOk, HasValue;
    match op
    case OpSupply(u, st) =>
      assert MemoryOk(s.(storage := s.storage[u := st]));
      SupplyKeepsValue(s, s.storage[u := st], tp, id, v);
    case OpReclaim(u) =>
      assert MemoryOk(s.(storage := s.storage - {u}));
      SupplyKeepsValue(s, s.storage - {u}, tp, id, v);
  }

  lemma InitStepKeepsValue(s: Tls, u: nat, dtv: nat, tp: nat, id: nat, v: int)
    requires Inv(s) && InitEnabled(s, u, dtv) && u != tp && HasValue(s, tp, id, v)
    ensures var t := StepInit(s, u, dtv);
            HasValue(t, tp, id, v) && t.blocks == s.blocks && t.records == s.records
  {
    InitWrites(s, u, dtv);
    hide TablesOk, ArenaOk, ContentsOk, InitEnabled, RoomFor, Init;
    SameDtvSameValue(s, StepInit(s, u, dtv), tp, id, v);
  }

  lemma AllocateStepKeepsValue(s: Tls, base: nat, dtv: nat, tp: nat, id: nat, v: int)
    requires Inv(s) && Enabled(s, OpAllocate(base, dtv)) && HasValue(s, tp, id, v)
    ensures var t := StepAllocate(s, base, dtv);
            HasValue(t, tp, id, v) && t.blocks == s.blocks && t.records == s.records
  {
    AllocateStorageKeeps(s, base);
    NewStorageApart(s, base, tp, id, v);
    hide MemoryOk, TablesOk, ArenaOk, ContentsOk, HasValue, InitEnabled, AllocateStorage, Init, RoomFor;
    var (s1, r) := AllocateStorage(s, base);
    if r.Some? {
      InitWrites(s1, r.value, dtv);
      InitStepKeepsValue(s1, r.value, dtv, tp, id, v);
    }
  }

  lemma NewStorageApart(s: Tls, base: nat, tp: nat, id: nat, v: int)
    requires HasValue(s, tp, id, v) && BaseFresh(s, base) && DtvsOk(AllocateStorage(s, base).0)
    ensures var (t, r) := AllocateStorage(s, base);
            HasValue(t, tp, id, v) && (r.Some? ==> r.value != tp)
  {
    hide StorageLayout;
  }

  lemma {:induction false} RunKeepsValue(s: Tls, ops: seq<Op>, tp: nat, id: nat, v: int)
    requires Inv(s) && RunOk(s, ops) && (forall op :: op in ops ==> !Resets(op, tp))
    requires HasValue(s, tp, id, v) && NotStatic(s, id) && Recorded(s, tp, v)
    ensures var t := Run(s, ops);
            && HasValue(t, tp, id, v) && Recorded(t, tp, v)
            && v in s.blocks && v in t.blocks && t.blocks[v] == s.blocks[v]
    decreases |ops|
  {
    RecordedIsLive(s, tp, v);
    if ops != [] {
      assert ops[0] in ops;
      StepKeepsValue(s, ops[0], tp, id, v);
      StepTableGrows(s, ops[0]);
      assert SameKind(s, Step(s, ops[0]), id);
      hide Inv, HasValue, Recorded;
      RunKeepsValue(Step(s, ops[0]), ops[1..], tp, id, v);
    }
  }

  /** When a lookup of a dynamic module can hand out an address: the entry is set, or there is a DTV slot
      for it, an image to copy and a representable layout. */
  ghost predicate Resolvable(s: Tls, tp: nat, id: nat)
    requires ThreadOk(s, tp) && tp != 0 && Lookup(s, id).Some? && Lookup(s, id).value.Dynamic?
  {
    || DtvValue(s, tp, id).Some?
    || (&& DtvIndex(s, tp, id).Some? && DynamicLayout(Lookup(s, id).value.info).Some?
        && Lookup(s, id).value.source.Some? && Lookup(s, id).value.source.value.Image?)
  }

  /** A first access allocates a block that holds the image and then zeros, and enters it in the DTV;
      a later one returns the entry; otherwise the result is null and no entry changes. */
  lemma GetAddrDynamic(s: Tls, tp: nat, id: nat, tiOffset: nat, ptr: nat)
    requires Inv(s) && tp in s.storage && PtrFresh(s, ptr) && Lookup(s, id).Some? && Lookup(s, id).value.Dynamic?
    ensures var (t, r) := GetAddr(s, tp, id, tiOffset, ptr);
            var m := Lookup(s, id).value;
            if Resolvable(s, tp, id) then
              && r != 0 && HasValue(t, tp, id, r - tiOffset) && Recorded(t, tp, r - tiOffset)
              && (DtvValue(s, tp, id).None? ==>
                    && r == ptr + tiOffset
                    && t.blocks == s.blocks[ptr := Block(DynamicLayout(m.info).value,
                                                         ImageThenZeros(m.source.value.bytes, Max(m.info.memsz, 1)))])
            else r == 0 && t.dtvs == s.dtvs && t.records == s.records
  {
    assert SourcesFit(s) && s.modules[id - 1] == Lookup(s, id);
    if DtvValue(s, tp, id).Some? {
      EntryMeaning(s, tp, id, DtvValue(s, tp, id).value);
      EntryPositive(s, tp, id);
    } else {
      hide DtvLinks, BlocksOk, AllocationsOk, TablesOk, ArenaOk, ContentsOk, NextPow2, MakeLayout;
      var t := GetAddr(s, tp, id, tiOffset, ptr).0;
      if Resolvable(s, tp, id) {
        var layout := DynamicLayout(Lookup(s, id).value.info).value;
        assert layout.size == Max(Lookup(s, id).value.info.memsz, 1);
        assert DynamicBlock(tp, ptr, layout) in t.records;
      }
    }
  }

  lemma EntryPositive(s: Tls, tp: nat, id: nat)
    requires MemoryOk(s) && tp in s.storage && DtvValue(s, tp, id).Some?
    requires Lookup(s, id).Some? && Lookup(s, id).value.Dynamic?
    ensures DtvValue(s, tp, id).value > 0
  {
    EntryMeaning(s, tp, id, DtvValue(s, tp, id).value);
  }

  /** A lookup returns this address and changes nothing. */
  ghost predicate Answers(s: Tls, tp: nat, id: nat, tiOffset: nat, ptr: nat, address: int) {
    ThreadOk(s, tp) && SourcesFit(s) && GetAddr(s, tp, id, tiOffset, ptr) == (s, address)
  }

  /** Once the entry is set, every later lookup of the live module returns the same block, until the
      thread is reset. */
  lemma AddressStableOnceSet(s: Tls, tp: nat, id: nat, v: int, ops: seq<Op>, later: nat, ptr: nat)
    requires Inv(s) && RunOk(s, ops) && (forall op :: op in ops ==> !Resets(op, tp))
    requires HasValue(s, tp, id, v) && NotStatic(s, id) && Recorded(s, tp, v)
    requires Lookup(Run(s, ops), id).Some?
    ensures Answers(Run(s, ops), tp, id, later, ptr, v + later)
  {
    RunKeepsValue(s, ops, tp, id, v);
    RunTableGrows(s, ops);
    var t := Run(s, ops);
    assert SameKind(s, t, id);
    hide MemoryOk, TablesOk, ArenaOk, ContentsOk, HasValue, RunOk, Run;
    ValueReturned(t, tp, id, v, later, ptr);
  }

  /** Between resets of a thread, every lookup of a live dynamic module after the first successful one
      returns the same block, with whatever offset it asks for. */
  lemma AddressStable(s: Tls, s1: Tls, r: int, tp: nat, id: nat, first: nat, ptr: nat, ops: seq<Op>, later: nat,
                      ptr': nat)
    requires Inv(s) && tp in s.storage && PtrFresh(s, ptr) && Lookup(s, id).Some? && Lookup(s, id).value.Dynamic?
    requires (s1, r) == GetAddr(s, tp, id, first, ptr) && r != 0
    requires Inv(s1) && RunOk(s1, ops) && (forall op :: op in ops ==> !Resets(op, tp))
    requires Lookup(Run(s1, ops), id).Some?
    ensures Answers(Run(s1, ops), tp, id, later, ptr', r - first + later)
  {
    hide Inv, MemoryOk, TablesOk, ArenaOk, ContentsOk, Resolvable, HasValue, Recorded, Answers, RunOk, Run, GetAddr;
    FirstLookup(s, tp, id, first, ptr);
    AddressStableOnceSet(s1, tp, id, r - first, ops, later, ptr');
  }

  lemma FirstLookup(s: Tls, tp: nat, id: nat, first: nat, ptr: nat)
    requires Inv(s) && tp in s.storage && PtrFresh(s, ptr) && Lookup(s, id).Some? && Lookup(s, id).value.Dynamic?
    requires GetAddr(s, tp, id, first, ptr).1 != 0
    ensures var (t, r) := GetAddr(s, tp, id, first, ptr);
            NotStatic(t, id) && HasValue(t, tp, id, r - first) && Recorded(t, tp, r - first)
  {
    GetAddrDynamic(s, tp, id, first, ptr);
    hide MemoryOk, TablesOk, ArenaOk, ContentsOk, Resolvable, HasValue, Recorded;
    assert GetAddr(s, tp, id, first, ptr).0.modules == s.modules;
  }

  lemma ValueReturned(s: Tls, tp: nat, id: nat, v: int, tiOffset: nat, ptr: nat)
    requires Inv(s) && HasValue(s, tp, id, v) && Lookup(s, id).Some? && Lookup(s, id).value.Dynamic?
    ensures Answers(s, tp, id, tiOffset, ptr, v + tiOffset)
  {
  }

  /** Blocks that are allocated but recorded for no thread: nothing will ever free them. */
  ghost function Leaked(s: Tls): set<nat> {
    s.blocks.Keys - (set r | r in s.records :: r.ptr)
  }

  /** A lookup loses a block exactly when it is the first access to a module that is registered but
      not yet published: the block is allocated before the missing image is noticed. */
  lemma LookupLeaksExactly(s: Tls, tp: nat, id: nat, tiOffset: nat, ptr: nat)
    requires Inv(s) && (tp != 0 ==> tp in s.storage) && PtrFresh(s, ptr)
    ensures Leaked(GetAddr(s, tp, id, tiOffset, ptr).0) == Leaked(s) <==>
            !(&& tp != 0 && Lookup(s, id).Some? && Lookup(s, id).value.Dynamic? && Lookup(s, id).value.source.None?
              && DtvValue(s, tp, id).None? && DynamicLayout(Lookup(s, id).value.info).Some?)
  {
    var t := GetAddr(s, tp, id, tiOffset, ptr).0;
    hide DtvLinks, AllocationsOk, TablesAgree, StaticSourcesFit, LayoutOk, ArenaOk, ContentsOk, DynamicLayout,
         SetDtvValue, DtvValue;
    if t.records != s.records {
      var layout := DynamicLayout(Lookup(s, id).value.info).value;
      assert t.records == s.records + {DynamicBlock(tp, ptr, layout)};
      assert t.blocks.Keys == s.blocks.Keys + {ptr};
      assert (set r | r in t.records :: r.ptr) == (set r | r in s.records :: r.ptr) + {ptr};
    } else if t.blocks != s.blocks {
      assert ptr in Leaked(t) && ptr !in Leaked(s);
    }
  }

  // ----- New threads -----

  /** Storage from `_dl_allocate_tls` is sized and aligned as reported to the C library, and its thread
      pointer is aligned for every placed module. */
  lemma NewThreadStorage(s: Tls, base: nat)
    requires Inv(s) && BaseFresh(s, base) && StorageLayout(s).Some?
    ensures var (layout, staticSize) := StorageLayout(s).value;
            && StaticInfo(s) == (layout.size, layout.align)
            && layout.size == staticSize + TLS_TCB_SIZE
            && (forall p :: p in s.placed ==>
                  && Multiple(base + staticSize, p.align)
                  && Multiple(base + staticSize - p.end - p.info.vaddr, p.align))
  {
    StorageMatchesStaticInfo(s);
    AllocatedTpAligned(s, base);
    hide Inv, BaseFresh, StaticInfo, Multiple, StorageLayout;
  }

  /** The thread's control block and DTV are set up, every placed published block holds its image and then zeros,
      and the rseq area its pattern, within `size` bytes below the thread pointer. */
  ghost predicate ThreadReady(s: Tls, t: Tls, tp: nat, dtv: nat, size: nat) {
    && tp in t.storage && |t.storage[tp].below| == size
    && t.storage[tp].tcb == Tcb(tp, dtv, tp, BOOTSTRAP_STACK_GUARD, BOOTSTRAP_POINTER_GUARD)
    && SlotsFrom(t, tp, s.statics)
    && (s.area.Some? ==> AllHeld(s, s.statics, t.storage[tp].below))
    && RseqHolds(t.storage[tp].below, UsedInfo(s).0)
  }

  /** What the new thread starts with: its control block set up, its DTV holding the entries of the published
      static modules and no others, every placed published block holding
      image then zeros, and the rseq area its pattern, all inside the allocation. */
  lemma NewThreadContents(s: Tls, base: nat, dtv: nat, tp: nat, size: usize)
    requires Inv(s) && Enabled(s, OpAllocate(base, dtv))
    requires StorageLayout(s).Some? && size == StorageLayout(s).value.1 && tp == base + size
    ensures ThreadReady(s, StepAllocate(s, base, dtv), tp, dtv, size)
  {
    hide MemoryOk, TablesOk, ArenaOk, ContentsOk, InitEnabled, RoomFor, Init, StorageLayout, RseqHolds,
         PublishedHolds, BaseFresh, SlotsFrom;
    AllocateStorageKeeps(s, base);
    var s1 := AllocateStorage(s, base).0;
    InitWrites(s1, tp, dtv);
    SamePlaced(s, s1);
    assert UsedInfo(s1) == UsedInfo(s);
  }
}

/** Thread storage: allocation, initialisation, lazy dynamic blocks and release. */
module TlsThreads {
  import opened Usize
  import opened TlsLayout
  import opened TlsState
  import opened TlsInvariant
  import opened TlsRegister
  import opened TlsPublish
  import opened TlsSlots

  // ----- Initialisation -----

  /** What initialising a thread's storage relies on: room for the current layout, a fresh DTV, and
      modules added at fixed offsets that stay inside the storage and off the placed blocks. */
  ghost predicate InitEnabled(s: Tls, tp: nat, dtv: nat) {
    && tp in s.storage && dtv != 0 && dtv !in s.dtvs
    && RseqFits(|s.storage[tp].below|, UsedInfo(s).0)
    && (forall m :: m in s.statics && !IsPlaced(s, m.id) && m.source.Some? && m.source.value.Image? ==>
                      InRange(|s.storage[tp].below|, m.offset, m.info.memsz) && ClearOfPlaced(s, m))
  }

  lemma StaticsWritable(s: Tls, tp: nat, dtv: nat)
    requires Inv(s) && InitEnabled(s, tp, dtv)
    ensures forall m :: m in s.statics ==> Writable(|s.storage[tp].below|, m)
  {
    EmptyLayout();
    RseqBelowUsed(UsedInfo(s).0);
    forall m | m in s.statics
      ensures Writable(|s.storage[tp].below|, m)
    {
      if IsPlaced(s, m.id) {
        PlacedInRange(s, m.id, m.info, m.offset);
      }
    }
  }

  lemma InitIsOk(s: Tls, tp: nat, dtv: nat)
    requires Inv(s) && InitEnabled(s, tp, dtv)
    ensures RoomFor(s, tp) && DtvFresh(s, tp, dtv)
  {
    StaticsWritable(s, tp, dtv);
    assert forall i :: 0 <= i < |s.statics| ==> s.statics[i] in s.statics;
  }

  lemma InitStaticModuleOnly(s: Tls, tp: nat, m: StaticModule)
    requires MemoryOk(s) && tp in s.storage && Writable(|s.storage[tp].below|, m)
    ensures OnlyThread(s, InitStaticModule(s, tp, m), tp)
    ensures InitStaticModule(s, tp, m).storage[tp].tcb == s.storage[tp].tcb
  {
    hide BlocksOk, AllocationsOk, EntriesOk, Written, Writable;
  }

  lemma OnlyThreadTrans(s: Tls, t: Tls, u: Tls, tp: nat)
    requires OnlyThread(s, t, tp) && OnlyThread(t, u, tp)
    ensures OnlyThread(s, u, tp)
  {
    forall x | x in s.storage && x != tp
      ensures u.storage[x] == s.storage[x] && SameDtv(s, u, x)
    {
      assert SameDtv(s, t, x) && SameDtv(t, u, x);
    }
  }

  /** Nothing but the bytes and DTV entries of one thread changes while its modules are initialised. */
  lemma {:induction false} InitModulesKeeps(s: Tls, tp: nat, ms: seq<StaticModule>)
    requires MemoryOk(s) && tp in s.storage
    requires forall i :: 0 <= i < |ms| ==> Writable(|s.storage[tp].below|, ms[i])
    requires forall m :: m in ms ==> Lookup(s, m.id) == Some(Static(m.info, m.offset))
    ensures var t := InitModules(s, tp, ms);
            && MemoryOk(t) && OnlyThread(s, t, tp)
            && t.storage[tp].tcb == s.storage[tp].tcb
  {
    if ms != [] {
      var n := |ms| - 1;
      InitModulesKeeps(s, tp, ms[..n]);
      var s1 := InitModules(s, tp, ms[..n]);
      assert ms[n] in ms;
      assert Lookup(s1, ms[n].id) == Lookup(s, ms[n].id);
      hide DtvLinks, BlocksOk, AllocationsOk, Lookup, OnlyThread, Writable;
      InitStaticModuleKeeps(s1, tp, ms[n]);
      InitStaticModuleOnly(s1, tp, ms[n]);
      OnlyThreadTrans(s, s1, InitStaticModule(s1, tp, ms[n]), tp);
    }
  }

  lemma MemoryHasDtvs(s: Tls)
    requires MemoryOk(s)
    ensures DtvsOk(s)
  {
  }

  /** After the modules of a list are initialised, every placed one among them is held. */
  lemma {:induction false} InitModulesHold(s: Tls, tp: nat, ms: seq<StaticModule>)
    requires MemoryOk(s) && TablesOk(s) && tp in s.storage && s.area.Some?
    requires forall i :: 0 <= i < |ms| ==> Writable(|s.storage[tp].below|, ms[i])
    requires DistinctIds(ms) && forall m :: m in ms ==> m in s.statics
    requires forall m :: m in ms && !IsPlaced(s, m.id) && m.source.Some? && m.source.value.Image? ==>
                           ClearOfPlaced(s, m)
    ensures AllHeld(s, ms, InitModules(s, tp, ms).storage[tp].below)
  {
    MemoryHasDtvs(s);
    hide MemoryOk, TablesOk, PublishedHolds, ClearOfPlaced, Writable, Written, DtvsOk;
    if ms != [] {
      var n := |ms| - 1;
      InitModulesHold(s, tp, ms[..n]);
      var below := InitModules(s, tp, ms[..n]).storage[tp].below;
      assert ms[n] in ms;
      forall x | x in ms && IsPlaced(s, x.id)
        ensures PublishedHolds(Written(below, ms[n]), x)
      {
        assert x != ms[n] ==> x in ms[..n];
        WrittenHolds(s, below, ms[n], x);
      }
    }
  }

  /** The published modules whose place the caller chose stay off the placed blocks. */
  ghost predicate AddedClear(s: Tls) {
    forall m :: m in s.statics && !IsPlaced(s, m.id) && m.source.Some? && m.source.value.Image? ==> ClearOfPlaced(s, m)
  }

  lemma StaticIds(s: Tls)
    requires TablesOk(s)
    ensures DistinctIds(s.statics) && forall i :: 0 <= i < |s.statics| ==> s.statics[i].id >= 1
  {
    assert forall i :: 0 <= i < |s.statics| ==> s.statics[i] in s.statics;
  }

  /** The result of initialising a thread, for every reachable state: the control block is set up, the DTV
      has the entries of the published static modules and no others, every placed published block holds
      its image, and the rseq area its pattern. */
  lemma InitWrites(s: Tls, tp: nat, dtv: nat)
    requires Inv(s) && InitEnabled(s, tp, dtv)
    ensures RoomFor(s, tp) && DtvFresh(s, tp, dtv)
    ensures var t := Init(s, tp, dtv);
            && Inv(t) && OnlyThread(s, t, tp)
            && t.storage[tp].tcb == Tcb(tp, dtv, tp, BOOTSTRAP_STACK_GUARD, BOOTSTRAP_POINTER_GUARD)
            && SlotsFrom(t, tp, s.statics)
            && (s.area.Some? ==> AllHeld(s, s.statics, t.storage[tp].below))
            && RseqHolds(t.storage[tp].below, UsedInfo(s).0)
  {
    InitIsOk(s, tp, dtv);
    StaticIds(s);
    InitSlots(s, tp, dtv);
    hide SlotsFrom;
    InitTcbKeeps(s, tp, dtv);
    var s1 := InitTcb(s, tp, dtv);
    TcbOnlyThread(s, tp, dtv);
    SamePlaced(s1, s);
    hide MemoryOk, TablesOk, ArenaOk, ContentsOk, RseqHolds, PublishedHolds, InRange, Writable, RseqFits, OnlyThread,
         InitTcb, DeallocateTcb, InitStatics;
    InitStaticsWrites(s1, tp);
    OnlyThreadTrans(s, s1, InitStatics(s1, tp), tp);
  }

  lemma TcbOnlyThread(s: Tls, tp: nat, dtv: nat)
    requires Inv(s) && tp in s.storage && dtv != 0 && dtv !in s.dtvs
    ensures var t := InitTcb(s, tp, dtv);
            && OnlyThread(s, t, tp) && t.storage[tp].below == s.storage[tp].below
            && t.storage[tp].tcb == Tcb(tp, dtv, tp, BOOTSTRAP_STACK_GUARD, BOOTSTRAP_POINTER_GUARD)
  {
  }

  lemma SamePlaced(s: Tls, t: Tls)
    requires s.placed == t.placed
    ensures forall id: nat :: IsPlaced(s, id) <==> IsPlaced(t, id)
  {
  }

  lemma InitStaticsWrites(s: Tls, tp: nat)
    requires Inv(s) && RoomFor(s, tp) && AddedClear(s)
    ensures var t := InitStatics(s, tp);
            && Inv(t) && OnlyThread(s, t, tp)
            && t.storage[tp].tcb == s.storage[tp].tcb
            && (s.area.Some? ==> AllHeld(s, s.statics, t.storage[tp].below))
            && RseqHolds(t.storage[tp].below, UsedInfo(s).0)
  {
    UsedHasRseq(s);
    InitMemory(s, tp);
    if s.area.Some? { InitHeld(s, tp); }
    hide MemoryOk, TablesOk, RseqHolds, PublishedHolds, InRange, Writable, RseqFits, InitStatics, OnlyThread, AllHeld;
    InvAfterInit(s, InitStatics(s, tp), tp);
  }

  lemma UsedHasRseq(s: Tls)
    requires TablesOk(s)
    ensures var r := StaticUsedWithRseq(UsedInfo(s).0);
            r.Some? && r.value <= STATIC_TLS_ARENA_SIZE
  {
    EmptyLayout();
  }

  lemma InitMemory(s: Tls, tp: nat)
    requires MemoryOk(s) && RoomFor(s, tp)
    requires forall m :: m in s.statics ==> Lookup(s, m.id) == Some(Static(m.info, m.offset))
    requires StaticUsedWithRseq(UsedInfo(s).0).Some? && StaticUsedWithRseq(UsedInfo(s).0).value <= ISIZE_MAX
    ensures var t := InitStatics(s, tp);
            && MemoryOk(t) && OnlyThread(s, t, tp)
            && t.storage[tp].tcb == s.storage[tp].tcb
            && RseqHolds(t.storage[tp].below, UsedInfo(s).0)
  {
    hide BlocksOk, AllocationsOk, EntriesOk, RseqHolds, StaticUsedWithRseq, InitModules, Lookup, MarkRseq;
    InitModulesKeeps(s, tp, s.statics);
    var s2 := InitModules(s, tp, s.statics);
    InitRseqKeeps(s2, tp, UsedInfo(s).0);
    RseqWritten(s2.storage[tp].below, UsedInfo(s).0);
  }

  lemma InitHeld(s: Tls, tp: nat)
    requires MemoryOk(s) && TablesOk(s) && RoomFor(s, tp) && AddedClear(s) && s.area.Some?
    ensures AllHeld(s, s.statics, InitStatics(s, tp).storage[tp].below)
  {
    UsedHasRseq(s);
    InitModulesHold(s, tp, s.statics);
    var below := InitModules(s, tp, s.statics).storage[tp].below;
    hide DtvLinks, BlocksOk, AllocationsOk, TablesAgree, SourcesFit, StaticSourcesFit, LayoutOk, PublishedHolds,
         Writable, ClearOfPlaced, StaticUsedWithRseq, InitModules, MarkRseq;
    forall n | n in s.statics && IsPlaced(s, n.id)
      ensures PublishedHolds(InitStatics(s, tp).storage[tp].below, n)
    {
      RseqKeepsHeld(s, below, n);
    }
  }

  lemma InvAfterInit(s: Tls, t: Tls, tp: nat)
    requires Inv(s) && MemoryOk(t) && OnlyThread(s, t, tp)
    requires s.area.Some? ==> AllHeld(s, s.statics, t.storage[tp].below)
    ensures Inv(t)
  {
    TablesFrame(s, t);
    SamePlaced(s, t);
  }

  // ----- Lazy dynamic blocks -----

  ghost predicate PtrFresh(s: Tls, ptr: nat) {
    ptr != 0 && ptr !in s.blocks
  }

  lemma RecordKeeps(s: Tls, tp: nat, ptr: nat, b: Block)
    requires MemoryOk(s) && tp in s.storage && PtrFresh(s, ptr)
    ensures MemoryOk(s.(blocks := s.blocks[ptr := b], records := s.records + {DynamicBlock(tp, ptr, b.layout)}))
  {
    var t := s.(blocks := s.blocks[ptr := b], records := s.records + {DynamicBlock(tp, ptr, b.layout)});
    forall u | u in t.storage
      ensures EntriesOk(t, u)
    {
      EntriesFrame(s, t, u);
    }
  }

  lemma BlockKeeps(s: Tls, ptr: nat, b: Block)
    requires MemoryOk(s) && PtrFresh(s, ptr)
    ensures MemoryOk(s.(blocks := s.blocks[ptr := b]))
  {
    var t := s.(blocks := s.blocks[ptr := b]);
    forall u | u in t.storage
      ensures EntriesOk(t, u)
    {
      EntriesFrame(s, t, u);
    }
  }

  lemma AllocateDynamicKeeps(s: Tls, tp: nat, id: nat, info: TlsInfo, source: Option<Source>, ptr: nat)
    requires MemoryOk(s) && tp in s.storage && PtrFresh(s, ptr)
    requires Lookup(s, id) == Some(Dynamic(info, source))
    requires source.Some? && source.value.Image? ==> |source.value.bytes| <= info.memsz
    ensures ThreadOk(s, tp)
    ensures MemoryOk(AllocateDynamic(s, tp, id, info, source, ptr).0)
  {
    match DynamicLayout(info)
    case None =>
    case Some(layout) =>
      match source
      case None => BlockKeeps(s, ptr, Block(layout, Zeros(layout.size)));
      case Some(Gone) =>
      case Some(Image(b)) =>
        var block := Block(layout, ImageThenZeros(b, layout.size));
        RecordKeeps(s, tp, ptr, block);
        var s1 := s.(blocks := s.blocks[ptr := block], records := s.records + {DynamicBlock(tp, ptr, layout)});
        assert DynamicBlock(tp, ptr, layout) in s1.records;
        assert Recorded(s1, tp, ptr);
        assert Lookup(s1, id) == Lookup(s, id);
        SetDtvKeeps(s1, tp, id, ptr, ptr);
        assert DtvIndex(s1, tp, id) == DtvIndex(s, tp, id);
        if DtvIndex(s, tp, id).Some? {
          assert SetDtvValue(s1, tp, id, ptr, ptr).0 == AllocateDynamic(s, tp, id, info, source, ptr).0;
        }
  }

  lemma GetAddrKeeps(s: Tls, tp: nat, id: nat, tiOffset: nat, ptr: nat)
    requires Inv(s) && (tp != 0 ==> tp in s.storage) && PtrFresh(s, ptr)
    ensures Inv(GetAddr(s, tp, id, tiOffset, ptr).0)
  {
    match Lookup(s, id)
    case Some(Dynamic(info, source)) =>
      assert SourcesFit(s) && s.modules[id - 1] == Lookup(s, id);
      if tp != 0 && DtvValue(s, tp, id).None? {
        AllocateDynamicKeeps(s, tp, id, info, source, ptr);
        var t := AllocateDynamic(s, tp, id, info, source, ptr).0;
        TablesFrame(s, t);
      }
    case _ =>
  }

  // ----- Release -----

  lemma OthersNotFreed(s: Tls, tp: nat, r: DynamicBlock)
    requires BlocksOk(s) && r in s.records && r.tp != tp
    ensures r.ptr !in BlocksOf(s, tp)
  {
  }

  /** Freeing a thread's blocks is sound once its control block no longer points to a DTV. */
  lemma DeallocateKeeps(s: Tls, tp: nat, deallocTcb: bool)
    requires Inv(s) && tp in s.storage && s.storage[tp].tcb.dtv == 0
    ensures Inv(Deallocate(s, tp, deallocTcb))
  {
    var t := Deallocate(s, tp, deallocTcb);
    forall u | u in t.storage
      ensures EntriesOk(t, u)
    {
      if u != tp { EntriesFrame(s, t, u); }
    }
    forall r | r in t.records
      ensures r.ptr in t.blocks && t.blocks[r.ptr].layout == r.layout
    {
      OthersNotFreed(s, tp, r);
    }
    TablesFrame(s, t);
  }

  lemma DlDeallocateKeeps(s: Tls, tp: nat, deallocTcb: bool)
    requires Inv(s) && (tp != 0 ==> tp in s.storage)
    ensures Inv(DlDeallocate(s, tp, deallocTcb))
  {
    if tp != 0 {
      DeallocateTcbKeeps(s, tp);
      DeallocateKeeps(DeallocateTcb(s, tp), tp, deallocTcb);
    }
  }

  /** The thread's current DTV has an entry for a dynamic block. */
  ghost predicate HoldsDynamicEntry(s: Tls, tp: nat)
    requires DtvsOk(s) && tp in s.storage
  {
    var d := s.storage[tp].tcb.dtv;
    d != 0 && exists i :: 2 <= i < DTV_SLOT_COUNT + 2 && s.dtvs[d][i].second != 0
  }

  /** Why `_dl_deallocate_tls` drops the DTV before the blocks: with the DTV still in place, freeing
      the blocks keeps the memory sound exactly when the current DTV has no entry for a dynamic block. */
  lemma FreeingBlocksFirstDangles(s: Tls, tp: nat)
    requires Inv(s) && tp in s.storage
    ensures MemoryOk(Deallocate(s, tp, false)) <==> !HoldsDynamicEntry(s, tp)
  {
    var t := Deallocate(s, tp, false);
    var d := s.storage[tp].tcb.dtv;
    if HoldsDynamicEntry(s, tp) {
      var i :| 2 <= i < DTV_SLOT_COUNT + 2 && s.dtvs[d][i].second != 0;
      assert !EntryOk(t, tp, i - 1, t.dtvs[d][i]);
      assert !EntriesOk(t, tp);
    } else {
      forall u | u in t.storage
        ensures EntriesOk(t, u)
      {
        if u != tp {
          EntriesFrame(s, t, u);
        } else if d != 0 {
          forall i | 2 <= i < DTV_SLOT_COUNT + 2
            ensures EntryOk(t, tp, i - 1, t.dtvs[d][i])
          {
            assert EntriesOk(s, tp);
            assert EntryOk(s, tp, i - 1, s.dtvs[d][i]);
            assert s.dtvs[d][i].second == 0;
          }
        }
      }
      forall r | r in t.records
        ensures r.ptr in t.blocks && t.blocks[r.ptr].layout == r.layout
      {
        OthersNotFreed(s, tp, r);
      }
    }
  }

  // ----- Allocation -----

  lemma AlignmentIsMax(a: usize)
    requires IsPow2(a)
    ensures var m := Max(Max(Max(a, RSEQ_AREA_ALIGN), TLS_TCB_ALIGN), 8);
            && IsPow2(m) && a <= m && NextPow2(m) == Some(m)
            && m == Max(Max(Max(a, RSEQ_AREA_ALIGN), TLS_TCB_ALIGN), 1)
  {
    assert Pow2(5) == 32 && Pow2(6) == 64;
    NextPow2OfPow2(Max(Max(Max(a, RSEQ_AREA_ALIGN), TLS_TCB_ALIGN), 8));
  }

  /** Whenever storage is allocated, its size and alignment are those reported to the C library, and
      there is room below the thread pointer for all placed blocks and the rseq area. */
  lemma StorageMatchesStaticInfo(s: Tls)
    requires Inv(s) && StorageLayout(s).Some?
    ensures var (layout, staticSize) := StorageLayout(s).value;
            && StaticInfo(s) == (layout.size, layout.align)
            && layout.size == staticSize + TLS_TCB_SIZE
            && IsPow2(layout.align) && UsedInfo(s).1 <= layout.align
            && Multiple(staticSize, layout.align)
            && RseqFits(staticSize, UsedInfo(s).0)
  {
    EmptyLayout();
    AlignmentIsMax(UsedInfo(s).1);
    AlignUpExact(StaticUsedWithRseq(UsedInfo(s).0).value, StorageLayout(s).value.0.align);
  }

  /** The allocator returns a base aligned as requested, and the storage is at a new address. */
  ghost predicate BaseFresh(s: Tls, base: nat) {
    match StorageLayout(s)
    case None => true
    case Some((layout, staticSize)) =>
      base != 0 && Multiple(base, layout.align) && base + staticSize !in s.storage
  }

  /** The thread pointer of allocated storage is aligned for every placed module, so each block starts
      at an address congruent to its `p_vaddr`. */
  lemma AllocatedTpAligned(s: Tls, base: nat)
    requires Inv(s) && BaseFresh(s, base) && AllocateStorage(s, base).1.Some?
    ensures var tp := AllocateStorage(s, base).1.value;
            forall p :: p in s.placed ==> Multiple(tp, p.align) && Multiple(tp - p.end - p.info.vaddr, p.align)
  {
    StorageMatchesStaticInfo(s);
    var (layout, staticSize) := StorageLayout(s).value;
    var tp := base + staticSize;
    MultipleAlgebra(base, staticSize, layout.align);
    forall p | p in s.placed
      ensures Multiple(tp, p.align) && Multiple(tp - p.end - p.info.vaddr, p.align)
    {
      assert PlacementOk(s, s.area.value, p);
      Pow2Divides(p.align, layout.align);
      MultipleThrough(tp, layout.align, p.align);
      MultipleAlgebra(tp, p.end + p.info.vaddr, p.align);
      assert tp - (p.end + p.info.vaddr) == tp - p.end - p.info.vaddr;
    }
  }

  lemma AllocateStorageKeeps(s: Tls, base: nat)
    requires Inv(s) && BaseFresh(s, base)
    ensures Inv(AllocateStorage(s, base).0)
  {
    hide DtvsOk, DtvLinks, BlocksOk, AllocationsOk, TablesAgree, SourcesFit, StaticSourcesFit, LayoutOk, ArenaOk,
         ContentsOk, StorageLayout;
    if StorageLayout(s).Some? {
      var (layout, staticSize) := StorageLayout(s).value;
      var tp := base + staticSize;
      NewStorageKeeps(s, tp, Storage(Zeros(staticSize), Tcb(0, 0, 0, 0, 0)), {TlsAllocation(tp, base, layout)});
    }
  }

  /** Storage supplied by the C library may be withdrawn once its DTV and its blocks are gone. */
  lemma ReclaimKeeps(s: Tls, tp: nat)
    requires Inv(s) && tp in s.storage && s.storage[tp].tcb.dtv == 0
    requires forall r :: r in s.records ==> r.tp != tp
    requires forall a :: a in s.allocations ==> a.tp != tp
    requires s.area.Some? ==> s.area.value.tp != tp
    ensures Inv(s.(storage := s.storage - {tp}))
  {
    var t := s.(storage := s.storage - {tp});
    forall u | u in t.storage
      ensures EntriesOk(t, u)
    {
      EntriesFrame(s, t, u);
    }
    TablesFrame(s, t);
  }
}

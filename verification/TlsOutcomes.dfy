/** When a registration succeeds and where it puts the module, and everything that a release takes away. */
module TlsOutcomes {
  import opened Bytes
  import opened Usize
  import opened TlsLayout
  import opened TlsState
  import opened TlsInvariant
  import opened TlsRegister
  import opened TlsPublish
  import opened TlsThreads
  import opened TlsRuns
  import opened TlsTheorems
  import opened TlsLookups
  import opened TlsRoom
  import opened TlsBlocks

  // ----- Registration -----

  /** A dynamic module is registered exactly when there is an id left: under the next one, in the module table
      and in the resolver's list. */
  lemma RegisterDynamicExactly(s: Tls, info: TlsInfo, grant: Grant)
    ensures var (t, r) := Register(s, info, RequestDynamic, grant);
            var id := |s.modules| + 1;
            if id <= MAX then
              && r == Ok(id)
              && t == s.(modules := s.modules + [Some(Dynamic(info, None))], resolver := s.resolver + [(id, None)])
            else r == Err(ResolverUnsupported) && t == s
  {
  }

  /** So is a static module at an offset of the caller's choosing, and in all three tables at that offset. */
  lemma RegisterAtExactly(s: Tls, info: TlsInfo, offset: int, grant: Grant)
    ensures var (t, r) := Register(s, info, RequestStaticAt(offset), grant);
            var id := |s.modules| + 1;
            if id <= MAX then
              && r == Ok(id)
              && t == s.(modules := s.modules + [Some(Static(info, offset))],
                         statics := s.statics + [StaticModule(id, info, None, offset)],
                         resolver := s.resolver + [(id, Some(offset))])
            else r == Err(ResolverUnsupported) && t == s
  {
  }

  /** `end` is where a module of this kind may end below the used space, with room for the rseq area in the arena. */
  ghost predicate EndFits(used: nat, info: TlsInfo, align: nat, end: nat) {
    Fits(end, used + info.memsz, info.vaddr, align) && end + 32 <= 1024 * 1024
  }

  /** The rseq area fits the arena below the used space exactly when its 32 bytes do. */
  lemma RseqFitsArena(used: usize)
    ensures StaticUsedWithRseq(used).Some? && StaticUsedWithRseq(used).value <= STATIC_TLS_ARENA_SIZE
        <==> used + 32 <= 1024 * 1024
  {
    hide AlignUp, Multiple, IsPow2;
    PowersUsed();
    AlignUpExact(used, RSEQ_AREA_ALIGN);
    MultipleRemainder(1024 * 1024 - 32, 32);
    if used + 32 <= 1024 * 1024 {
      assert Fits(1024 * 1024 - 32, used, 0, RSEQ_AREA_ALIGN);
    }
  }

  /** Whether any end fits is decided by the one that is computed. */
  lemma ComputedEndDecides(used: usize, info: TlsInfo, align: usize)
    requires IsPow2(align) && align >= 1
    ensures var found := StaticModuleEnd(used, info.memsz, info.vaddr, align);
            && (found.Some? && found.value <= 1024 * 1024 - 32 <==> exists end: nat :: EndFits(used, info, align, end))
            && (found.Some? ==> LeastCongruent(found.value, used + info.memsz, info.vaddr, align))
  {
    hide StaticModuleEnd, Multiple, IsPow2, And, WrappingNeg;
    StaticModuleEndExact(used, info.memsz, info.vaddr, align);
    var found := StaticModuleEnd(used, info.memsz, info.vaddr, align);
    if found.Some? && found.value <= 1024 * 1024 - 32 { assert EndFits(used, info, align, found.value); }
    if end: nat :| EndFits(used, info, align, end) {
      var lo: nat := used as nat + info.memsz as nat;
      assert Fits(end, lo, info.vaddr, align);
    }
  }

  /** Placing succeeds exactly when there is an id left and an end that fits; the module gets the least such end. */
  lemma PlaceStaticExactly(s: Tls, info: TlsInfo, align: usize)
    requires s.area.Some? && IsPow2(align) && align >= 1
    ensures PlaceStatic(s, info, align).1.Ok? <==>
            |s.modules| < MAX && exists end: nat :: EndFits(s.area.value.used, info, align, end)
    ensures PlaceStatic(s, info, align).1.Ok? ==>
              var (t, r) := PlaceStatic(s, info, align);
              && t.area.Some? && r.value.1 == -(t.area.value.used as int) && r.value.0 == |s.modules| + 1
              && LeastCongruent(t.area.value.used, s.area.value.used + info.memsz, info.vaddr, align)
  {
    var used := s.area.value.used;
    ComputedEndDecides(used, info, align);
    var found := StaticModuleEnd(used, info.memsz, info.vaddr, align);
    if found.Some? { RseqFitsArena(found.value); }
    hide StaticModuleEnd, StaticUsedWithRseq, IsPow2, EndFits, LeastCongruent;
  }

  lemma RegisteredStatic(s: Tls, s1: Tls, info: TlsInfo, grant: Grant, a: usize)
    requires EnsureArea(s, grant) == (s1, true) && s1.area.Some? && IsPow2(a) && a >= 1
    requires NextPow2(Max(info.align, 1)) == Some(a)
    ensures var (t, r) := Register(s, info, RequestStatic, grant);
            && (r.Ok? <==> PlaceStatic(s1, info, a).1.Ok?)
            && (r.Ok? ==> t.area == PlaceStatic(s1, info, a).0.area && t.modules == PlaceStatic(s1, info, a).0.modules
                          && r.value == PlaceStatic(s1, info, a).1.value.0)
  {
    hide EnsureArea, NextPow2, IsPow2, PlaceStatic;
  }

  lemma NotRegistered(s: Tls, info: TlsInfo, grant: Grant)
    requires !EnsureArea(s, grant).1 || NextPow2(Max(info.align, 1)).None?
    ensures Register(s, info, RequestStatic, grant).1.Err?
  {
    hide EnsureArea, NextPow2, PlaceStatic;
  }

  /** A static module is registered exactly when the initial area is there or can be had, the alignment has a power of
      two, an id is left, and an end fits the arena. */
  lemma RegisterStaticExactly(s: Tls, info: TlsInfo, grant: Grant, align: nat)
    requires AlignFor(align, info.align)
    ensures Register(s, info, RequestStatic, grant).1.Ok? <==>
            && (s.area.Some? || grant.installed) && info.align <= ISIZE_MAX + 1 && |s.modules| < MAX
            && exists end: nat :: EndFits(UsedInfo(s).0, info, align, end)
    ensures var (t, r) := Register(s, info, RequestStatic, grant);
            r.Ok? ==>
              && t.area.Some? && r.value == |s.modules| + 1
              && LeastCongruent(t.area.value.used, UsedInfo(s).0 + info.memsz, info.vaddr, align)
              && Lookup(t, r.value) == Some(Static(info, -(t.area.value.used as int)))
  {
    NextPow2Least(info.align);
    var (s1, ready) := EnsureArea(s, grant);
    AreaAfter(s, grant);
    hide PlaceStatic, EnsureArea, NextPow2, IsPow2, LeastCongruent, EndFits, Register;
    match NextPow2(Max(info.align, 1))
    case None => NotRegistered(s, info, grant);
    case Some(a) =>
      if ready {
        WordAligned(a);
        RegisteredStatic(s, s1, info, grant, a);
        PlaceStaticExactly(s1, info, a);
        PlacedEnd(s1, info, a);
      } else {
        NotRegistered(s, info, grant);
      }
  }

  lemma AreaAfter(s: Tls, grant: Grant)
    ensures var (t, ready) := EnsureArea(s, grant);
            && (ready <==> s.area.Some? || grant.installed) && t.modules == s.modules
            && (ready ==> t.area.Some? && t.area.value.used == UsedInfo(s).0)
  {
    hide InitTcb;
  }

  // ----- Release -----

  /** What `_dl_deallocate_tls` leaves: the thread's DTV, its blocks and their records are gone, its control block
      points to none; its storage and the record of it are gone if that was asked for and the runtime had laid
      the storage out. Nothing of any other thread changes. */
  ghost predicate ReleasedThread(s: Tls, t: Tls, tp: nat, deallocTcb: bool)
    requires tp in s.storage
  {
    && t == s.(storage := t.storage, dtvs := t.dtvs, blocks := t.blocks, records := t.records,
               allocations := t.allocations)
    && t.dtvs == s.dtvs - {s.storage[tp].tcb.dtv}
    && (forall r :: r in t.records <==> r in s.records && r.tp != tp)
    && (forall p :: p in t.blocks <==> p in s.blocks && !Recorded(s, tp, p))
    && (forall p :: p in t.blocks ==> t.blocks[p] == s.blocks[p])
    && (forall a :: a in t.allocations <==> a in s.allocations && !(deallocTcb && a.tp == tp))
    && (forall u :: u in s.storage && u != tp ==> u in t.storage && t.storage[u] == s.storage[u])
    && (forall u :: u in t.storage ==> u in s.storage)
    && (tp !in t.storage <==> deallocTcb && exists a :: a in s.allocations && a.tp == tp)
    && (tp in t.storage ==> t.storage[tp] == s.storage[tp].(tcb := s.storage[tp].tcb.(dtv := 0)))
  }

  lemma DlDeallocateExactly(s: Tls, tp: nat, deallocTcb: bool)
    requires Inv(s) && tp in s.storage
    ensures ReleasedThread(s, DlDeallocate(s, tp, deallocTcb), tp, deallocTcb)
  {
    InvDtvs(s);
    hide Inv;
    var s1 := DeallocateTcb(s, tp);
    assert s1.dtvs == s.dtvs - {s.storage[tp].tcb.dtv};
    assert s1.storage[tp] == s.storage[tp].(tcb := s.storage[tp].tcb.(dtv := 0));
    assert forall p: nat :: p in BlocksOf(s, tp) <==> Recorded(s, tp, p);
  }

  // ----- Losing blocks -----

  lemma SameLeaks(s: Tls, t: Tls)
    requires t.blocks == s.blocks && t.records == s.records
    ensures Leaked(t) == Leaked(s)
  {
  }

  lemma DeallocateLosesNothing(s: Tls, tp: nat, deallocTcb: bool)
    requires Inv(s) && (tp != 0 ==> tp in s.storage)
    ensures Leaked(DlDeallocate(s, tp, deallocTcb)) == Leaked(s)
  {
    if tp != 0 {
      DlDeallocateExactly(s, tp, deallocTcb);
      var t := DlDeallocate(s, tp, deallocTcb);
      forall p
        ensures p in Leaked(t) <==> p in Leaked(s)
      {
        assert forall r :: r in s.records && r.ptr == p && r.tp != tp ==> r in t.records;
        assert (forall q, r :: q in s.records && r in s.records && q.ptr == r.ptr ==> q == r) by { RecordsOnce(s); }
        hide DlDeallocate, Inv;
      }
    }
  }

  lemma RecordsOnce(s: Tls)
    requires Inv(s)
    ensures forall q, r :: q in s.records && r in s.records && q.ptr == r.ptr ==> q == r
  {
    hide DtvLinks, AllocationsOk, TablesOk, ArenaOk, ContentsOk;
  }

  /** The only operation that can lose a block is a lookup: every other one leaves exactly the lost ones lost. */
  lemma OnlyLookupsLose(s: Tls, op: Op)
    requires Inv(s) && Enabled(s, op) && !op.OpGetAddr?
    ensures Leaked(Step(s, op)) == Leaked(s)
  {
    hide Inv, InitEnabled, BaseFresh, Register, GetAddr, Init, Publish, AllocateStorage, DlDeallocate, PublishOk,
         RoomFor, Leaked;
    match op
    case OpRegister(info, request, grant) =>
      RegisterMemory(s, info, request, grant);
      hide EnsureArea;
      SameLeaks(s, Step(s, op));
    case OpPublish(source, id) =>
      PublishInitOk(s, source, id);
      PublishBlocks(s, source, id);
      SameLeaks(s, Step(s, op));
    case OpUnregister(id) =>
      UnregisterMemory(s, id);
      SameLeaks(s, Step(s, op));
    case OpAllocate(base, dtv) =>
      AllocateStorageKeeps(s, base);
      AllocateBlocks(s, base);
      var (s1, tp) := AllocateStorage(s, base);
      if tp.Some? { InitWrites(s1, tp.value, dtv); }
      SameLeaks(s, Step(s, op));
    case OpInit(tp, dtv) =>
      InitWrites(s, tp, dtv);
      SameLeaks(s, Step(s, op));
    case OpDeallocate(tp, deallocTcb) => DeallocateLosesNothing(s, tp, deallocTcb);
    case OpSupply(_, _) => SameLeaks(s, Step(s, op));
    case OpReclaim(_) => SameLeaks(s, Step(s, op));
    case OpGetAddr(_, _, _, _) =>
  }

  lemma AllocateBlocks(s: Tls, base: nat)
    ensures AllocateStorage(s, base).0.blocks == s.blocks && AllocateStorage(s, base).0.records == s.records
  {
    hide StorageLayout;
  }

  lemma PublishBlocks(s: Tls, source: Source, id: nat)
    requires InitTlsOk(s, source, id)
    ensures Publish(s, source, id).0.blocks == s.blocks && Publish(s, source, id).0.records == s.records
  {
    hide DtvsOk, FindOffset;
  }

  // ----- Storage layout -----

  /** The layout of a thread's storage: aligned to 64 or more if a module asks for it, the thread pointer at the least
      multiple of the alignment with room for the layout below, and the control block above it. */
  lemma StorageLayoutExactly(s: Tls)
    requires Inv(s) && StorageLayout(s).Some?
    ensures var (layout, size) := StorageLayout(s).value;
            && layout.align == (if UsedInfo(s).1 > 64 then UsedInfo(s).1 else 64)
            && LeastCongruent(size, RseqDistance(s), 0, layout.align)
            && layout.size == size + 2368
  {
    EmptyLayout();
    UsedHasRseq(s);
    AlignmentIsMax(UsedInfo(s).1);
    AlignUpExact(StaticUsedWithRseq(UsedInfo(s).0).value, StorageLayout(s).value.0.align);
    hide DtvLinks, BlocksOk, AllocationsOk, ArenaOk, ContentsOk, AlignUp, StaticUsedWithRseq;
  }

  /** The size and alignment reported to the C library: the same alignment, and the size of such storage, or 0 exactly
      when it is too large for a word. */
  lemma StaticInfoExactly(s: Tls, size: nat)
    requires Inv(s)
    requires LeastCongruent(size, RseqDistance(s), 0, if UsedInfo(s).1 > 64 then UsedInfo(s).1 else 64)
    ensures StaticInfo(s).1 == (if UsedInfo(s).1 > 64 then UsedInfo(s).1 else 64)
    ensures StaticInfo(s).0 == if size + 2368 <= MAX then size + 2368 else 0
  {
    EmptyLayout();
    UsedHasRseq(s);
    AlignmentIsMax(UsedInfo(s).1);
    AlignUpExact(RseqDistance(s), StaticInfo(s).1);
    hide DtvLinks, BlocksOk, AllocationsOk, ArenaOk, ContentsOk, AlignUp, StaticUsedWithRseq, Multiple;
  }

  /** What a block holds for an image: its bytes, and zeros up to the size. */
  lemma ImageThenZerosExactly(image: seq<byte>, size: nat, r: seq<byte>)
    requires |image| <= size
    ensures r == ImageThenZeros(image, size) <==>
            |r| == size && r[..|image|] == image && forall i :: |image| <= i < size ==> r[i] == 0
  {
    var whole := ImageThenZeros(image, size);
    assert whole[..|image|] == image;
    if |r| == size && r[..|image|] == image && forall i :: |image| <= i < size ==> r[i] == 0 {
      assert forall i :: 0 <= i < |image| ==> r[i] == r[..|image|][i];
      assert r == whole;
    }
  }

  predicate AllZero(bytes: seq<byte>, size: nat) {
    |bytes| == size && forall i :: 0 <= i < size ==> bytes[i] == 0
  }

  /** Laying out storage zeroes it, records it once and touches nothing else; without a layout nothing happens. */
  lemma AllocateStorageExactly(s: Tls, base: nat)
    ensures var (t, tp) := AllocateStorage(s, base);
            match StorageLayout(s)
            case None => t == s && tp == None
            case Some((layout, size)) =>
              && tp == Some(base + size)
              && t == s.(storage := t.storage,
                         allocations := s.allocations + {TlsAllocation(base + size, base, layout)})
              && t.storage == s.storage[base + size := t.storage[base + size]]
              && AllZero(t.storage[base + size].below, size) && t.storage[base + size].tcb.dtv == 0
  {
    hide StorageLayout;
  }

  /** The rseq area says "registration failed": a CPU number of -2 after four zero bytes, and zeros after it. */
  lemma PatternSaysFailed()
    ensures |RSEQ_PATTERN| == 32 && LittleEndian(RSEQ_PATTERN[4..8]) == 0x1_0000_0000 - 2
    ensures forall i :: 0 <= i < 32 && !(4 <= i < 8) ==> RSEQ_PATTERN[i] == 0
  {
    var n := RSEQ_PATTERN[4..8];
    assert n == [0xFE, 0xFF, 0xFF, 0xFF];
    assert n[1..] == [0xFF, 0xFF, 0xFF] && n[1..][1..] == [0xFF, 0xFF] && n[1..][1..][1..] == [0xFF];
    assert LittleEndian([0xFF]) == 0xFF && LittleEndian([0xFF, 0xFF]) == 0xFFFF;
    assert LittleEndian(n[1..]) == 0xFFFFFF;
  }
}

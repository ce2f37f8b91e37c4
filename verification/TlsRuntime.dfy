/** The TLS runtime in the form the program has it: one object whose fields are the mutex-guarded
    statics and the memory they own, updated in place. Every method is proved to do what the function
    of the same name in TlsState.dfy says. */
module TlsRuntime {
  import opened Bytes
  import opened Sequences
  import opened Usize
  import opened TlsLayout
  import opened TlsState
  import opened TlsInvariant
  import opened TlsRegister
  import opened TlsPublish
  import opened TlsThreads
  import opened TlsRuns

  /** `Vec::swap_remove`: the last element takes the place of the removed one. */
  function SwapRemove<T>(s: seq<T>, i: nat): (r: seq<T>)
    requires i < |s|
    ensures |r| == |s| - 1
  {
    if i == |s| - 1 then s[..i] else s[..|s| - 1][i := s[|s| - 1]]
  }

  lemma SwapRemoveMultiset<T>(s: seq<T>, i: nat)
    requires i < |s|
    ensures multiset(SwapRemove(s, i)) == multiset(s) - multiset{s[i]}
  {
    var n := |s| - 1;
    if i == n {
      assert s == s[..n] + [s[n]];
    } else {
      assert s == s[..i] + [s[i]] + s[i + 1..n] + [s[n]];
      assert SwapRemove(s, i) == s[..i] + [s[n]] + s[i + 1..n];
    }
  }

  lemma SwapRemoveMembers<T>(s: seq<T>, i: nat)
    requires i < |s| && NoDuplicates(s)
    ensures NoDuplicates(SwapRemove(s, i))
    ensures forall x :: x in SwapRemove(s, i) <==> x in s && x != s[i]
  {
    var n := |s| - 1;
    var r := SwapRemove(s, i);
    forall x | x in s && x != s[i]
      ensures x in r
    {
      var j :| 0 <= j < |s| && s[j] == x;
      assert x == if j == n then r[i] else r[j];
    }
  }

  /** The pointers of the blocks that have left the list. */
  ghost function FreedPtrs(before: seq<DynamicBlock>, now: seq<DynamicBlock>): set<nat> {
    set b | b in before && b !in now :: b.ptr
  }

  /** Only blocks of the thread are gone. */
  ghost predicate OthersKept(before: seq<DynamicBlock>, now: seq<DynamicBlock>, tp: nat) {
    && (forall b :: b in now ==> b in before)
    && (forall b :: b in before && b.tp != tp ==> b in now)
    && (forall b: DynamicBlock :: b.tp != tp ==> multiset(now)[b] == multiset(before)[b])
  }

  lemma NoneFreed(before: seq<DynamicBlock>, tp: nat)
    ensures OthersKept(before, before, tp) && FreedPtrs(before, before) == {}
  {
  }

  /** A block that is still listed is still allocated, with its own layout. */
  lemma NotYetFreed(s: Tls, before: seq<DynamicBlock>, now: seq<DynamicBlock>, block: DynamicBlock, tp: nat)
    requires BlocksOk(s) && s.records == (set r | r in before) && block in now && OthersKept(before, now, tp)
    ensures block.ptr in s.blocks && block.ptr !in FreedPtrs(before, now) && s.blocks[block.ptr].layout == block.layout
  {
  }

  lemma FreedOneMore(before: seq<DynamicBlock>, was: seq<DynamicBlock>, now: seq<DynamicBlock>, block: DynamicBlock,
                     tp: nat)
    requires block in was && block.tp == tp && OthersKept(before, was, tp)
    requires forall b :: b in now <==> b in was && b != block
    requires multiset(now) == multiset(was) - multiset{block}
    ensures FreedPtrs(before, now) == FreedPtrs(before, was) + {block.ptr}
    ensures OthersKept(before, now, tp)
  {
    assert forall b :: b in before && b !in now <==> (b in before && b !in was) || b == block;
  }

  lemma AllFreed(s: Tls, before: seq<DynamicBlock>, now: seq<DynamicBlock>, tp: nat)
    requires s.records == (set r | r in before)
    requires OthersKept(before, now, tp) && forall i :: 0 <= i < |now| ==> now[i].tp != tp
    ensures FreedPtrs(before, now) == BlocksOf(s, tp)
    ensures (set r | r in now) == (set r | r in before && r.tp != tp)
    ensures forall b: DynamicBlock :: multiset(now)[b] == if b.tp == tp then 0 else multiset(before)[b]
  {
  }

  /** Setting an entry does not depend on the heap blocks. */
  lemma SetDtvFrame(s: Tls, blocks: map<nat, Block>, tp: nat, id: nat, ptr: nat)
    requires ThreadOk(s, tp)
    ensures ThreadOk(s.(blocks := blocks), tp)
    ensures SetDtvValue(s.(blocks := blocks), tp, id, ptr, ptr)
         == (SetDtvValue(s, tp, id, ptr, ptr).0.(blocks := blocks), SetDtvValue(s, tp, id, ptr, ptr).1)
  {
  }

  lemma LayoutHoldsImage(info: TlsInfo)
    requires DynamicLayout(info).Some?
    ensures info.memsz <= DynamicLayout(info).value.size
  {
  }

  class Runtime {
    var area: Option<StaticArea>
    var modules: seq<Option<TlsModule>>
    var statics: seq<StaticModule>
    var dynamicBlocks: seq<DynamicBlock>
    var allocations: seq<TlsAllocation>
    var storage: map<nat, Storage>
    var dtvs: map<nat, seq<DtvEntry>>
    var blocks: map<nat, Block>
    var resolver: seq<(nat, Option<int>)>
    ghost var placed: seq<Placement>

    ghost function State(): Tls
      reads this
    {
      Tls(area, modules, statics, (set r | r in dynamicBlocks), (set a | a in allocations),
          storage, dtvs, blocks, resolver, placed)
    }

    ghost predicate Valid()
      reads this
    {
      Inv(State()) && NoDuplicates(dynamicBlocks) && NoDuplicates(allocations)
    }

    constructor ()
      ensures Valid() && State() == INITIAL
    {
      area, modules, statics, dynamicBlocks, allocations := None, [], [], [], [];
      storage, dtvs, blocks, resolver, placed := map[], map[], map[], [], [];
      new;
      InitialInv();
    }

    // ----- The allocator: memory is released with the layout it was obtained with -----

    method FreeBlock(ptr: nat, layout: Layout)
      requires ptr in blocks && blocks[ptr].layout == layout
      modifies this`blocks
      ensures blocks == old(blocks) - {ptr}
    {
      blocks := blocks - {ptr};
    }

    method FreeDtv(dtv: nat, slots: nat)
      requires dtv in dtvs && |dtvs[dtv]| == slots
      modifies this`dtvs
      ensures dtvs == old(dtvs) - {dtv}
    {
      dtvs := dtvs - {dtv};
    }

    // ----- Control block and DTV -----

    method DtvEntryIndex(tp: nat, id: nat) returns (i: Option<nat>)
      requires ThreadOk(State(), tp)
      ensures i == DtvIndex(State(), tp, id)
    {
      if tp == 0 || id == 0 { return None; }
      var dtv := storage[tp].tcb.dtv;
      if dtv == 0 { return None; }
      var len := dtvs[dtv][0].first;
      if id > len { return None; }
      return Some(id + 1);
    }

    method DtvValue(tp: nat, id: nat) returns (value: Option<int>)
      requires ThreadOk(State(), tp)
      ensures value == TlsState.DtvValue(State(), tp, id)
    {
      var i := DtvEntryIndex(tp, id);
      if i.None? { return None; }
      var entry := dtvs[storage[tp].tcb.dtv][i.value];
      value := if entry.first != 0 then Some(entry.first) else None;
    }

    method SetDtvValue(tp: nat, id: nat, value: int, toFree: int) returns (ok: bool)
      requires ThreadOk(State(), tp)
      modifies this`dtvs
      ensures (State(), ok) == TlsState.SetDtvValue(old(State()), tp, id, value, toFree)
    {
      var i := DtvEntryIndex(tp, id);
      if i.None? { return false; }
      var dtv := storage[tp].tcb.dtv;
      dtvs := dtvs[dtv := dtvs[dtv][i.value := DtvEntry(value, toFree)]];
      ok := true;
    }

    method DeallocateTcb(tp: nat)
      requires ThreadOk(State(), tp)
      modifies this`storage, this`dtvs
      ensures State() == TlsState.DeallocateTcb(old(State()), tp)
    {
      if tp == 0 { return; }
      var st := storage[tp];
      if st.tcb.dtv == 0 { return; }
      var slots := dtvs[st.tcb.dtv][0].first + 2;
      FreeDtv(st.tcb.dtv, slots);
      storage := storage[tp := st.(tcb := st.tcb.(dtv := 0))];
    }

    method InitTcb(tp: nat, dtv: nat)
      requires DtvsOk(State()) && tp in storage
      modifies this`storage, this`dtvs
      ensures State() == TlsState.InitTcb(old(State()), tp, dtv)
    {
      DeallocateTcb(tp);
      dtvs := dtvs[dtv := FreshDtv()];
      storage := storage[tp := storage[tp].(tcb := Tcb(tp, dtv, tp, BOOTSTRAP_STACK_GUARD, BOOTSTRAP_POINTER_GUARD))];
    }

    // ----- Registration -----

    method Module(id: nat) returns (m: Option<TlsModule>)
      ensures m == Lookup(State(), id)
    {
      if id == 0 || id > |modules| { return None; }
      m := modules[id - 1];
    }

    method RegisterModule(m: TlsModule) returns (r: Result<nat>)
      modifies this`modules
      ensures (State(), r) == TlsState.RegisterModule(old(State()), m)
    {
      if |modules| + 1 > MAX { return Err(ResolverUnsupported); }
      modules := modules + [Some(m)];
      r := Ok(|modules|);
    }

    method EnsureArea(grant: Grant) returns (ready: bool)
      requires DtvsOk(State()) && (area.None? ==> GrantOk(State(), grant))
      modifies this`area, this`storage, this`dtvs
      ensures (State(), ready) == TlsState.EnsureArea(old(State()), grant)
    {
      if area.Some? { return true; }
      storage := storage[grant.tp := Storage(Zeros(STATIC_TLS_ARENA_SIZE), Tcb(0, 0, 0, 0, 0))];
      InitTcb(grant.tp, grant.dtv);
      if !grant.installed { return false; }
      area := Some(StaticArea(grant.tp, 0, 1));
      ready := true;
    }

    method PlaceStatic(info: TlsInfo, align: usize) returns (r: Result<(nat, int)>)
      requires area.Some? && align >= 1
      modifies this`area, this`modules, this`statics, this`placed
      ensures (State(), r) == TlsState.PlaceStatic(old(State()), info, align)
    {
      var a := area.value;
      var end := StaticModuleEnd(a.used, info.memsz, info.vaddr, align);
      if end.None? { return Err(ResolverUnsupported); }
      var used := end.value;
      var total := StaticUsedWithRseq(used);
      if total.None? || total.value > STATIC_TLS_ARENA_SIZE { return Err(ResolverUnsupported); }
      var offset: int := -(used as int);
      var id := RegisterModule(Static(info, offset));
      if id.Err? { return Err(id.error); }
      area := Some(StaticArea(a.tp, used, Max(a.maxAlign, align)));
      statics := statics + [StaticModule(id.value, info, None, offset)];
      placed := placed + [Placement(id.value, info, align, used)];
      r := Ok((id.value, offset));
    }

    method RegisterStatic(info: TlsInfo, grant: Grant) returns (r: Result<(nat, int)>)
      requires DtvsOk(State()) && (area.None? ==> GrantOk(State(), grant))
      modifies this
      ensures dynamicBlocks == old(dynamicBlocks) && allocations == old(allocations)
      ensures (State(), r) == TlsState.RegisterStatic(old(State()), info, grant)
    {
      var ready := EnsureArea(grant);
      if !ready { return Err(ResolverUnsupported); }
      var align := NextPow2(Max(info.align, 1));
      if align.None? { return Err(ResolverUnsupported); }
      r := PlaceStatic(info, align.value);
    }

    method AddStatic(info: TlsInfo, offset: int) returns (r: Result<nat>)
      modifies this`modules, this`statics
      ensures (State(), r) == TlsState.AddStatic(old(State()), info, offset)
    {
      r := RegisterModule(Static(info, offset));
      if r.Err? { return; }
      statics := statics + [StaticModule(r.value, info, None, offset)];
    }

    /** The resolver's entry point: register with the runtime, then index the module. */
    method Register(info: TlsInfo, request: Request, grant: Grant) returns (r: Result<nat>)
      requires Valid() && Enabled(State(), OpRegister(info, request, grant))
      modifies this
      ensures Valid() && (State(), r) == TlsState.Register(old(State()), info, request, grant)
    {
      StepKeeps(State(), OpRegister(info, request, grant));
      hide DtvLinks, BlocksOk, AllocationsOk, TablesOk, ArenaOk, ContentsOk;
      match request
      case RequestDynamic =>
        r := RegisterModule(Dynamic(info, None));
        if r.Ok? { resolver := resolver + [(r.value, None)]; }
      case RequestStatic =>
        var placement := RegisterStatic(info, grant);
        if placement.Err? { return Err(placement.error); }
        resolver := resolver + [(placement.value.0, Some(placement.value.1))];
        r := Ok(placement.value.0);
      case RequestStaticAt(offset) =>
        r := AddStatic(info, offset);
        if r.Ok? { resolver := resolver + [(r.value, Some(offset))]; }
    }

    // ----- Publication -----

    /** Copies a module's image into a thread's storage, zero-extends it and enters it in the DTV. */
    method InitStaticModule(tp: nat, m: StaticModule)
      requires DtvsOk(State()) && tp in storage && Writable(|storage[tp].below|, m)
      modifies this`storage, this`dtvs
      ensures State() == TlsState.InitStaticModule(old(State()), tp, m)
    {
      match m.source
      case Some(Image(image)) =>
        var st := storage[tp];
        var dst := |st.below| + m.offset;
        var below := Patch(st.below, dst, image);
        below := Patch(below, dst + |image|, Zeros(m.info.memsz - |image|));
        assert below == Written(st.below, m);
        storage := storage[tp := st.(below := below)];
        var ok := SetDtvValue(tp, m.id, tp + m.offset, 0);
      case _ =>
    }

    method InitRseq(tp: nat, used: usize)
      requires tp in storage && RseqFits(|storage[tp].below|, used)
      modifies this`storage
      ensures State() == TlsState.InitRseq(old(State()), tp, used)
    {
      var size := StaticUsedWithRseq(used);
      if size.None? || size.value > ISIZE_MAX {
        assert storage == storage[tp := storage[tp].(below := storage[tp].below)];
        return;
      }
      var st := storage[tp];
      var start := |st.below| - size.value;
      RseqBelowUsed(used);
      var below := Patch(st.below, start, Zeros(RSEQ_AREA_SIZE));
      below := Patch(below, start + 4, [0xFE, 0xFF, 0xFF, 0xFF]);
      assert below == Patch(st.below, start, RSEQ_PATTERN);
      storage := storage[tp := st.(below := below)];
    }

    /** Finds the module's list entry and rewrites it, or appends one. */
    method RepublishStatic(m: StaticModule)
      modifies this`statics
      ensures statics == Republish(old(statics), m)
    {
      var i := 0;
      while i < |statics| && statics[i].id != m.id
        invariant i <= |statics|
        invariant FindStatic(statics, m.id) == i + FindStatic(statics[i..], m.id)
      {
        assert statics[i..][1..] == statics[i + 1..];
        i := i + 1;
      }
      if i < |statics| {
        statics := statics[i := m];
      } else {
        statics := statics + [m];
      }
    }

    method InitStatic(m: StaticModule)
      requires 1 <= m.id <= |modules| && InitStaticOk(State(), m)
      modifies this`modules, this`statics, this`storage, this`dtvs
      ensures State() == TlsState.InitStatic(old(State()), m)
    {
      modules := modules[m.id - 1 := Some(Static(m.info, m.offset))];
      RepublishStatic(m);
      if area.Some? {
        var tp, used := area.value.tp, area.value.used;
        InitStaticModule(tp, m);
        InitRseq(tp, used);
      }
    }

    method InitTls(source: Source, id: nat, offset: Option<int>) returns (r: Result<()>)
      requires InitTlsOk(State(), source, id)
      modifies this`modules, this`statics, this`storage, this`dtvs
      ensures (State(), r) == TlsState.InitTls(old(State()), source, id, offset)
    {
      var m := Module(id);
      if m.None? { return Err(InvalidModuleId(id)); }
      match m.value
      case Dynamic(info, _) =>
        if offset.Some? { return Err(ModuleMismatch); }
        modules := modules[id - 1 := Some(Dynamic(info, Some(source)))];
        r := Ok(());
      case Static(info, registered) =>
        if offset != Some(registered) { return Err(ModuleMismatch); }
        InitStatic(StaticModule(id, info, Some(source), registered));
        r := Ok(());
    }

    method Publish(source: Source, id: nat) returns (r: Result<()>)
      requires Valid() && PublishOk(State(), source, id)
      modifies this
      ensures Valid()
      ensures InitTlsOk(old(State()), source, id) && (State(), r) == TlsState.Publish(old(State()), source, id)
      ensures old(Lookup(State(), id)).Some? <==> r.Ok?
    {
      PublishKeeps(State(), source, id);
      var offset := FindOffset(resolver, id);
      r := InitTls(source, id, offset);
    }

    /** `Vec::retain` on both indices, and the slot emptied. */
    method Unregister(id: nat)
      requires Valid()
      modifies this
      ensures Valid() && State() == TlsState.Unregister(old(State()), id)
    {
      UnregisterKeeps(State(), id);
      resolver := WithoutEntry(resolver, id);
      if id == 0 { return; }
      if id <= |modules| { modules := modules[id - 1 := None]; }
      statics := WithoutStatic(statics, id);
    }

    // ----- Address lookup -----

    method AllocateDynamic(tp: nat, id: nat, info: TlsInfo, source: Option<Source>, ptr: nat) returns (r: Option<nat>)
      requires ThreadOk(State(), tp) && ptr !in blocks && (forall b :: b in dynamicBlocks ==> b.ptr != ptr)
      requires source.Some? && source.value.Image? ==> |source.value.bytes| <= info.memsz
      requires NoDuplicates(dynamicBlocks)
      modifies this`dtvs, this`blocks, this`dynamicBlocks
      ensures NoDuplicates(dynamicBlocks)
      ensures (State(), r) == TlsState.AllocateDynamic(old(State()), tp, id, info, source, ptr)
    {
      hide DynamicLayout;
      var layout := DynamicLayout(info);
      if layout.None? { return None; }
      LayoutHoldsImage(info);
      blocks := blocks[ptr := Block(layout.value, Zeros(layout.value.size))];
      if source.None? { return None; }
      if source.value.Gone? {
        FreeBlock(ptr, layout.value);
        assert blocks == old(blocks);
        return None;
      }
      var image := source.value.bytes;
      blocks := blocks[ptr := Block(layout.value, Patch(blocks[ptr].bytes, 0, image))];
      assert blocks[ptr].bytes == ImageThenZeros(image, layout.value.size);
      assert blocks == old(blocks)[ptr := Block(layout.value, ImageThenZeros(image, layout.value.size))];
      assert blocks - {ptr} == old(blocks);
      SetDtvFrame(old(State()), blocks, tp, id, ptr);
      r := EnterBlock(tp, id, ptr, layout.value);
    }

    method EnterBlock(tp: nat, id: nat, ptr: nat, layout: Layout) returns (r: Option<nat>)
      requires ThreadOk(State(), tp) && ptr in blocks && blocks[ptr].layout == layout
      requires NoDuplicates(dynamicBlocks) && (forall b :: b in dynamicBlocks ==> b.ptr != ptr)
      modifies this`dtvs, this`blocks, this`dynamicBlocks
      ensures NoDuplicates(dynamicBlocks)
      ensures var (t, entered) := TlsState.SetDtvValue(old(State()), tp, id, ptr, ptr);
              if entered then r == Some(ptr) && State() == t.(records := t.records + {DynamicBlock(tp, ptr, layout)})
              else r == None && State() == t.(blocks := t.blocks - {ptr})
    {
      var entered := SetDtvValue(tp, id, ptr, ptr);
      hide TlsState.SetDtvValue, DtvsOk;
      if !entered {
        FreeBlock(ptr, layout);
        return None;
      }
      dynamicBlocks := dynamicBlocks + [DynamicBlock(tp, ptr, layout)];
      assert State().records == old(State()).records + {DynamicBlock(tp, ptr, layout)};
      r := Some(ptr);
    }

    method GetAddr(tp: nat, id: nat, tiOffset: nat, ptr: nat) returns (address: int)
      requires Valid() && Enabled(State(), OpGetAddr(tp, id, tiOffset, ptr))
      modifies this
      ensures Valid() && (State(), address) == TlsState.GetAddr(old(State()), tp, id, tiOffset, ptr)
    {
      GetAddrKeeps(State(), tp, id, tiOffset, ptr);
      hide DtvLinks, AllocationsOk, TablesAgree, StaticSourcesFit, LayoutOk, ArenaOk, ContentsOk,
           TlsState.AllocateDynamic, TlsState.DtvValue, EntriesOk, BlocksOk;
      var m := Module(id);
      if m.None? { return 0; }
      match m.value
      case Static(_, offset) => address := if tp == 0 then 0 else tp + offset + tiOffset;
      case Dynamic(info, source) =>
        assert modules[id - 1] == m;
        address := DynamicAddr(tp, id, info, source, tiOffset, ptr);
    }

    /** `dynamic_tls_addr`. */
    method DynamicAddr(tp: nat, id: nat, info: TlsInfo, source: Option<Source>, tiOffset: nat, ptr: nat)
      returns (address: int)
      requires ThreadOk(State(), tp) && ptr !in blocks && (forall b :: b in dynamicBlocks ==> b.ptr != ptr)
      requires source.Some? && source.value.Image? ==> |source.value.bytes| <= info.memsz
      requires NoDuplicates(dynamicBlocks)
      requires SourcesFit(State()) && Lookup(State(), id) == Some(TlsModule.Dynamic(info, source))
      modifies this`dtvs, this`blocks, this`dynamicBlocks
      ensures NoDuplicates(dynamicBlocks)
      ensures (State(), address) == TlsState.GetAddr(old(State()), tp, id, tiOffset, ptr)
    {
      hide TlsState.AllocateDynamic, TlsState.DtvValue, SourcesFit, DtvsOk;
      if tp == 0 { return 0; }
      var value := DtvValue(tp, id);
      if value.Some? { return value.value + tiOffset; }
      var block := AllocateDynamic(tp, id, info, source, ptr);
      address := if block.Some? then block.value + tiOffset else 0;
    }

    // ----- Thread storage -----

    method AllocateStorage(base: nat) returns (r: Option<nat>)
      requires NoDuplicates(allocations) && BaseFresh(State(), base)
      requires forall a :: a in allocations ==> a.tp in storage
      modifies this`storage, this`allocations
      ensures NoDuplicates(allocations)
      ensures (State(), r) == TlsState.AllocateStorage(old(State()), base)
    {
      hide StorageLayout, Multiple;
      var layout := NewStorageLayout();
      if layout.None? { return None; }
      var tp := base + layout.value.1;
      storage := storage[tp := Storage(Zeros(layout.value.1), Tcb(0, 0, 0, 0, 0))];
      allocations := allocations + [TlsAllocation(tp, base, layout.value.0)];
      assert State().allocations == old(State()).allocations + {TlsAllocation(tp, base, layout.value.0)};
      r := Some(tp);
    }

    method NewStorageLayout() returns (r: Option<(Layout, usize)>)
      ensures r == StorageLayout(State())
    {
      var used, maxAlign := if area.Some? then area.value.used else 0, if area.Some? then area.value.maxAlign else 1;
      hide AlignUp, StaticUsedWithRseq, MakeLayout;
      var withRseq := StaticUsedWithRseq(used);
      if withRseq.None? { return None; }
      var align := NextPow2(Max(Max(Max(maxAlign, RSEQ_AREA_ALIGN), TLS_TCB_ALIGN), 8));
      if align.None? { return None; }
      var staticSize := AlignUp(withRseq.value, align.value);
      if staticSize.None? { return None; }
      var total := CheckedAdd(staticSize.value, TLS_TCB_SIZE);
      if total.None? { return None; }
      var layout := MakeLayout(Max(total.value, 1), align.value);
      if layout.None? { return None; }
      r := Some((layout.value, staticSize.value));
    }

    method Init(tp: nat, dtv: nat)
      requires RoomFor(State(), tp) && DtvFresh(State(), tp, dtv)
      modifies this`storage, this`dtvs
      ensures State() == TlsState.Init(old(State()), tp, dtv)
    {
      InitTcbRoom(State(), tp, dtv);
      hide DtvFresh, DtvsOk, TlsState.InitTcb, TlsState.InitStatics, Writable, RseqFits;
      InitTcb(tp, dtv);
      InitStatics(tp);
    }

    method InitStatics(tp: nat)
      requires RoomFor(State(), tp)
      modifies this`storage, this`dtvs
      ensures State() == TlsState.InitStatics(old(State()), tp)
    {
      hide TlsState.InitStaticModule, TlsState.InitRseq;
      ghost var s := State();
      var i := 0;
      while i < |statics|
        invariant i <= |statics| && State() == InitModules(s, tp, statics[..i])
      {
        assert statics[..i + 1][..i] == statics[..i];
        InitStaticModule(tp, statics[i]);
        i := i + 1;
      }
      assert statics[..i] == statics;
      InitRseq(tp, if area.Some? then area.value.used else 0);
    }

    /** `_dl_allocate_tls_init`. */
    method AllocateTlsInit(tp: nat, dtv: nat)
      requires Valid() && InitEnabled(State(), tp, dtv)
      modifies this
      ensures Valid() && State() == StepInit(old(State()), tp, dtv)
    {
      InitWrites(State(), tp, dtv);
      hide Inv, InitEnabled, RoomFor, DtvFresh, TlsState.Init;
      Init(tp, dtv);
    }

    /** `_dl_allocate_tls` without storage of the caller's own. */
    method AllocateTls(base: nat, dtv: nat) returns (r: Option<nat>)
      requires Valid() && Enabled(State(), OpAllocate(base, dtv))
      modifies this
      ensures Valid() && State() == StepAllocate(old(State()), base, dtv)
      ensures r == TlsState.AllocateStorage(old(State()), base).1
    {
      AllocateStorageKeeps(State(), base);
      hide DtvsOk, DtvLinks, BlocksOk, TablesOk, ArenaOk, ContentsOk, InitEnabled, RoomFor, DtvFresh, BaseFresh,
           TlsState.Init, TlsState.AllocateStorage;
      r := AllocateStorage(base);
      if r.Some? {
        InitWrites(State(), r.value, dtv);
        Init(r.value, dtv);
      }
    }

    // ----- Release -----

    method FreeAt(index: nat)
      requires index < |dynamicBlocks| && NoDuplicates(dynamicBlocks)
      requires var b := dynamicBlocks[index]; b.ptr in blocks && blocks[b.ptr].layout == b.layout
      modifies this`dynamicBlocks, this`blocks
      ensures |dynamicBlocks| == |old(dynamicBlocks)| - 1 && NoDuplicates(dynamicBlocks)
      ensures forall i :: 0 <= i < index ==> dynamicBlocks[i] == old(dynamicBlocks)[i]
      ensures forall b :: b in dynamicBlocks <==> b in old(dynamicBlocks) && b != old(dynamicBlocks)[index]
      ensures multiset(dynamicBlocks) == multiset(old(dynamicBlocks)) - multiset{old(dynamicBlocks)[index]}
      ensures blocks == old(blocks) - {old(dynamicBlocks)[index].ptr}
    {
      SwapRemoveMultiset(dynamicBlocks, index);
      SwapRemoveMembers(dynamicBlocks, index);
      var block := dynamicBlocks[index];
      dynamicBlocks := SwapRemove(dynamicBlocks, index);
      FreeBlock(block.ptr, block.layout);
    }

    /** Frees the thread's blocks, each with its own layout, by repeated swap-removal. */
    method FreeDynamicBlocks(tp: nat)
      requires BlocksOk(State()) && NoDuplicates(dynamicBlocks)
      modifies this`dynamicBlocks, this`blocks
      ensures NoDuplicates(dynamicBlocks)
      ensures forall b: DynamicBlock ::
                multiset(dynamicBlocks)[b] == if b.tp == tp then 0 else multiset(old(dynamicBlocks))[b]
      ensures State() == old(State()).(records := (set r | r in old(dynamicBlocks) && r.tp != tp),
                                       blocks := old(blocks) - BlocksOf(old(State()), tp))
    {
      ghost var s := State();
      ghost var before := dynamicBlocks;
      hide BlocksOk, OthersKept;
      NoneFreed(before, tp);
      var index := 0;
      while index < |dynamicBlocks|
        invariant index <= |dynamicBlocks| && NoDuplicates(dynamicBlocks)
        invariant forall i :: 0 <= i < index ==> dynamicBlocks[i].tp != tp
        invariant OthersKept(before, dynamicBlocks, tp)
        invariant blocks == s.blocks - FreedPtrs(before, dynamicBlocks)
        decreases |dynamicBlocks| - index
      {
        var block := dynamicBlocks[index];
        if block.tp == tp {
          NotYetFreed(s, before, dynamicBlocks, block, tp);
          ghost var was := dynamicBlocks;
          FreeAt(index);
          FreedOneMore(before, was, dynamicBlocks, block, tp);
        } else {
          index := index + 1;
        }
      }
      AllFreed(s, before, dynamicBlocks, tp);
    }

    /** `tls::deallocate` for a non-null pointer. */
    method Deallocate(tp: nat, deallocTcb: bool)
      requires BlocksOk(State()) && AllocationsOk(State()) && NoDuplicates(dynamicBlocks) && NoDuplicates(allocations)
      modifies this
      ensures NoDuplicates(dynamicBlocks) && NoDuplicates(allocations)
      ensures State() == TlsState.Deallocate(old(State()), tp, deallocTcb)
    {
      FreeDynamicBlocks(tp);
      if !deallocTcb { return; }
      var index := 0;
      while index < |allocations| && allocations[index].tp != tp
        invariant index <= |allocations|
        invariant forall i :: 0 <= i < index ==> allocations[i].tp != tp
      {
        index := index + 1;
      }
      if index == |allocations| { return; }
      SwapRemoveMembers(allocations, index);
      ghost var a := allocations[index];
      allocations := SwapRemove(allocations, index);
      storage := storage - {tp};
      assert a in old(State()).allocations;
      assert State().allocations == (set x | x in old(State()).allocations && x.tp != tp);
    }

    /** `_dl_deallocate_tls`. */
    method DeallocateTls(tp: nat, deallocTcb: bool)
      requires Valid() && (tp != 0 ==> tp in storage)
      modifies this
      ensures Valid() && State() == DlDeallocate(old(State()), tp, deallocTcb)
    {
      DlDeallocateKeeps(State(), tp, deallocTcb);
      if tp == 0 { return; }
      DeallocateTcbKeeps(State(), tp);
      hide DtvLinks, TablesOk, ArenaOk, ContentsOk, TlsState.Deallocate, TlsState.DeallocateTcb;
      DeallocateTcb(tp);
      Deallocate(tp, deallocTcb);
    }
  }
}

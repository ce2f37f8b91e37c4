/** What every operation of the TLS runtime keeps, for every state and every argument. */
module TlsInvariant {
  import opened Bytes
  import opened Usize
  import opened TlsLayout
  import opened TlsState

  // ----- The invariant -----

  ghost predicate DistinctIds(ms: seq<StaticModule>) {
    forall i, j :: 0 <= i < j < |ms| ==> ms[i].id != ms[j].id
  }

  ghost predicate HasStatic(ms: seq<StaticModule>, id: nat) {
    exists m :: m in ms && m.id == id
  }

  ghost predicate DistinctEntries(entries: seq<(nat, Option<int>)>) {
    forall i, j :: 0 <= i < j < |entries| ==> entries[i].0 != entries[j].0
  }

  /** The module table, the static-module list and the resolver's index describe the same modules. */
  ghost predicate TablesAgree(s: Tls) {
    && DistinctIds(s.statics)
    && DistinctEntries(s.resolver)
    && (forall m :: m in s.statics ==> Lookup(s, m.id) == Some(Static(m.info, m.offset)))
    && (forall id: nat :: Lookup(s, id).Some? && Lookup(s, id).value.Static? ==> HasStatic(s.statics, id))
    && (forall e :: e in s.resolver ==> Lookup(s, e.0).Some? && OffsetOf(Lookup(s, e.0).value) == e.1)
    && (forall id: nat :: Lookup(s, id).Some? ==> (id, OffsetOf(Lookup(s, id).value)) in s.resolver)
  }

  ghost predicate PlacementOk(s: Tls, a: StaticArea, p: Placement) {
    && IsPow2(p.align) && p.info.align <= p.align <= a.maxAlign
    && p.info.memsz <= p.end <= a.used
    && Multiple(p.end + p.info.vaddr, p.align)
    && 1 <= p.id <= |s.modules|
    && (Lookup(s, p.id).Some? ==> Lookup(s, p.id) == Some(Static(p.info, -(p.end as int))))
  }

  /** Later blocks lie entirely below earlier ones, and the rseq area still fits the arena. */
  ghost predicate LayoutOk(s: Tls) {
    match s.area
    case None => s.placed == []
    case Some(a) =>
      && IsPow2(a.maxAlign)
      && RseqFits(STATIC_TLS_ARENA_SIZE, a.used) && StaticUsedWithRseq(a.used).Some?
      && (forall k :: 0 <= k < |s.placed| ==> PlacementOk(s, a, s.placed[k]))
      && (forall j, k :: 0 <= j < k < |s.placed| ==>
                           s.placed[j].end <= s.placed[k].end - s.placed[k].info.memsz
                           && s.placed[j].id != s.placed[k].id)
  }

  ghost predicate ArenaOk(s: Tls) {
    match s.area
    case None => true
    case Some(a) =>
      && a.tp in s.storage && |s.storage[a.tp].below| == STATIC_TLS_ARENA_SIZE
      && Multiple(a.tp, 4096)
      && (forall r :: r in s.allocations ==> r.tp != a.tp)
  }

  /** The bytes of a block `size` long at `offset` from the thread pointer are the image, then zeros. */
  ghost predicate Holds(below: seq<byte>, offset: int, image: seq<byte>, size: nat) {
    && |image| <= size && InRange(|below|, offset, size)
    && below[|below| + offset..|below| + offset + size] == ImageThenZeros(image, size)
  }

  ghost predicate PublishedHolds(below: seq<byte>, m: StaticModule) {
    match m.source
    case Some(Image(b)) => Holds(below, m.offset, b, m.info.memsz)
    case _ => true
  }

  ghost predicate IsPlaced(s: Tls, id: nat) {
    exists p :: p in s.placed && p.id == id
  }

  /** In the initial thread's arena every placed block keeps its latest published image. */
  ghost predicate ContentsOk(s: Tls) {
    s.area.Some? && ArenaOk(s) ==>
      forall m :: m in s.statics && IsPlaced(s, m.id) ==> PublishedHolds(s.storage[s.area.value.tp].below, m)
  }

  ghost predicate Recorded(s: Tls, tp: nat, ptr: int) {
    exists r :: r in s.records && r.tp == tp && r.ptr == ptr
  }

  ghost predicate EntryOk(s: Tls, tp: nat, id: nat, e: DtvEntry) {
    && (id > |s.modules| ==> e.first == 0)
    && (e.second != 0 ==> e.first == e.second && Recorded(s, tp, e.first))
    && (e.first != 0 && Lookup(s, id).Some? && Lookup(s, id).value.Dynamic? ==> e.second != 0)
    && (e.first != 0 && Lookup(s, id).Some? && Lookup(s, id).value.Static? ==>
          e.first == tp + Lookup(s, id).value.offset)
  }

  ghost predicate EntriesOk(s: Tls, tp: nat)
    requires DtvsOk(s) && tp in s.storage
  {
    var d := s.storage[tp].tcb.dtv;
    d != 0 ==> forall i :: 2 <= i < DTV_SLOT_COUNT + 2 ==> EntryOk(s, tp, i - 1, s.dtvs[d][i])
  }

  ghost predicate DtvLinks(s: Tls)
    requires DtvsOk(s)
  {
    && (forall t, u :: t in s.storage && u in s.storage && t != u ==>
                         s.storage[t].tcb.dtv == 0 || s.storage[t].tcb.dtv != s.storage[u].tcb.dtv)
    && (forall tp :: tp in s.storage ==> EntriesOk(s, tp))
  }

  ghost predicate BlocksOk(s: Tls) {
    && (forall r :: r in s.records ==>
                      r.ptr != 0 && r.ptr in s.blocks && s.blocks[r.ptr].layout == r.layout && r.tp in s.storage)
    && (forall q, r :: q in s.records && r in s.records && q.ptr == r.ptr ==> q == r)
  }

  ghost predicate AllocationsOk(s: Tls) {
    && (forall a :: a in s.allocations ==> a.tp in s.storage)
    && (forall a, b :: a in s.allocations && b in s.allocations && a.tp == b.tp ==> a == b)
  }

  /** Memory: control blocks, DTVs and heap blocks own one another consistently. */
  ghost predicate MemoryOk(s: Tls) {
    DtvsOk(s) && DtvLinks(s) && BlocksOk(s) && AllocationsOk(s)
  }

  /** Tables: the three indices agree, sources fit their modules and the layout is sound. */
  ghost predicate TablesOk(s: Tls) {
    TablesAgree(s) && SourcesFit(s) && StaticSourcesFit(s) && LayoutOk(s)
  }

  ghost predicate StaticSourcesFit(s: Tls) {
    forall m :: m in s.statics && m.source.Some? && m.source.value.Image? ==>
                  |m.source.value.bytes| <= m.info.memsz
  }

  ghost predicate Inv(s: Tls) {
    MemoryOk(s) && TablesOk(s) && ArenaOk(s) && ContentsOk(s)
  }

  lemma InitialInv()
    ensures Inv(INITIAL)
  {
  }

  // ----- Frames -----

  /** Between two states only one thread's storage and DTV differ. */
  ghost predicate OnlyThread(s: Tls, t: Tls, tp: nat) {
    && t == s.(storage := t.storage, dtvs := t.dtvs)
    && t.storage.Keys == s.storage.Keys && tp in s.storage
    && (forall u :: u in s.storage && u != tp ==> t.storage[u] == s.storage[u] && SameDtv(s, t, u))
    && |t.storage[tp].below| == |s.storage[tp].below|
  }

  /** The thread's DTV is the same allocation with the same entries. */
  ghost predicate SameDtv(s: Tls, t: Tls, u: nat) {
    u in s.storage && s.storage[u].tcb.dtv in s.dtvs ==>
      u in t.storage && t.storage[u].tcb.dtv == s.storage[u].tcb.dtv
      && t.storage[u].tcb.dtv in t.dtvs && t.dtvs[t.storage[u].tcb.dtv] == s.dtvs[s.storage[u].tcb.dtv]
  }

  /** A thread whose DTV, records and module kinds did not change keeps its entries in order. */
  lemma EntriesFrame(s: Tls, t: Tls, tp: nat)
    requires DtvsOk(s) && DtvsOk(t) && tp in s.storage && tp in t.storage && EntriesOk(s, tp)
    requires t.storage[tp].tcb.dtv == s.storage[tp].tcb.dtv
    requires s.storage[tp].tcb.dtv != 0 ==> t.dtvs[s.storage[tp].tcb.dtv] == s.dtvs[s.storage[tp].tcb.dtv]
    requires forall r :: r in s.records && r.tp == tp ==> r in t.records
    requires |s.modules| <= |t.modules| && forall id: nat :: SameKind(s, t, id)
    ensures EntriesOk(t, tp)
  {
    var d := t.storage[tp].tcb.dtv;
    if d != 0 {
      forall i | 2 <= i < DTV_SLOT_COUNT + 2
        ensures EntryOk(t, tp, i - 1, t.dtvs[d][i])
      {
        assert EntryOk(s, tp, i - 1, s.dtvs[d][i]) && SameKind(s, t, i - 1);
        var e := s.dtvs[d][i];
        assert e.second != 0 ==> Recorded(s, tp, e.first) && Recorded(t, tp, e.first);
      }
    }
  }

  /** The slot is still of the kind it was, unless it has become empty or is new. */
  ghost predicate SameKind(s: Tls, t: Tls, id: nat) {
    Lookup(t, id).Some? && id <= |s.modules| ==>
      Lookup(s, id).Some? && OffsetOf(Lookup(s, id).value) == OffsetOf(Lookup(t, id).value)
  }

  /** Changes to the tables that keep every module's kind leave all memory facts alone. */
  lemma MemoryFrame(s: Tls, t: Tls)
    requires MemoryOk(s) && t.records == s.records && t.allocations == s.allocations
    requires t.storage == s.storage && t.dtvs == s.dtvs && t.blocks == s.blocks
    requires |s.modules| <= |t.modules| && forall id: nat :: SameKind(s, t, id)
    ensures MemoryOk(t)
  {
    forall tp | tp in t.storage
      ensures EntriesOk(t, tp)
    {
      EntriesFrame(s, t, tp);
    }
  }

  /** Changing only the bytes below thread pointers changes no memory fact. */
  lemma BytesFrame(s: Tls, t: Tls)
    requires MemoryOk(s) && t == s.(storage := t.storage) && t.storage.Keys == s.storage.Keys
    requires forall tp :: tp in s.storage ==> t.storage[tp].tcb == s.storage[tp].tcb
    ensures MemoryOk(t)
  {
    forall tp | tp in t.storage
      ensures EntriesOk(t, tp)
    {
      EntriesFrame(s, t, tp);
    }
  }

  /** The tables' facts depend on the tables alone. */
  lemma TablesFrame(s: Tls, t: Tls)
    requires TablesOk(s) && t.modules == s.modules && t.statics == s.statics && t.resolver == s.resolver
    requires t.area == s.area && t.placed == s.placed
    ensures TablesOk(t)
  {
    assert forall i: nat :: Lookup(t, i) == Lookup(s, i);
    if s.area.Some? {
      assert forall k :: 0 <= k < |t.placed| && PlacementOk(s, s.area.value, t.placed[k])
                         ==> PlacementOk(t, t.area.value, t.placed[k]);
    }
  }

  lemma NewStorageKeeps(s: Tls, tp: nat, st: Storage, more: set<TlsAllocation>)
    requires Inv(s) && tp != 0 && tp !in s.storage && st.tcb.dtv == 0
    requires forall a :: a in more ==> a.tp == tp
    requires forall a, b :: a in more && b in more ==> a == b
    ensures Inv(s.(storage := s.storage[tp := st], allocations := s.allocations + more))
  {
    var t := s.(storage := s.storage[tp := st], allocations := s.allocations + more);
    NewStorageMemory(s, t, tp);
    TablesFrame(s, t);
    hide MemoryOk, TablesOk;
    assert ArenaOk(t) && ContentsOk(t);
  }

  lemma NewStorageMemory(s: Tls, t: Tls, tp: nat)
    requires MemoryOk(s) && tp != 0 && tp !in s.storage && tp in t.storage && t.storage[tp].tcb.dtv == 0
    requires t == s.(storage := s.storage[tp := t.storage[tp]], allocations := t.allocations)
    requires AllocationsOk(t)
    ensures MemoryOk(t)
  {
    forall u | u in t.storage
      ensures EntriesOk(t, u)
    {
      if u != tp { EntriesFrame(s, t, u); }
    }
  }

  /** A change to one thread's control block and DTV leaves the other threads' links alone. */
  lemma OneThreadFrame(s: Tls, t: Tls, tp: nat)
    requires MemoryOk(s) && DtvsOk(t) && tp in s.storage && t == s.(storage := t.storage, dtvs := t.dtvs)
    requires t.storage.Keys == s.storage.Keys && EntriesOk(t, tp)
    requires forall u :: u in s.storage && u != tp ==> t.storage[u] == s.storage[u]
    requires forall u :: u in s.storage && u != tp && s.storage[u].tcb.dtv != 0 ==>
                           && t.dtvs[s.storage[u].tcb.dtv] == s.dtvs[s.storage[u].tcb.dtv]
                           && t.storage[tp].tcb.dtv != s.storage[u].tcb.dtv
    ensures MemoryOk(t)
  {
    forall u | u in t.storage
      ensures EntriesOk(t, u)
    {
      if u != tp { EntriesFrame(s, t, u); }
    }
  }

  /** Tables, arena and contents do not depend on control blocks and DTVs. */
  lemma BytesUnchangedFrame(s: Tls, t: Tls)
    requires TablesOk(s) && ArenaOk(s) && ContentsOk(s) && t == s.(storage := t.storage, dtvs := t.dtvs)
    requires t.storage.Keys == s.storage.Keys
    requires forall u :: u in s.storage ==> t.storage[u].below == s.storage[u].below
    ensures TablesOk(t) && ArenaOk(t) && ContentsOk(t)
  {
    TablesFrame(s, t);
    assert forall id: nat :: IsPlaced(t, id) <==> IsPlaced(s, id);
  }

  lemma DeallocateTcbKeeps(s: Tls, tp: nat)
    requires Inv(s) && tp in s.storage
    ensures Inv(DeallocateTcb(s, tp)) && DeallocateTcb(s, tp).storage[tp].tcb.dtv == 0
  {
    var t := DeallocateTcb(s, tp);
    if s.storage[tp].tcb.dtv != 0 {
      OneThreadFrame(s, t, tp);
      BytesUnchangedFrame(s, t);
    }
  }

  lemma InitTcbKeeps(s: Tls, tp: nat, dtv: nat)
    requires Inv(s) && tp in s.storage && dtv != 0 && dtv !in s.dtvs
    ensures Inv(InitTcb(s, tp, dtv))
  {
    DeallocateTcbKeeps(s, tp);
    var s1 := DeallocateTcb(s, tp);
    var t := InitTcb(s, tp, dtv);
    OneThreadFrame(s1, t, tp);
    BytesUnchangedFrame(s1, t);
  }
}

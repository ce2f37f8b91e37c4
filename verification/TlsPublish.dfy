/** Publication and thread initialisation: what the raw writes put into thread storage, and what
    they leave alone. */
module TlsPublish {
  import opened Bytes
  import opened Usize
  import opened TlsLayout
  import opened TlsState
  import opened TlsInvariant
  import opened TlsRegister

  ghost predicate Apart(o: int, n: nat, o': int, n': nat) {
    o + n <= o' || o' + n' <= o
  }

  /** The caller-chosen range of a module added at a fixed offset avoids every placed block. */
  ghost predicate ClearOfPlaced(s: Tls, m: StaticModule) {
    forall p :: p in s.placed ==> Apart(m.offset, m.info.memsz, -(p.end as int), p.info.memsz)
  }

  /** The current rseq area of a thread holds exactly the "registration failed" pattern. */
  ghost predicate RseqHolds(below: seq<byte>, used: usize) {
    match StaticUsedWithRseq(used)
    case Some(r) => RSEQ_AREA_SIZE <= r <= |below|
                    && below[|below| - r..|below| - r + RSEQ_AREA_SIZE] == RSEQ_PATTERN
    case None => false
  }

  /** Every placed module that is published is held by these bytes. */
  ghost predicate AllHeld(s: Tls, ms: seq<StaticModule>, below: seq<byte>) {
    forall m :: m in ms && IsPlaced(s, m.id) ==> PublishedHolds(below, m)
  }

  lemma PatchKeepsHolds(below: seq<byte>, at: nat, bytes: seq<byte>, offset: int, image: seq<byte>, size: nat)
    requires at + |bytes| <= |below| && Holds(below, offset, image, size)
    requires at + |bytes| <= |below| + offset || |below| + offset + size <= at
    ensures Holds(Patch(below, at, bytes), offset, image, size)
  {
    var i := |below| + offset;
    assert Patch(below, at, bytes)[i..i + size] == below[i..i + size];
  }

  lemma PatchHolds(below: seq<byte>, offset: int, image: seq<byte>, size: nat)
    requires |image| <= size && InRange(|below|, offset, size)
    ensures Holds(Patch(below, |below| + offset, ImageThenZeros(image, size)), offset, image, size)
  {
    var i := |below| + offset;
    assert Patch(below, i, ImageThenZeros(image, size))[i..i + size] == ImageThenZeros(image, size);
  }

  /** The rseq area starts at or below the last placed byte. */
  lemma RseqBelowUsed(used: usize)
    requires StaticUsedWithRseq(used).Some?
    ensures StaticUsedWithRseq(used).value >= used + RSEQ_AREA_SIZE
  {
    assert Pow2(5) == 32;
    AlignUpExact(used, RSEQ_AREA_ALIGN);
  }

  /** A placed, live static module sits at the end recorded for it. */
  lemma PlacedAt(s: Tls, m: StaticModule) returns (p: Placement)
    requires TablesOk(s) && s.area.Some? && m in s.statics && IsPlaced(s, m.id)
    ensures p in s.placed && p.id == m.id && p.info == m.info && m.offset == -(p.end as int)
    ensures PlacementOk(s, s.area.value, p)
  {
    p :| p in s.placed && p.id == m.id;
  }

  /** Two different placed modules occupy disjoint ranges below the thread pointer. */
  lemma PlacedApart(s: Tls, m: StaticModule, n: StaticModule)
    requires TablesOk(s) && s.area.Some?
    requires m in s.statics && IsPlaced(s, m.id) && n in s.statics && IsPlaced(s, n.id) && m.id != n.id
    ensures Apart(m.offset, m.info.memsz, n.offset, n.info.memsz)
  {
    var p := PlacedAt(s, m);
    var q := PlacedAt(s, n);
    var j :| 0 <= j < |s.placed| && s.placed[j] == p;
    var k :| 0 <= k < |s.placed| && s.placed[k] == q;
    assert j != k;
  }

  /** Writing one module's block fills that block and disturbs no other placed one. */
  lemma WrittenHolds(s: Tls, below: seq<byte>, m: StaticModule, n: StaticModule)
    requires TablesOk(s) && s.area.Some? && m in s.statics && n in s.statics
    requires Writable(|below|, m) && IsPlaced(s, n.id)
    requires IsPlaced(s, m.id) || (m.source.Some? && m.source.value.Image? ==> ClearOfPlaced(s, m))
    requires m.id != n.id ==> PublishedHolds(below, n)
    ensures PublishedHolds(Written(below, m), n)
  {
    DistinctById(s.statics, m, n);
    match m.source
    case Some(Image(b)) =>
      if m == n {
        PatchHolds(below, m.offset, b, m.info.memsz);
      } else {
        if IsPlaced(s, m.id) { PlacedApart(s, m, n); } else { var q := PlacedAt(s, n); }
        if n.source.Some? && n.source.value.Image? {
          PatchKeepsHolds(below, |below| + m.offset, ImageThenZeros(b, m.info.memsz),
                          n.offset, n.source.value.bytes, n.info.memsz);
        }
      }
    case _ =>
  }

  lemma DistinctById(ms: seq<StaticModule>, m: StaticModule, n: StaticModule)
    requires DistinctIds(ms) && m in ms && n in ms
    ensures m.id == n.id ==> m == n
  {
  }

  /** Marking the rseq area unregistered disturbs no placed block. */
  lemma RseqKeepsHeld(s: Tls, below: seq<byte>, n: StaticModule)
    requires TablesOk(s) && s.area.Some? && n in s.statics && IsPlaced(s, n.id)
    requires PublishedHolds(below, n) && RseqFits(|below|, s.area.value.used)
    ensures PublishedHolds(MarkRseq(below, s.area.value.used), n)
  {
    var q := PlacedAt(s, n);
    RseqBelowUsed(s.area.value.used);
    hide TablesOk;
    if n.source.Some? && n.source.value.Image? && StaticUsedWithRseq(s.area.value.used).value <= ISIZE_MAX {
      PatchKeepsHolds(below, |below| - StaticUsedWithRseq(s.area.value.used).value, RSEQ_PATTERN,
                      n.offset, n.source.value.bytes, n.info.memsz);
    }
  }

  lemma RseqWritten(below: seq<byte>, used: usize)
    requires RseqFits(|below|, used)
    requires StaticUsedWithRseq(used).Some? && StaticUsedWithRseq(used).value <= ISIZE_MAX
    ensures RseqHolds(MarkRseq(below, used), used)
  {
    RseqBelowUsed(used);
    var i := |below| - StaticUsedWithRseq(used).value;
    assert Patch(below, i, RSEQ_PATTERN)[i..i + RSEQ_AREA_SIZE] == RSEQ_PATTERN;
  }

  // ----- Memory facts -----

  lemma SetDtvKeeps(s: Tls, tp: nat, id: nat, value: int, toFree: int)
    requires MemoryOk(s) && tp in s.storage
    requires EntryOk(s, tp, id, DtvEntry(value, toFree))
    ensures MemoryOk(SetDtvValue(s, tp, id, value, toFree).0)
  {
    var t := SetDtvValue(s, tp, id, value, toFree).0;
    if DtvIndex(s, tp, id).Some? {
      forall u | u in t.storage
        ensures EntriesOk(t, u)
      {
        if u != tp {
          EntriesFrame(s, t, u);
        } else {
          var d := t.storage[tp].tcb.dtv;
          forall i | 2 <= i < DTV_SLOT_COUNT + 2
            ensures EntryOk(t, tp, i - 1, t.dtvs[d][i])
          {
            assert EntriesOk(s, tp);
            assert EntryOk(s, tp, i - 1, s.dtvs[d][i]);
            EntrySame(s, t, tp, i - 1, t.dtvs[d][i]);
          }
        }
      }
    }
  }

  lemma EntrySame(s: Tls, t: Tls, tp: nat, id: nat, e: DtvEntry)
    requires EntryOk(s, tp, id, e) && t.modules == s.modules && t.records == s.records
    ensures EntryOk(t, tp, id, e)
  {
    assert e.second != 0 ==> Recorded(s, tp, e.first) && Recorded(t, tp, e.first);
  }

  lemma InitStaticModuleKeeps(s: Tls, tp: nat, m: StaticModule)
    requires MemoryOk(s) && tp in s.storage && Writable(|s.storage[tp].below|, m)
    requires Lookup(s, m.id) == Some(Static(m.info, m.offset))
    ensures MemoryOk(InitStaticModule(s, tp, m))
  {
    match m.source
    case Some(Image(b)) =>
      var st := s.storage[tp];
      var s1 := s.(storage := s.storage[tp := st.(below := Written(st.below, m))]);
      assert EntryOk(s1, tp, m.id, DtvEntry(tp + m.offset, 0)) by { assert Lookup(s1, m.id) == Lookup(s, m.id); }
      hide DtvLinks, BlocksOk, AllocationsOk, EntryOk, Written, Lookup;
      BytesFrame(s, s1);
      SetDtvKeeps(s1, tp, m.id, tp + m.offset, 0);
    case _ =>
  }

  lemma InitRseqKeeps(s: Tls, tp: nat, used: usize)
    requires MemoryOk(s) && tp in s.storage && RseqFits(|s.storage[tp].below|, used)
    ensures MemoryOk(InitRseq(s, tp, used))
  {
    BytesFrame(s, InitRseq(s, tp, used));
  }

  // ----- Publication -----

  /** The caller's duties when publishing: the image fits its module, and a module that was added at
      an offset of the caller's choosing lies inside the arena and off the placed blocks. */
  ghost predicate PublishOk(s: Tls, source: Source, id: nat) {
    match Lookup(s, id)
    case None => true
    case Some(Dynamic(info, _)) => source.Image? ==> |source.bytes| <= info.memsz
    case Some(Static(info, offset)) =>
      source.Image? ==>
        && |source.bytes| <= info.memsz
        && (!IsPlaced(s, id) && s.area.Some? ==>
              && InRange(STATIC_TLS_ARENA_SIZE, offset, info.memsz)
              && ClearOfPlaced(s, StaticModule(id, info, Some(source), offset)))
  }

  lemma PlacedInRange(s: Tls, id: nat, info: TlsInfo, offset: int)
    requires TablesOk(s) && s.area.Some? && IsPlaced(s, id) && Lookup(s, id) == Some(Static(info, offset))
    ensures InRange(s.area.value.used, offset, info.memsz)
    ensures s.area.value.used + RSEQ_AREA_SIZE <= STATIC_TLS_ARENA_SIZE
  {
    var p :| p in s.placed && p.id == id;
    RseqBelowUsed(s.area.value.used);
  }

  lemma PublishInitOk(s: Tls, source: Source, id: nat)
    requires Inv(s) && PublishOk(s, source, id)
    ensures InitTlsOk(s, source, id)
  {
    match Lookup(s, id)
    case Some(Static(info, offset)) =>
      if s.area.Some? && IsPlaced(s, id) { PlacedInRange(s, id, info, offset); }
    case _ =>
  }

  /** The tables after publishing a live static module: its entry is replaced in place. */
  lemma RepublishReplaces(s: Tls, m: StaticModule)
    requires TablesAgree(s) && Lookup(s, m.id) == Some(Static(m.info, m.offset))
    ensures FindStatic(s.statics, m.id) < |s.statics|
    ensures |Republish(s.statics, m)| == |s.statics| && DistinctIds(Republish(s.statics, m))
    ensures forall n :: n in Republish(s.statics, m) <==> n == m || (n in s.statics && n.id != m.id)
  {
    var n :| n in s.statics && n.id == m.id;
    var i := FindStatic(s.statics, m.id);
    var t := s.statics[i := m];
    forall x
      ensures x in t <==> x == m || (x in s.statics && x.id != m.id)
    {
      if x in s.statics && x.id != m.id {
        var j :| 0 <= j < |s.statics| && s.statics[j] == x;
        assert t[j] == x;
      }
      assert t[i] == m;
    }
  }

  lemma RepublishTables(s: Tls, t: Tls, m: StaticModule)
    requires TablesOk(s) && Lookup(s, m.id) == Some(Static(m.info, m.offset))
    requires m.source.Some? && m.source.value.Image? ==> |m.source.value.bytes| <= m.info.memsz
    requires t.modules == s.modules && t.statics == Republish(s.statics, m)
    requires t.area == s.area && t.placed == s.placed && t.resolver == s.resolver
    ensures TablesOk(t)
  {
    RepublishReplaces(s, m);
    forall id: nat | Lookup(t, id).Some? && Lookup(t, id).value.Static?
      ensures HasStatic(t.statics, id)
    {
      assert Lookup(s, id) == Lookup(t, id);
      var n :| n in s.statics && n.id == id;
      assert id == m.id ==> m in t.statics;
      assert id != m.id ==> n in t.statics;
    }
    assert forall i: nat :: Lookup(t, i) == Lookup(s, i);
    if s.area.Some? {
      assert forall k :: 0 <= k < |t.placed| && PlacementOk(s, s.area.value, t.placed[k])
                         ==> PlacementOk(t, t.area.value, t.placed[k]);
    }
  }

  /** What publishing a live static module achieves in the initial thread's arena, if there is one. */
  ghost predicate Published(s: Tls, t: Tls, m: StaticModule) {
    && Inv(t) && t.area == s.area && t.placed == s.placed && m in t.statics
    && (s.area.Some? && ArenaOk(t) ==>
          && RseqHolds(t.storage[s.area.value.tp].below, s.area.value.used)
          && (IsPlaced(s, m.id) ==> PublishedHolds(t.storage[s.area.value.tp].below, m)))
  }

  lemma PublishStatic(s: Tls, m: StaticModule)
    requires Inv(s) && m.source.Some? && PublishOk(s, m.source.value, m.id)
    requires Lookup(s, m.id) == Some(Static(m.info, m.offset))
    requires InitStaticOk(s, m)
    ensures Published(s, InitStatic(s, m), m)
  {
    hide DtvLinks, BlocksOk, AllocationsOk, SourcesFit, StaticSourcesFit, PublishedHolds,
         RseqHolds, StaticUsedWithRseq, DistinctIds, DistinctEntries, ClearOfPlaced, InitStaticModule, InitRseq;
    var s1 := WithStatic(s, m);
    assert s.modules[m.id - 1 := Some(Static(m.info, m.offset))] == s.modules;
    RepublishReplaces(s, m);
    RepublishTables(s, s1, m);
    MemoryFrame(s, s1);
    if s.area.Some? {
      PublishMemory(s, s1, m);
    }
  }

  lemma PublishMemory(s: Tls, s1: Tls, m: StaticModule)
    requires TablesOk(s1) && MemoryOk(s1) && s.area.Some? && ArenaOk(s) && ContentsOk(s) && LayoutOk(s)
    requires s1 == s.(statics := s1.statics) && m in s1.statics
    requires forall n :: n in s1.statics ==> n == m || (n in s.statics && n.id != m.id)
    requires m.source.Some? && PublishOk(s, m.source.value, m.id)
    requires Lookup(s, m.id) == Some(Static(m.info, m.offset)) && InitStaticOk(s, m)
    ensures DtvsOk(s1) && s.area.value.tp in s1.storage
    ensures Published(s, InitRseq(InitStaticModule(s1, s.area.value.tp, m), s.area.value.tp, s.area.value.used), m)
  {
    var tp, used := s.area.value.tp, s.area.value.used;
    assert StaticUsedWithRseq(used).Some? && StaticUsedWithRseq(used).value <= ISIZE_MAX;
    hide DtvLinks, BlocksOk, AllocationsOk, TablesAgree, SourcesFit, StaticSourcesFit, LayoutOk, PublishedHolds,
         RseqHolds, StaticUsedWithRseq;
    var s2 := InitStaticModule(s1, tp, m);
    var t := InitRseq(s2, tp, used);
    InitStaticModuleKeeps(s1, tp, m);
    InitRseqKeeps(s2, tp, used);
    RseqWritten(s2.storage[tp].below, used);
    PublishAllHeld(s, s1, m);
    PublishedInv(s1, t, tp);
  }

  lemma PublishAllHeld(s: Tls, s1: Tls, m: StaticModule)
    requires TablesOk(s1) && s.area.Some? && ArenaOk(s) && ContentsOk(s)
    requires s1 == s.(statics := s1.statics) && m in s1.statics
    requires forall n :: n in s1.statics ==> n == m || (n in s.statics && n.id != m.id)
    requires Writable(STATIC_TLS_ARENA_SIZE, m) && RseqFits(STATIC_TLS_ARENA_SIZE, s.area.value.used)
    requires IsPlaced(s1, m.id) || (m.source.Some? && m.source.value.Image? ==> ClearOfPlaced(s1, m))
    ensures AllHeld(s1, s1.statics, MarkRseq(Written(s.storage[s.area.value.tp].below, m), s.area.value.used))
  {
    var below := s.storage[s.area.value.tp].below;
    hide TablesOk, PublishedHolds, MarkRseq, ClearOfPlaced, Writable, RseqFits, Written;
    forall n | n in s1.statics && IsPlaced(s1, n.id)
      ensures PublishedHolds(MarkRseq(Written(below, m), s.area.value.used), n)
    {
      assert n != m ==> IsPlaced(s, n.id);
      WrittenHolds(s1, below, m, n);
      RseqKeepsHeld(s1, Written(below, m), n);
    }
  }

  lemma PublishedInv(s: Tls, t: Tls, tp: nat)
    requires TablesOk(s) && MemoryOk(t) && s.area.Some? && s.area.value.tp == tp
    requires t == s.(storage := t.storage, dtvs := t.dtvs) && ArenaOk(t)
    requires AllHeld(s, s.statics, t.storage[tp].below)
    ensures Inv(t)
  {
    TablesFrame(s, t);
    hide MemoryOk, TablesOk, PublishedHolds;
    assert forall id: nat :: IsPlaced(t, id) <==> IsPlaced(s, id);
  }
}

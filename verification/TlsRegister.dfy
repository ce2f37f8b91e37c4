/** Registration and unregistration: the layout grows downwards and the three indices stay in step. */
module TlsRegister {
  import opened Usize
  import opened TlsLayout
  import opened TlsState
  import opened TlsInvariant

  // ----- Lists -----

  lemma {:induction false} WithoutStaticMembers(ms: seq<StaticModule>, id: nat)
    ensures forall m :: m in WithoutStatic(ms, id) <==> m in ms && m.id != id
    ensures DistinctIds(ms) ==> DistinctIds(WithoutStatic(ms, id))
  {
    if ms != [] {
      var n := |ms| - 1;
      WithoutStaticMembers(ms[..n], id);
      assert ms == ms[..n] + [ms[n]];
    }
  }

  lemma {:induction false} WithoutEntryMembers(es: seq<(nat, Option<int>)>, id: nat)
    ensures forall e :: e in WithoutEntry(es, id) <==> e in es && e.0 != id
    ensures DistinctEntries(es) ==> DistinctEntries(WithoutEntry(es, id))
  {
    if es != [] {
      var n := |es| - 1;
      WithoutEntryMembers(es[..n], id);
      assert es == es[..n] + [es[n]];
    }
  }

  lemma {:induction false} FindOffsetFinds(es: seq<(nat, Option<int>)>, id: nat, o: Option<int>)
    requires DistinctEntries(es) && (id, o) in es
    ensures FindOffset(es, id) == o
  {
    var i :| 0 <= i < |es| && es[i] == (id, o);
    if i > 0 {
      assert es[0].0 != es[i].0;
      assert es[1..][i - 1] == (id, o);
      FindOffsetFinds(es[1..], id, o);
    }
  }

  // ----- Registration -----

  lemma NewTlsId(s: Tls, id: nat)
    requires TablesOk(s) && id > |s.modules|
    ensures forall m :: m in s.statics ==> m.id < id
    ensures forall e :: e in s.resolver ==> e.0 < id
    ensures !IsPlaced(s, id)
  {
  }

  /** The three indices stay in step when a module is registered in all of them. */
  lemma AgreeAfterNewModule(s: Tls, t: Tls, m: TlsModule)
    requires TablesAgree(s) && SourcesFit(s) && StaticSourcesFit(s)
    requires t.modules == s.modules + [Some(m)]
    requires m.Dynamic? ==> m.source == None && t.statics == s.statics
    requires m.Static? ==> t.statics == s.statics + [StaticModule(|s.modules| + 1, m.info, None, m.offset)]
    requires t.resolver == s.resolver + [(|s.modules| + 1, OffsetOf(m))]
    ensures TablesAgree(t) && SourcesFit(t) && StaticSourcesFit(t)
  {
    var id := |s.modules| + 1;
    assert Lookup(t, id) == Some(m) && Lookup(s, id) == None;
    assert forall i: nat :: i != id ==> Lookup(t, i) == Lookup(s, i);
    StaticsAfterNewModule(s, t, m, id);
    ResolverAfterNewModule(s, t, m, id);
  }

  lemma StaticsAfterNewModule(s: Tls, t: Tls, m: TlsModule, id: nat)
    requires DistinctIds(s.statics) && Lookup(s, id) == None && Lookup(t, id) == Some(m)
    requires forall i: nat :: i != id ==> Lookup(t, i) == Lookup(s, i)
    requires forall x :: x in s.statics ==> Lookup(s, x.id) == Some(Static(x.info, x.offset))
    requires forall i: nat :: Lookup(s, i).Some? && Lookup(s, i).value.Static? ==> HasStatic(s.statics, i)
    requires m.Dynamic? ==> t.statics == s.statics
    requires m.Static? ==> t.statics == s.statics + [StaticModule(id, m.info, None, m.offset)]
    ensures DistinctIds(t.statics)
    ensures forall x :: x in t.statics ==> Lookup(t, x.id) == Some(Static(x.info, x.offset))
    ensures forall i: nat :: Lookup(t, i).Some? && Lookup(t, i).value.Static? ==> HasStatic(t.statics, i)
  {
    hide Lookup;
    assert forall i :: 0 <= i < |s.statics| ==> s.statics[i] in s.statics;
    assert forall x :: x in s.statics ==> x in t.statics;
    assert m.Static? ==> t.statics[|s.statics|] in t.statics;
  }

  lemma ResolverAfterNewModule(s: Tls, t: Tls, m: TlsModule, id: nat)
    requires DistinctEntries(s.resolver) && Lookup(s, id) == None && Lookup(t, id) == Some(m)
    requires forall i: nat :: i != id ==> Lookup(t, i) == Lookup(s, i)
    requires forall e :: e in s.resolver ==> Lookup(s, e.0).Some? && OffsetOf(Lookup(s, e.0).value) == e.1
    requires forall i: nat :: Lookup(s, i).Some? ==> (i, OffsetOf(Lookup(s, i).value)) in s.resolver
    requires t.resolver == s.resolver + [(id, OffsetOf(m))]
    ensures DistinctEntries(t.resolver)
    ensures forall e :: e in t.resolver ==> Lookup(t, e.0).Some? && OffsetOf(Lookup(t, e.0).value) == e.1
    ensures forall i: nat :: Lookup(t, i).Some? ==> (i, OffsetOf(Lookup(t, i).value)) in t.resolver
  {
    hide Lookup, OffsetOf;
    assert forall i :: 0 <= i < |s.resolver| ==> s.resolver[i] in s.resolver;
    assert forall e :: e in s.resolver ==> e in t.resolver;
    assert t.resolver[|s.resolver|] in t.resolver;
  }

  lemma LayoutAfterNewModule(s: Tls, t: Tls, m: TlsModule)
    requires LayoutOk(s) && t.modules == s.modules + [Some(m)]
    requires t.area == s.area && t.placed == s.placed
    ensures LayoutOk(t)
  {
    if s.area.Some? {
      forall k | 0 <= k < |t.placed|
        ensures PlacementOk(t, t.area.value, t.placed[k])
      {
        assert PlacementOk(s, s.area.value, s.placed[k]);
        assert Lookup(t, t.placed[k].id) == Lookup(s, s.placed[k].id);
      }
    }
  }

  /** A module that is new has no published image yet. */
  lemma ContentsAfterNewModule(s: Tls, t: Tls, more: seq<StaticModule>)
    requires TablesOk(s) && ContentsOk(s) && ArenaOk(s) && ArenaOk(t)
    requires t.storage == s.storage && (t.area.Some? ==> s.area.Some? && t.area.value.tp == s.area.value.tp)
    requires t.statics == s.statics + more
    requires forall m :: m in more ==> m.source == None
    requires forall p :: p in t.placed ==> p in s.placed || p.id == |s.modules| + 1
    ensures ContentsOk(t)
  {
    NewTlsId(s, |s.modules| + 1);
    if t.area.Some? {
      forall m | m in t.statics && IsPlaced(t, m.id)
        ensures PublishedHolds(t.storage[t.area.value.tp].below, m)
      {
        if m in s.statics {
          var p :| p in t.placed && p.id == m.id;
          assert p in s.placed;
        } else {
          assert m in more;
        }
      }
    }
  }

  lemma RegisterDynamicKeeps(s: Tls, info: TlsInfo, grant: Grant)
    requires Inv(s)
    ensures Inv(Register(s, info, RequestDynamic, grant).0)
  {
    var t := Register(s, info, RequestDynamic, grant).0;
    if t.modules != s.modules {
      var m := Dynamic(info, None);
      hide DtvsOk, DtvLinks, BlocksOk, AllocationsOk, TablesAgree, SourcesFit, StaticSourcesFit, LayoutOk,
           PublishedHolds;
      AgreeAfterNewModule(s, t, m);
      LayoutAfterNewModule(s, t, m);
      MemoryFrame(s, t);
      ContentsAfterNewModule(s, t, []);
    }
  }

  lemma AddStaticKeeps(s: Tls, info: TlsInfo, offset: int, grant: Grant)
    requires Inv(s)
    ensures Inv(Register(s, info, RequestStaticAt(offset), grant).0)
  {
    var t := Register(s, info, RequestStaticAt(offset), grant).0;
    if t.modules != s.modules {
      var m := Static(info, offset);
      hide DtvsOk, DtvLinks, BlocksOk, AllocationsOk, TablesAgree, SourcesFit, StaticSourcesFit, LayoutOk,
           PublishedHolds;
      AgreeAfterNewModule(s, t, m);
      LayoutAfterNewModule(s, t, m);
      MemoryFrame(s, t);
      ContentsAfterNewModule(s, t, [StaticModule(|s.modules| + 1, info, None, offset)]);
    }
  }

  lemma EmptyLayout()
    ensures StaticUsedWithRseq(0) == Some(32) && IsPow2(1)
  {
    assert Pow2(5) == 32 && Pow2(0) == 1;
    AlignUpExact(0, RSEQ_AREA_ALIGN);
    MultipleOfItself(RSEQ_AREA_ALIGN);
    assert Fits(0, 0, 0, RSEQ_AREA_ALIGN);
  }

  /** The arena a first static registration creates is an ordinary new thread storage. */
  lemma EnsureAreaKeeps(s: Tls, grant: Grant)
    requires Inv(s) && (s.area.None? ==> GrantOk(s, grant))
    ensures Inv(EnsureArea(s, grant).0)
    ensures EnsureArea(s, grant).1 ==> EnsureArea(s, grant).0.area.Some?
  {
    if s.area.None? {
      var blank := Storage(Zeros(STATIC_TLS_ARENA_SIZE), Tcb(0, 0, 0, 0, 0));
      NewStorageKeeps(s, grant.tp, blank, {});
      var s0 := s.(storage := s.storage[grant.tp := blank]);
      assert s0 == s.(storage := s.storage[grant.tp := blank], allocations := s.allocations + {});
      InitTcbKeeps(s0, grant.tp, grant.dtv);
      if grant.installed {
        AreaInstalled(InitTcb(s0, grant.tp, grant.dtv), grant.tp);
      }
    }
  }

  lemma AreaInstalled(s: Tls, tp: nat)
    requires Inv(s) && s.area.None? && tp in s.storage && Multiple(tp, 4096)
    requires |s.storage[tp].below| == STATIC_TLS_ARENA_SIZE && forall a :: a in s.allocations ==> a.tp != tp
    ensures Inv(s.(area := Some(StaticArea(tp, 0, 1))))
  {
    var t := s.(area := Some(StaticArea(tp, 0, 1)));
    EmptyLayout();
    assert TablesAgree(t) by { assert forall i: nat :: Lookup(t, i) == Lookup(s, i); }
    MemoryFrame(s, t);
  }

  /** The new block's end: below everything placed, with its first byte congruent to `vaddr`. */
  lemma PlacedEnd(s: Tls, info: TlsInfo, align: usize)
    requires s.area.Some? && IsPow2(align)
    ensures align >= 1
    ensures PlaceStatic(s, info, align).1.Ok? ==>
              var (t, r) := PlaceStatic(s, info, align);
              && t.area.Some? && |s.modules| + 1 == r.value.0
              && var used := t.area.value.used;
                 && s.area.value.used + info.memsz <= used && Multiple(used + info.vaddr, align)
                 && StaticUsedWithRseq(used).Some? && RseqFits(STATIC_TLS_ARENA_SIZE, used)
                 && r.value.1 == -(used as int)
                 && t == s.(area := Some(StaticArea(s.area.value.tp, used, Max(s.area.value.maxAlign, align))),
                            modules := s.modules + [Some(Static(info, r.value.1))],
                            statics := s.statics + [StaticModule(r.value.0, info, None, r.value.1)],
                            placed := s.placed + [Placement(r.value.0, info, align, used)])
    ensures PlaceStatic(s, info, align).1.Err? ==> PlaceStatic(s, info, align).0 == s
  {
    StaticModuleEndExact(s.area.value.used, info.memsz, info.vaddr, align);
  }

  lemma PlacedLayout(s: Tls, t: Tls, info: TlsInfo, align: usize)
    requires LayoutOk(s) && s.area.Some? && t.area.Some? && IsPow2(align) && info.align <= align
    requires t.area.value.maxAlign == Max(s.area.value.maxAlign, align)
    requires var used := t.area.value.used;
             && s.area.value.used + info.memsz <= used && Multiple(used + info.vaddr, align)
             && StaticUsedWithRseq(used).Some? && RseqFits(STATIC_TLS_ARENA_SIZE, used)
             && t.modules == s.modules + [Some(Static(info, -(used as int)))]
             && t.placed == s.placed + [Placement(|s.modules| + 1, info, align, used)]
    ensures LayoutOk(t)
  {
    forall k | 0 <= k < |t.placed|
      ensures PlacementOk(t, t.area.value, t.placed[k])
    {
      if k < |s.placed| {
        assert PlacementOk(s, s.area.value, s.placed[k]);
        assert Lookup(t, t.placed[k].id) == Lookup(s, s.placed[k].id);
      }
    }
  }

  lemma PlaceStaticKeeps(s: Tls, info: TlsInfo, align: usize)
    requires Inv(s) && s.area.Some? && IsPow2(align) && info.align <= align
    requires align >= 1 && PlaceStatic(s, info, align).1.Ok?
    ensures var (t, r) := PlaceStatic(s, info, align);
            Inv(t.(resolver := t.resolver + [(r.value.0, Some(r.value.1))]))
  {
    PlacedEnd(s, info, align);
    hide DtvsOk, DtvLinks, BlocksOk, AllocationsOk, TablesAgree, SourcesFit, StaticSourcesFit, LayoutOk,
         PublishedHolds, PlaceStatic, StaticUsedWithRseq, RseqFits, Multiple, IsPow2;
    var (t0, r) := PlaceStatic(s, info, align);
    var t := t0.(resolver := t0.resolver + [(r.value.0, Some(r.value.1))]);
    var m := Static(info, r.value.1);
    AgreeAfterNewModule(s, t, m);
    PlacedLayout(s, t, info, align);
    MemoryFrame(s, t);
    ContentsAfterNewModule(s, t, [StaticModule(|s.modules| + 1, info, None, r.value.1)]);
  }

  lemma RegisterStaticKeeps(s: Tls, info: TlsInfo, grant: Grant)
    requires Inv(s) && (s.area.None? ==> GrantOk(s, grant))
    ensures Inv(Register(s, info, RequestStatic, grant).0)
  {
    EnsureAreaKeeps(s, grant);
    var (s1, ready) := EnsureArea(s, grant);
    if ready {
      match NextPow2(Max(info.align, 1))
      case None =>
      case Some(align) =>
        PlacedEnd(s1, info, align);
        if PlaceStatic(s1, info, align).1.Ok? {
          PlaceStaticKeeps(s1, info, align);
        }
    }
  }

  // ----- Unregistration -----

  lemma UnregisterKeeps(s: Tls, id: nat)
    requires Inv(s)
    ensures Inv(Unregister(s, id))
  {
    var t := Unregister(s, id);
    UnregisterLists(s, id);
    UnregisterTables(s, t, id);
    MemoryFrame(s, t);
    if t.area.Some? {
      forall m | m in t.statics && IsPlaced(t, m.id)
        ensures PublishedHolds(t.storage[t.area.value.tp].below, m)
      {
        assert m in s.statics && IsPlaced(s, m.id);
      }
    }
  }

  lemma UnregisterLists(s: Tls, id: nat)
    requires TablesOk(s)
    ensures var t := Unregister(s, id);
            && |t.modules| == |s.modules| && Lookup(t, id) == None
            && (forall i: nat :: i != id ==> Lookup(t, i) == Lookup(s, i))
            && DistinctIds(t.statics) && DistinctEntries(t.resolver)
            && (forall m :: m in t.statics <==> m in s.statics && m.id != id)
            && (forall e :: e in t.resolver <==> e in s.resolver && e.0 != id)
  {
    WithoutEntryMembers(s.resolver, id);
    WithoutStaticMembers(s.statics, id);
    assert Lookup(s, 0) == None;
  }

  lemma UnregisterTables(s: Tls, t: Tls, id: nat)
    requires TablesOk(s) && |t.modules| == |s.modules| && t.area == s.area && t.placed == s.placed
    requires forall i: nat :: i != id ==> Lookup(t, i) == Lookup(s, i)
    requires Lookup(t, id) == None
    requires DistinctIds(t.statics) && DistinctEntries(t.resolver)
    requires forall m :: m in t.statics <==> m in s.statics && m.id != id
    requires forall e :: e in t.resolver <==> e in s.resolver && e.0 != id
    ensures TablesOk(t)
  {
    assert SourcesFit(t) by {
      forall i | 0 <= i < |t.modules|
        ensures match t.modules[i] case Some(Dynamic(info, Some(Image(b)))) => |b| <= info.memsz case _ => true
      {
        assert Lookup(t, i + 1) == t.modules[i] && Lookup(s, i + 1) == s.modules[i];
      }
    }
    forall i: nat | Lookup(t, i).Some? && Lookup(t, i).value.Static?
      ensures HasStatic(t.statics, i)
    {
      var m :| m in s.statics && m.id == i;
      assert m in t.statics;
    }
    if s.area.Some? {
      forall k | 0 <= k < |t.placed|
        ensures PlacementOk(t, t.area.value, t.placed[k])
      {
        assert PlacementOk(s, s.area.value, s.placed[k]);
      }
    }
  }
}

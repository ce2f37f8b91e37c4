/** The registry's operations on opened libraries, each one keeping every acquisition with its owner. */
module Registry {
  import opened Leases
  import opened Sequences
  import opened Usize

  function Ids(leases: seq<Lease>): seq<ModuleId> {
    seq(|leases|, i requires 0 <= i < |leases| => leases[i].id)
  }

  function NativeIn(order: seq<ModuleId>, native: set<ModuleId>): seq<ModuleId> {
    if order == [] then []
    else
      var rest := NativeIn(order[..|order| - 1], native);
      if order[|order| - 1] in native then rest + [order[|order| - 1]] else rest
  }

  /** The snapshot's modules: exactly the native ones among those loaded, each as often as there. */
  lemma {:induction false} NativeExactly(order: seq<ModuleId>, native: set<ModuleId>)
    ensures forall id :: id in NativeIn(order, native) <==> id in order && id in native
    ensures NoDuplicates(order) ==> NoDuplicates(NativeIn(order, native))
    decreases |order|
  {
    if order != [] {
      NativeExactly(order[..|order| - 1], native);
      assert order == order[..|order| - 1] + [order[|order| - 1]];
    }
  }

  /** In load order. */
  lemma {:induction false} NativeInOrder(order: seq<ModuleId>, native: set<ModuleId>, i: nat, j: nat)
    returns (a: nat, b: nat)
    requires i < j < |NativeIn(order, native)|
    ensures a < b < |order| && order[a] == NativeIn(order, native)[i] && order[b] == NativeIn(order, native)[j]
    decreases |order|
  {
    var n := |order| - 1;
    var before := NativeIn(order[..n], native);
    if j < |before| {
      a, b := NativeInOrder(order[..n], native, i, j);
    } else {
      NativeExactly(order[..n], native);
      assert before[i] in before;
      a :| a < n && order[..n][a] == before[i];
      b := n;
    }
  }

  /** The snapshots are new acquisitions, one owner each, and nothing else changed hands. */
  ghost predicate SnapshotsTaken(c: Context, h: map<Lease, Owner>, d: Context, g: map<Lease, Owner>,
                                 snapshots: seq<Lease>) {
    && d.order == c.order && d.linkMap == c.linkMap && d.meta == c.meta && d.globals == c.globals
    && d.pins == c.pins && d.outstanding == c.outstanding + (set l | l in snapshots)
    && (forall l :: l in g <==> l in h || l in snapshots)
    && (forall l :: l in snapshots ==> l !in h && g[l] == Snapshot)
    && (forall l :: l in h ==> g[l] == h[l])
  }

  lemma SnapshotsNone(c: Context, h: map<Lease, Owner>)
    ensures SnapshotsTaken(c, h, c, h, [])
  {
  }

  lemma SnapshotsStep(c: Context, h: map<Lease, Owner>, d: Context, g: map<Lease, Owner>, id: ModuleId,
                      snapshots: seq<Lease>)
    requires SnapshotsTaken(c, h, d, g, snapshots) && Acquire(d, id).1 !in g
    ensures var (e, l) := Acquire(d, id);
            && SnapshotsTaken(c, h, e, g[l := Snapshot], snapshots + [l])
            && Ids(snapshots + [l]) == Ids(snapshots) + [id]
  {
    var l := Acquire(d, id).1;
    assert forall k :: k in snapshots + [l] <==> k in snapshots || k == l;
  }

  lemma OrderCommitted(c: Context, handles: map<usize, HandleState>, held: map<Lease, Owner>)
    requires Owned(c, handles, held)
    ensures forall i :: 0 <= i < |c.order| ==> c.order[i] in c.linkMap
  {
  }

  /** What a load does to the context: the modules are there with these flags, pinned if they must stay, the
      root is acquired once more, and nothing else changes. */
  ghost predicate Loaded(c: Context, d: Context, modules: seq<Module>, root: ModuleId, flags: set<Flag>,
                         library: Opened) {
    && d.linkMap.Keys == c.linkMap.Keys + (set m | m in modules :: m.id) && d.order == c.order + IdsOf(modules)
    && root in d.linkMap && library.lease.id == root && library.linkMap == d.linkMap[root]
    && (forall m :: m in modules ==>
          m.id in d.meta && d.meta[m.id] == flags && m.id in d.linkMap && d.linkMap[m.id] == m.linkMap)
    && (forall id :: id in c.meta ==> id in d.meta && d.meta[id] == c.meta[id])
    && (forall id :: id in c.linkMap ==> id in d.linkMap && d.linkMap[id] == c.linkMap[id])
    && d.globals == c.globals + (if GLOBAL in flags then {root} else {})
    && c.pins <= d.pins && d.outstanding - d.pins == c.outstanding - c.pins + {library.lease}
    && (NODELETE !in flags ==> d.pins == c.pins)
    && (NODELETE in flags ==> forall m :: m in modules ==> exists l :: l in d.pins && l.id == m.id)
  }

  lemma CommittedIds(c: Context, d: Context, modules: seq<Module>, root: ModuleId)
    requires Committed(c, d, modules)
    requires root in c.linkMap || exists m :: m in modules && m.id == root
    ensures root in d.linkMap && d.outstanding == c.outstanding && d.pins == c.pins
    ensures d.order == c.order + IdsOf(modules)
    ensures forall m :: m in modules ==> m.id in d.meta
  {
  }

  /** A module of a load has no flags before its turn comes. */
  lemma NextUnflagged(c: Context, d: Context, e: Context, f: Context, modules: seq<Module>, i: nat, flags: set<Flag>)
    requires i < |modules| && AllUnused(c, modules) && Committed(c, d, modules)
    requires e.meta == d.meta && Flagged(e, f, modules[..i], flags)
    ensures modules[i].id in f.meta && f.meta[modules[i].id] == {}
  {
    assert modules[i] in modules;
    forall m | m in modules[..i]
      ensures m.id != modules[i].id
    {
      var j :| 0 <= j < i && modules[..i][j] == m;
      assert modules[j] == m;
    }
  }

  lemma FlagsAllNone(e: Context, modules: seq<Module>, flags: set<Flag>)
    ensures WithFlagsAll(e, modules[..0], flags) == e
  {
  }

  lemma FlagsAllStep(e: Context, modules: seq<Module>, i: nat, flags: set<Flag>)
    requires i < |modules| && forall m :: m in modules ==> m.id in e.meta
    requires var f := WithFlagsAll(e, modules[..i], flags);
             modules[i].id in f.meta && f.meta[modules[i].id] == {}
    ensures var f := WithFlagsAll(e, modules[..i], flags);
            var g := f.(meta := f.meta[modules[i].id := flags]);
            WithFlagsAll(e, modules[..i + 1], flags) == if NODELETE in flags then AcquirePinned(g, modules[i].id) else g
  {
    assert modules[..i + 1][..i] == modules[..i];
    assert modules[..i + 1][i] == modules[i];
  }

  lemma FlaggedFields(e: Context, f: Context, modules: seq<Module>, flags: set<Flag>)
    requires Flagged(e, f, modules, flags)
    ensures f.order == e.order && f.linkMap == e.linkMap
  {
  }

  lemma OwnedPinned(c: Context, handles: map<usize, HandleState>, held: map<Lease, Owner>)
    requires Owned(c, handles, held)
    ensures Pinned(c)
  {
  }

  lemma LoadedFacts(c: Context, d: Context, e: Context, f: Context, modules: seq<Module>, root: ModuleId,
                    flags: set<Flag>, lease: Lease)
    requires Committed(c, d, modules) && root in d.linkMap && (e, lease) == Acquire(d, root) && lease !in c.pins
    requires Flagged(e, f, modules, flags) && Pinned(f)
    ensures var g := if GLOBAL in flags then PromoteGlobal(f, root) else f;
            Loaded(c, g, modules, root, flags, Opened(lease, f.linkMap[root]))
  {
    assert e.outstanding - e.pins == c.outstanding - c.pins + {lease};
    assert f.outstanding - f.pins == c.outstanding - c.pins + {lease};
    assert forall m :: m in modules ==> m.id in f.meta && f.meta[m.id] == flags;
    assert forall id :: id in c.meta ==> f.meta[id] == c.meta[id];
  }

  lemma PreloadKeeps(c: Context, handles: map<usize, HandleState>, held: map<Lease, Owner>, id: ModuleId,
                     flags: set<Flag>, promoted: bool)
    requires Owned(c, handles, held) && id in c.linkMap && id in c.meta
    ensures var d := AcquirePinned(c, id);
            var e := d.(meta := d.meta[id := flags]);
            Owned(if promoted then PromoteGlobal(e, id) else e, handles, held)
  {
    var d := AcquirePinned(c, id);
    PinKeeps(c, handles, held, id);
    hide Owned;
    FlagsOnly(d, handles, held, id, flags);
    if promoted { PromoteKeeps(d.(meta := d.meta[id := flags]), handles, held, id); }
  }

  lemma FreshAcquisition(c: Context, handles: map<usize, HandleState>, held: map<Lease, Owner>, id: ModuleId)
    requires Owned(c, handles, held)
    ensures Acquire(c, id).1 !in c.outstanding
  {
  }

  /** A lease for anyone but a destructor. */
  lemma PendingElsewhere(held: map<Lease, Owner>, pending: map<nat, ThreadDestructor>, l: Lease, owner: Owner)
    requires PendingOk(held, pending) && !owner.Destructor?
    ensures l !in held ==> PendingOk(held[l := owner], pending)
  {
  }

  lemma PendingAdds(held: map<Lease, Owner>, pending: map<nat, ThreadDestructor>, raw: nat, d: ThreadDestructor)
    requires PendingOk(held, pending) && raw !in pending && (d.lease.Some? ==> d.lease.value !in held)
    ensures PendingOk(if d.lease.Some? then held[d.lease.value := Destructor(raw)] else held, pending[raw := d])
  {
  }

  lemma PendingLeaves(held: map<Lease, Owner>, pending: map<nat, ThreadDestructor>, raw: nat)
    requires PendingOk(held, pending) && raw in pending
    ensures pending[raw].lease.Some? ==> pending[raw].lease.value in held
    ensures PendingOk(if pending[raw].lease.Some? then held - {pending[raw].lease.value} else held, pending - {raw})
  {
  }

  class Manager {
    var ctx: Context
    var handles: map<usize, HandleState>
    var adds: nat
    var subs: nat
    ghost var held: map<Lease, Owner>
    ghost var calls: seq<Call>
    var pending: map<nat, ThreadDestructor>

    /** Every acquisition has one owner, loads less unloads is the number of modules there are, and each
        handle is as deep as its opens exceed its closes. */
    ghost predicate Valid()
      reads this
    {
      && Owned(ctx, handles, held)
      && adds == subs + |ctx.order|
      && Recalls(handles, calls)
      && PendingOk(held, pending)
    }

    constructor ()
      ensures Valid() && calls == [] && ctx.order == [] && pending == map[]
    {
      ctx := Context([], map[], map[], {}, {}, {}, 0);
      handles, adds, subs, held, calls, pending := map[], 0, 0, map[], [], map[];
    }

    /** `acquire_module`. The lease goes to the caller, who must be named as its owner. */
    method AcquireModule(id: ModuleId, ghost owner: Owner) returns (r: Option<Lease>)
      requires Owned(ctx, handles, held)
      modifies this`ctx, this`held
      ensures Owned(ctx, handles, held) && ctx.order == old(ctx.order)
      ensures r.Some? <==> id in old(ctx.linkMap)
      ensures r.None? ==> ctx == old(ctx) && held == old(held)
      ensures r.Some? ==> r.value !in old(ctx.outstanding) && r.value !in old(held)
      ensures r.Some? ==> (ctx, r.value) == Acquire(old(ctx), id) && held == old(held)[r.value := owner]
    {
      if id !in ctx.linkMap { return None; }
      hide Owned, Recalls;
      AcquireKeeps(ctx, handles, held, id, owner);
      var (c, l) := Acquire(ctx, id);
      ctx := c;
      held := held[l := owner];
      r := Some(l);
    }

    /** `open_module`, as a Rust handle. */
    method OpenModule(id: ModuleId) returns (r: Option<Opened>)
      requires Valid()
      modifies this`ctx, this`held
      ensures Valid()
      ensures r.Some? <==> id in old(ctx.linkMap)
      ensures r.None? ==> ctx == old(ctx) && held == old(held)
      ensures r.Some? ==>
                && (ctx, r.value.lease) == Acquire(old(ctx), id) && held == old(held)[r.value.lease := RustHandle]
                && r.value.linkMap == old(ctx.linkMap[id]) && r.value.lease !in old(held)
    {
      hide Owned, Recalls;
      if id !in ctx.linkMap { return None; }
      var linkMap := ctx.linkMap[id];
      var lease := AcquireModule(id, RustHandle);
      r := Some(Opened(lease.value, linkMap));
    }

    /** `promote`: flags only grow, and NODELETE pins the module the first time it is set. */
    method Promote(id: ModuleId, flags: set<Flag>)
      requires Valid() && id in ctx.meta && id in ctx.linkMap
      modifies this`ctx
      ensures Valid()
      ensures ctx == Promoted(old(ctx), id, flags * {GLOBAL, NODELETE})
    {
      hide Owned, Recalls;
      var promotable := flags * {GLOBAL, NODELETE};
      var pin := NODELETE in promotable && NODELETE !in ctx.meta[id];
      PromoteKeepsAll(ctx, handles, held, id, promotable);
      ctx := ctx.(meta := ctx.meta[id := ctx.meta[id] + promotable]);
      if GLOBAL in promotable {
        ctx := PromoteGlobal(ctx, id);
      }
      if pin {
        var (c, l) := Acquire(ctx, id);
        ctx := Pin(c, l);
      }
    }

    /** `open_existing`, given the module the key names. */
    method OpenExisting(named: Option<ModuleId>, flags: set<Flag>) returns (r: Option<Opened>)
      requires Valid() && (named.Some? ==> named.value in ctx.meta && named.value in ctx.linkMap)
      modifies this`ctx, this`held
      ensures Valid()
      ensures r.Some? <==> named.Some?
      ensures named.None? ==> ctx == old(ctx) && held == old(held)
      ensures r.Some? ==>
                && r.value.lease.id == named.value && r.value.linkMap == old(ctx.linkMap[named.value])
                && r.value.lease !in old(held) && held == old(held)[r.value.lease := RustHandle]
                && (ctx, r.value.lease)
                == Acquire(Promoted(old(ctx), named.value, flags * {GLOBAL, NODELETE}), named.value)
                && ctx.meta == old(ctx.meta)[named.value := old(ctx.meta[named.value]) + flags * {GLOBAL, NODELETE}]
                && ctx.globals == old(ctx.globals) + (if GLOBAL in flags then {named.value} else {})
    {
      if named.None? { return None; }
      hide Owned, Recalls;
      PromoteKeepsAll(ctx, handles, held, named.value, flags * {GLOBAL, NODELETE});
      Promote(named.value, flags);
      hide Promoted;
      r := OpenModule(named.value);
    }

    /** `register_handle`: the handle is the address of the library's link map. */
    method RegisterHandle(library: Opened) returns (handle: usize)
      requires Valid() && library.lease in held && held[library.lease] == RustHandle
      requires library.lease.id in ctx.linkMap && ctx.linkMap[library.lease.id] == library.linkMap
      modifies this`handles, this`held, this`calls
      ensures Valid()
      ensures handle == library.linkMap && handles == Registered(old(handles), library)
      ensures held == old(held) - {library.lease} && calls == old(calls) + [Open(handle, library)]
    {
      handle := library.linkMap;
      hide Owned, Recalls;
      RegisterKeeps(ctx, handles, held, library);
      RegisterRecalls(handles, calls, library);
      if handle !in handles {
        handles := handles[handle := HandleState(library, [])];
      } else {
        var s := handles[handle];
        handles := handles[handle := s.(extraLeases := s.extraLeases + [library.lease])];
      }
      held := held - {library.lease};
      calls := calls + [Open(handle, library)];
    }

    /** `release`: the linker unloads what it will, out of what nobody holds any more. */
    method ReleaseLease(lease: Lease, unloads: set<ModuleId>)
      requires lease in ctx.outstanding && Unloadable(ctx, lease, unloads)
      modifies this`ctx, this`subs
      ensures ctx == Release(old(ctx), lease, unloads) && subs == old(subs) + |unloads|
    {
      ctx := Release(ctx, lease, unloads);
      subs := subs + |unloads|;
    }

    /** Whatever calls came before, a handle is good exactly while it has been opened more often than it has been
        validly closed. */
    lemma HandleGoodExactly(h: usize)
      requires Valid()
      ensures h in handles <==> Net(calls, h) > 0
      ensures Net(calls, h) >= 0
    {
      hide Owned;
      assert Net(calls, h) == Depth(handles, h);
    }

    /** `release_handle`. Exactly one lease on the handle's module goes; an unknown handle changes nothing. */
    method ReleaseHandle(handle: usize, unloads: set<ModuleId>) returns (valid: bool)
      requires Valid()
      requires handle in handles ==> Unloadable(ctx, GivenUp(handles[handle]), unloads)
      modifies this`ctx, this`handles, this`subs, this`calls
      ensures Valid()
      ensures valid <==> handle in old(handles)
      ensures valid <==> Net(old(calls), handle) > 0
      ensures !valid ==> ctx == old(ctx) && handles == old(handles) && subs == old(subs)
      ensures valid ==>
                && handles == Closed(old(handles), handle) && subs == old(subs) + |unloads|
                && ctx == Release(old(ctx), GivenUp(old(handles)[handle]), unloads)
      ensures calls == old(calls) + [Close(handle, valid)]
    {
      hide Owned, Recalls, Release, Unloadable, GivenUp, Net;
      HandleGoodExactly(handle);
      valid := handle in handles;
      calls := calls + [Close(handle, valid)];
      if !valid {
        InvalidCloseRecalls(handles, old(calls), handle);
        return;
      }
      CloseKeeps(ctx, handles, held, handle, unloads);
      CloseRecalls(handles, old(calls), handle);
      GivenUpOutstanding(ctx, handles, held, handle);
      var s := handles[handle];
      var lease := GivenUp(s);
      if s.extraLeases != [] {
        handles := handles[handle := s.(extraLeases := s.extraLeases[..|s.extraLeases| - 1])];
      } else {
        handles := handles - {handle};
      }
      ReleaseLease(lease, unloads);
    }

    /** `Drop for ModuleLease`, by a Rust handle or a snapshot. */
    method DropLease(lease: Lease, unloads: set<ModuleId>)
      requires Valid() && lease in held && !held[lease].Destructor? && Unloadable(ctx, lease, unloads)
      modifies this`ctx, this`subs, this`held
      ensures Valid()
      ensures held == old(held) - {lease} && subs == old(subs) + |unloads|
      ensures ctx == Release(old(ctx), lease, unloads)
    {
      hide Owned, Recalls, Release, Unloadable;
      DropKeeps(ctx, handles, held, lease, unloads);
      HeldOutstanding(ctx, handles, held, lease);
      held := held - {lease};
      ReleaseLease(lease, unloads);
    }

    /** `library_snapshot`: one lease for every native module, in load order. */
    method LibrarySnapshot(native: set<ModuleId>) returns (snapshots: seq<Lease>)
      requires Valid()
      modifies this`ctx, this`held
      ensures Valid()
      ensures Ids(snapshots) == NativeIn(ctx.order, native)
      ensures ctx.order == old(ctx.order)
      ensures SnapshotsTaken(old(ctx), old(held), ctx, held, snapshots)
    {
      hide Owned, Recalls, SnapshotsTaken;
      var modules := ctx.order;
      snapshots := [];
      SnapshotsNone(ctx, held);
      OrderCommitted(ctx, handles, held);
      ghost var c, h := ctx, held;
      for i := 0 to |modules|
        invariant Valid()
        invariant ctx.order == modules && ctx.linkMap == c.linkMap
        invariant Ids(snapshots) == NativeIn(modules[..i], native)
        invariant SnapshotsTaken(c, h, ctx, held, snapshots)
      {
        assert modules[..i + 1][..i] == modules[..i];
        if modules[i] !in native { continue; }
        ghost var d, g := ctx, held;
        var lease := AcquireModule(modules[i], Snapshot);
        SnapshotsStep(c, h, d, g, modules[i], snapshots);
        snapshots := snapshots + [lease.value];
      }
      assert modules[..|modules|] == modules;
    }

    /** `open_load`, after the linker has committed the new modules and acquired the root, which may be one of
        them or older. */
    method OpenLoad(modules: seq<Module>, root: ModuleId, flags: set<Flag>) returns (library: Opened)
      requires Valid() && AllUnused(ctx, modules)
      requires root in ctx.linkMap || exists m :: m in modules && m.id == root
      modifies this`ctx, this`held, this`adds
      ensures Valid()
      ensures adds == old(adds) + |modules|
      ensures library.lease !in old(held) && held == old(held)[library.lease := RustHandle]
      ensures Loaded(old(ctx), ctx, modules, root, flags, library)
    {
      hide Owned, Recalls, AllUnused, Committed, Flagged, WithFlags, WithFlagsAll, Loaded, PendingOk;
      ghost var before := ctx;
      assert before.pins <= before.outstanding by { OwnedContext(before, handles, held); }
      CommitAllKeeps(ctx, handles, held, modules);
      CommittedIds(ctx, CommitAll(ctx, modules), modules, root);
      ctx := CommitAll(ctx, modules);
      ghost var committed := ctx;
      PendingElsewhere(held, pending, Acquire(ctx, root).1, RustHandle);
      var lease := AcquireModule(root, RustHandle);
      ghost var acquired := ctx;
      assert acquired.meta == committed.meta && acquired.order == committed.order;
      FlagsAllNone(acquired, modules, flags);
      ghost var held' := held;
      for i := 0 to |modules|
        invariant ctx == WithFlagsAll(acquired, modules[..i], flags) && adds == old(adds) + i
        invariant held == held'
      {
        var id := modules[i].id;
        assert forall m :: m in modules[..i] ==> m in modules;
        FlagsAllKeep(acquired, handles, held, modules[..i], flags);
        NextUnflagged(before, committed, acquired, ctx, modules, i, flags);
        FlagsAllStep(acquired, modules, i, flags);
        adds := adds + 1;
        ctx := ctx.(meta := ctx.meta[id := flags]);
        if NODELETE in flags {
          var (c, l) := Acquire(ctx, id);
          ctx := Pin(c, l);
        }
      }
      assert modules[..|modules|] == modules;
      FlagsAllKeep(acquired, handles, held, modules, flags);
      OwnedPinned(ctx, handles, held);
      LoadedFacts(before, committed, acquired, ctx, modules, root, flags, lease.value);
      FlaggedFields(acquired, ctx, modules, flags);
      if GLOBAL in flags {
        PromoteKeeps(ctx, handles, held, root);
        ctx := PromoteGlobal(ctx, root);
      }
      library := Opened(lease.value, ctx.linkMap[root]);
    }

    /** `register_loaded`: an object that was there before the linker is committed, counted and pinned for good. */
    method RegisterLoaded(m: Module, flags: set<Flag>, nameIsEmpty: bool)
      requires Valid() && Unused(ctx, m)
      modifies this`ctx, this`adds
      ensures Valid()
      ensures adds == old(adds) + 1 && ctx.order == old(ctx.order) + [m.id]
      ensures ctx.linkMap == old(ctx.linkMap)[m.id := m.linkMap] && ctx.meta == old(ctx.meta)[m.id := flags]
      ensures ctx.globals == old(ctx.globals) + (if GLOBAL in flags || nameIsEmpty then {m.id} else {})
      ensures exists l :: ctx.pins == old(ctx.pins) + {l} && l.id == m.id && l !in old(ctx.outstanding)
    {
      hide Owned, Recalls, Unused, PendingOk;
      CommitKeeps(ctx, handles, held, m);
      ctx := Commit(ctx, m);
      PreloadKeeps(ctx, handles, held, m.id, flags, GLOBAL in flags || nameIsEmpty);
      FreshAcquisition(ctx, handles, held, m.id);
      ctx := ctx.(meta := ctx.meta[m.id := flags]);
      var (d, lease) := Acquire(ctx, m.id);
      ctx := d;
      adds := adds + 1;
      if GLOBAL in flags || nameIsEmpty {
        ctx := PromoteGlobal(ctx, m.id);
      }
      ctx := Pin(ctx, lease);
      assert ctx.pins == old(ctx.pins) + {lease};
    }

    /** `register_thread_destructor`, for the module found at the destructor's address, if any. When the C
        library refuses it, its lease goes back. */
    method RegisterThreadDestructor(func: usize, arg: usize, at: Option<ModuleId>, raw: nat, refused: bool,
                                    unloads: set<ModuleId>)
      requires Valid() && raw !in pending && (at.Some? ==> at.value in ctx.linkMap)
      requires at.Some? && refused ==>
                 Unloadable(Acquire(ctx, at.value).0, Acquire(ctx, at.value).1, unloads)
      modifies this`ctx, this`subs, this`held, this`pending
      ensures Valid()
      ensures refused ==> pending == old(pending) && held == old(held) && ctx.outstanding == old(ctx.outstanding)
      ensures at.None? ==> ctx == old(ctx)
      ensures at.Some? && !refused ==> ctx == Acquire(old(ctx), at.value).0
      ensures at.Some? && refused ==>
                ctx == Release(Acquire(old(ctx), at.value).0, Acquire(old(ctx), at.value).1, unloads)
      ensures !refused ==>
                && raw in pending && pending == old(pending)[raw := pending[raw]]
                && pending[raw].func == func && pending[raw].arg == arg
                && (pending[raw].lease.Some? <==> at.Some?)
                && (at.Some? ==> pending[raw].lease.value.id == at.value
                                 && held == old(held)[pending[raw].lease.value := Destructor(raw)])
    {
      hide Owned, Recalls, Unloadable, PendingOk;
      ghost var before, beforeCtx := held, ctx;
      var lease: Option<Lease> := None;
      if at.Some? {
        lease := AcquireModule(at.value, Destructor(raw));
      }
      var destructor := ThreadDestructor(func, arg, lease);
      if !refused {
        PendingAdds(before, pending, raw, destructor);
        pending := pending[raw := destructor];
      } else if lease.Some? {
        DropKeeps(ctx, handles, held, lease.value, unloads);
        HeldOutstanding(ctx, handles, held, lease.value);
        held := held - {lease.value};
        assert held == before;
        ReleaseLease(lease.value, unloads);
      }
    }

    /** `run_thread_destructor`: the lease is given back after the destructor has run, and only its own. */
    method RunThreadDestructor(raw: nat, unloads: set<ModuleId>) returns (destructor: ThreadDestructor)
      requires Valid() && raw in pending
      requires pending[raw].lease.Some? ==> Unloadable(ctx, pending[raw].lease.value, unloads)
      modifies this`ctx, this`subs, this`held, this`pending
      ensures Valid()
      ensures destructor == old(pending)[raw] && pending == old(pending) - {raw}
      ensures destructor.lease.None? ==> held == old(held) && ctx == old(ctx)
      ensures destructor.lease.Some? ==>
                && destructor.lease.value.id in old(ctx.linkMap)
                && held == old(held) - {destructor.lease.value}
                && ctx == Release(old(ctx), destructor.lease.value, unloads)
    {
      hide Owned, Recalls, Unloadable, Release, PendingOk;
      PendingLeaves(held, pending, raw);
      destructor := pending[raw];
      pending := pending - {raw};
      if destructor.lease.Some? {
        DropKeeps(ctx, handles, held, destructor.lease.value, unloads);
        HeldOutstanding(ctx, handles, held, destructor.lease.value);
        held := held - {destructor.lease.value};
        ReleaseLease(destructor.lease.value, unloads);
      }
    }
  }
}

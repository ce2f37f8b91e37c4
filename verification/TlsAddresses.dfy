/** What the address of a static module leads to, thread by thread. */
module TlsAddresses {
  import opened Bytes
  import opened Usize
  import opened TlsLayout
  import opened TlsState
  import opened TlsInvariant
  import opened TlsRegister
  import opened TlsPublish
  import opened TlsSlots
  import opened TlsThreads
  import opened TlsRuns
  import opened TlsTheorems
  import opened TlsRoom

  /** In this thread the module's address is its own place below the thread pointer, and the block there is its
      image followed by zeros. */
  ghost predicate Serves(s: Tls, tp: nat, m: StaticModule) {
    && ThreadOk(s, tp) && SourcesFit(s) && tp in s.storage && HasImage(m)
    && Holds(s.storage[tp].below, m.offset, m.source.value.bytes, m.info.memsz)
    && (forall tiOffset: nat, ptr: nat :: GetAddr(s, tp, m.id, tiOffset, ptr) == (s, tp + m.offset + tiOffset))
  }

  /** A lookup of a live static module is never refused and changes nothing; what it is worth is decided by the
      bytes. */
  lemma ServesExactly(s: Tls, tp: nat, m: StaticModule)
    requires Inv(s) && tp in s.storage && m in s.statics
    ensures Serves(s, tp, m) <==>
            HasImage(m) && Holds(s.storage[tp].below, m.offset, m.source.value.bytes, m.info.memsz)
    ensures ThreadOk(s, tp) && SourcesFit(s)
    ensures forall tiOffset: nat, ptr: nat :: GetAddr(s, tp, m.id, tiOffset, ptr) == (s, tp + m.offset + tiOffset)
  {
    hide DtvLinks, BlocksOk, AllocationsOk, LayoutOk, ArenaOk, ContentsOk, Holds;
    assert Lookup(s, m.id) == Some(Static(m.info, m.offset));
  }

  // ----- The initial thread -----

  /** The initial thread serves every published placed module, whenever it was published. */
  lemma InitialThreadServes(s: Tls, m: StaticModule)
    requires Inv(s) && s.area.Some? && m in s.statics && IsPlaced(s, m.id) && HasImage(m)
    ensures Serves(s, s.area.value.tp, m)
  {
    HeldByArena(s, m);
    ServesExactly(s, s.area.value.tp, m);
    hide Inv, Serves, Holds;
  }

  lemma HeldByArena(s: Tls, m: StaticModule)
    requires Inv(s) && s.area.Some? && m in s.statics && IsPlaced(s, m.id) && HasImage(m)
    ensures s.area.value.tp in s.storage
    ensures Holds(s.storage[s.area.value.tp].below, m.offset, m.source.value.bytes, m.info.memsz)
  {
    hide MemoryOk, TablesOk, Holds;
    assert PublishedHolds(s.storage[s.area.value.tp].below, m);
  }

  // ----- Threads that start -----

  lemma ServesFromHeld(s: Tls, t: Tls, tp: nat, m: StaticModule)
    requires Inv(t) && tp in t.storage && m in t.statics && HasImage(m) && IsPlaced(s, m.id)
    requires t.statics == s.statics && AllHeld(s, s.statics, t.storage[tp].below)
    ensures Serves(t, tp, m)
  {
    ServesExactly(t, tp, m);
    hide Inv, Serves, Holds;
    assert PublishedHolds(t.storage[tp].below, m);
  }

  /** A thread serves every placed module that was published when the thread was initialised. */
  lemma StartedThreadServes(s: Tls, tp: nat, dtv: nat, m: StaticModule)
    requires Inv(s) && InitEnabled(s, tp, dtv) && m in s.statics && IsPlaced(s, m.id) && HasImage(m) && s.area.Some?
    ensures Serves(StepInit(s, tp, dtv), tp, m)
  {
    InitWrites(s, tp, dtv);
    hide Inv, InitEnabled, Init, RoomFor, Serves, AllHeld, RseqHolds, SlotsFrom;
    ServesFromHeld(s, StepInit(s, tp, dtv), tp, m);
  }

  /** The same for a thread whose storage the runtime lays out itself. */
  lemma NewThreadServes(s: Tls, base: nat, dtv: nat, layout: Layout, size: usize, m: StaticModule)
    requires Inv(s) && Enabled(s, OpAllocate(base, dtv)) && StorageLayout(s) == Some((layout, size))
    requires m in s.statics && IsPlaced(s, m.id) && HasImage(m) && s.area.Some?
    ensures Serves(StepAllocate(s, base, dtv), base + size, m)
  {
    hide Inv, Enabled, StorageLayout, StepAllocate, Serves, AllHeld, RseqHolds, SlotsFrom, LaidOut;
    NewThreadContents(s, base, dtv, base + size, size);
    AllocatedSize(s, base, dtv);
    LaidOutStatics(s, StepAllocate(s, base, dtv), base, layout, size);
    ServesFromHeld(s, StepAllocate(s, base, dtv), base + size, m);
  }

  lemma LaidOutStatics(s: Tls, t: Tls, base: nat, layout: Layout, size: nat)
    requires LaidOut(s, t, base, layout, size)
    ensures t.statics == s.statics
  {
  }

  // ----- Onward -----

  /** A served module stays served under every operation that neither publishes nor unregisters it, nor takes the
      thread's storage away. */
  lemma StepServes(s: Tls, op: Op, tp: nat, m: StaticModule)
    requires Inv(s) && Enabled(s, op) && Serves(s, tp, m) && m in s.statics && IsPlaced(s, m.id) && s.area.Some?
    requires LeavesModule(op, m.id) && !Withdraws(op, tp)
    ensures Serves(Step(s, op), tp, m) && m in Step(s, op).statics && IsPlaced(Step(s, op), m.id)
    ensures Step(s, op).area.Some?
  {
    StepKeepsModule(s, op, m);
    StepKeepsStorage(s, op, tp);
    var t := Step(s, op);
    ServesExactly(s, tp, m);
    ServesExactly(t, tp, m);
    if s.area.value.tp == tp {
      InitialThreadServes(t, m);
    } else if op.OpInit? && op.tp == tp {
      InitIsStep(s, op);
      StartedThreadServes(s, tp, op.dtv, m);
    }
    hide Inv, Enabled, Step, Serves, Holds, IsPlaced;
  }

  lemma InitIsStep(s: Tls, op: Op)
    requires Inv(s) && Enabled(s, op) && op.OpInit?
    ensures InitEnabled(s, op.tp, op.dtv) && Step(s, op) == StepInit(s, op.tp, op.dtv)
  {
    hide Inv, InitEnabled, StepInit;
  }

  /** Whichever way a thread came to serve a module, it serves it at the end of every run that leaves the module
      published as it is and the thread's storage in place. */
  lemma {:induction false} RunServes(s: Tls, ops: seq<Op>, tp: nat, m: StaticModule)
    requires Inv(s) && RunOk(s, ops) && Serves(s, tp, m) && m in s.statics && IsPlaced(s, m.id) && s.area.Some?
    requires forall op :: op in ops ==> LeavesModule(op, m.id) && !Withdraws(op, tp)
    ensures Serves(Run(s, ops), tp, m)
    decreases |ops|
  {
    hide Inv, Enabled, Step, Serves, IsPlaced;
    if ops != [] {
      assert ops[0] in ops;
      StepServes(s, ops[0], tp, m);
      RunServes(Step(s, ops[0]), ops[1..], tp, m);
    }
  }

  // ----- Threads that started before -----

  /** Publishing writes the initial thread only: a thread that started earlier serves the module afterwards exactly
      if the image happens to be there already, that is if its bytes were the image followed by zeros before. */
  lemma LatePublicationExactly(s: Tls, source: Source, id: nat, tp: nat, m: StaticModule)
    requires Inv(s) && PublishOk(s, source, id) && source.Image? && s.area.Some?
    requires Lookup(s, id) == Some(Static(m.info, m.offset)) && m == StaticModule(id, m.info, Some(source), m.offset)
    requires tp in s.storage && tp != s.area.value.tp
    ensures var t := StepPublish(s, source, id);
            && tp in t.storage && t.storage[tp].below == s.storage[tp].below
            && (Serves(t, tp, m) <==> Holds(s.storage[tp].below, m.offset, source.bytes, m.info.memsz))
  {
    PublishStorage(s, source, id, tp);
    PublishedListed(s, source, id, m);
    ServesExactly(StepPublish(s, source, id), tp, m);
    hide Inv, PublishOk, StepPublish, Serves, Holds;
  }

  lemma PublishedListed(s: Tls, source: Source, id: nat, m: StaticModule)
    requires Inv(s) && PublishOk(s, source, id)
    requires Lookup(s, id) == Some(Static(m.info, m.offset)) && m == StaticModule(id, m.info, Some(source), m.offset)
    ensures m in StepPublish(s, source, id).statics
  {
    PublishKeeps(s, source, id);
    hide Inv, PublishOk, Publish;
  }

  /** It does happen: in a thread laid out before the module was registered, the address lies below the storage. */
  lemma AddressOutside(ptr: nat) returns (s: Tls, m: StaticModule)
    ensures Reachable(s) && Inv(s) && m in s.statics && IsPlaced(s, m.id) && HasImage(m)
    ensures EARLY_TP in s.storage && !Serves(s, EARLY_TP, m)
    ensures ThreadOk(s, EARLY_TP) && SourcesFit(s)
    ensures exists a :: a in s.allocations && a.tp == EARLY_TP && a.base == EARLY_BASE
    ensures GetAddr(s, EARLY_TP, m.id, 0, ptr).1 < EARLY_BASE
  {
    hide Inv, Enabled, Reachable, Step, StepPublish, PublishOk, Serves, IsPlaced, RseqDistance;
    var source := Image([1]);
    m := StaticModule(1, LATE_MODULE, Some(source), -4096);
    var s1 := RoomIsLost();
    LatePublishOk(s1, source);
    ReachableStep(s1, OpPublish(source, 1));
    LatePublicationExactly(s1, source, 1, EARLY_TP, m);
    PublishedListed(s1, source, 1, m);
    s := StepPublish(s1, source, 1);
    PublishFrame(s1, source, 1);
    ServesExactly(s, EARLY_TP, m);
  }

  lemma LatePublishOk(s: Tls, source: Source)
    requires Inv(s) && TooSmall(s, EARLY_TP, EARLY_BASE, 1) && source == Image([1])
    ensures PublishOk(s, source, 1) && Enabled(s, OpPublish(source, 1))
    ensures Step(s, OpPublish(source, 1)) == StepPublish(s, source, 1)
  {
    hide Inv, StepPublish, RseqDistance;
  }

  lemma PublishFrame(s: Tls, source: Source, id: nat)
    requires Inv(s) && PublishOk(s, source, id)
    ensures StepPublish(s, source, id).allocations == s.allocations
    ensures IsPlaced(s, id) ==> IsPlaced(StepPublish(s, source, id), id)
  {
    PublishInitOk(s, source, id);
    PublishTables(s, source, id);
    hide Inv, PublishOk;
  }
}

/** Lookups that hand out nothing: blocks lost before publication, and modules past the last DTV entry. */
module TlsLookups {
  import opened Bytes
  import opened Usize
  import opened TlsState
  import opened TlsInvariant
  import opened TlsLayout
  import opened TlsRegister
  import opened TlsPublish
  import opened TlsThreads
  import opened TlsRuns
  import opened TlsTheorems

  // ----- Modules past the last DTV entry -----

  /** A dynamic module whose id is past the DTV's entries has no address in any thread. */
  lemma NoEntryNoAddress(s: Tls, tp: nat, id: nat, tiOffset: nat, ptr: nat)
    requires Inv(s) && (tp != 0 ==> tp in s.storage) && PtrFresh(s, ptr) && id > DTV_SLOT_COUNT
    requires Lookup(s, id).Some? ==> Lookup(s, id).value.Dynamic?
    ensures var (t, r) := GetAddr(s, tp, id, tiOffset, ptr);
            r == 0 && t.dtvs == s.dtvs && t.records == s.records
  {
    hide TablesAgree, LayoutOk, ArenaOk, ContentsOk, BlocksOk, AllocationsOk, EntriesOk, DynamicLayout;
  }

  /** A published dynamic module has an address in an initialised thread exactly when its id is at most the number
      of DTV entries. */
  lemma AddressExactly(s: Tls, tp: nat, id: nat, info: TlsInfo, image: seq<byte>, tiOffset: nat, ptr: nat)
    requires Inv(s) && tp in s.storage && s.storage[tp].tcb.dtv != 0 && PtrFresh(s, ptr)
    requires Lookup(s, id) == Some(Dynamic(info, Some(Image(image)))) && DynamicLayout(info).Some?
    ensures GetAddr(s, tp, id, tiOffset, ptr).1 != 0 <==> id <= DTV_SLOT_COUNT
  {
    GetAddrDynamic(s, tp, id, tiOffset, ptr);
    EntryInBounds(s, tp, id);
    hide MemoryOk, TablesOk, ArenaOk, ContentsOk, DtvIndex, DynamicLayout, GetAddr;
  }

  lemma EntryInBounds(s: Tls, tp: nat, id: nat)
    requires Inv(s) && tp in s.storage && s.storage[tp].tcb.dtv != 0 && id >= 1
    ensures DtvIndex(s, tp, id).Some? <==> id <= DTV_SLOT_COUNT
    ensures DtvValue(s, tp, id).Some? ==> DtvIndex(s, tp, id).Some?
  {
    hide TablesOk, ArenaOk, ContentsOk, DtvLinks, BlocksOk, AllocationsOk;
  }

  /** Ids are not reused and the DTV does not grow: once as many modules have been registered as a DTV has
      entries, whether or not they are still there, no dynamic module registered later in the run ever
      has an address, in any thread and at any later time. */
  lemma LateModulesHaveNoAddress(s: Tls, ops: seq<Op>, info: TlsInfo, grant: Grant, more: seq<Op>,
                                 tp: nat, tiOffset: nat, ptr: nat)
    requires Inv(s) && RunOk(s, ops) && |s.modules| >= DTV_SLOT_COUNT
    requires Register(Run(s, ops), info, RequestDynamic, grant).1.Ok?
    requires Inv(Run(s, ops)) && Enabled(Run(s, ops), OpRegister(info, RequestDynamic, grant))
    requires RunOk(Step(Run(s, ops), OpRegister(info, RequestDynamic, grant)), more)
    requires var u := Run(Step(Run(s, ops), OpRegister(info, RequestDynamic, grant)), more);
             (tp != 0 ==> tp in u.storage) && PtrFresh(u, ptr)
    ensures var id := Register(Run(s, ops), info, RequestDynamic, grant).1.value;
            var u := Run(Step(Run(s, ops), OpRegister(info, RequestDynamic, grant)), more);
            Inv(u) && GetAddr(u, tp, id, tiOffset, ptr).1 == 0
  {
    var id := Register(Run(s, ops), info, RequestDynamic, grant).1.value;
    var t := Step(Run(s, ops), OpRegister(info, RequestDynamic, grant));
    var u := Run(t, more);
    IdsNeverReused(s, ops, info, RequestDynamic, grant);
    RegisterReturnsNext(Run(s, ops), info, RequestDynamic, grant);
    RegisteredDynamic(Run(s, ops), info, grant);
    RunTableGrows(t, more);
    assert SameKind(t, u, id);
    hide Inv, RunOk, Run, Step, Register, GetAddr;
    NoEntryNoAddress(u, tp, id, tiOffset, ptr);
  }

  lemma RegisteredDynamic(s: Tls, info: TlsInfo, grant: Grant)
    requires Register(s, info, RequestDynamic, grant).1.Ok?
    ensures var (t, r) := Register(s, info, RequestDynamic, grant);
            && Lookup(t, r.value) == Some(Dynamic(info, None)) && r.value == |s.modules| + 1 == |t.modules|
            && t.storage == s.storage && t.dtvs == s.dtvs && t.blocks == s.blocks && t.records == s.records
  {
  }

  // ----- Blocks lost before publication -----

  /** In every reachable state, registering a dynamic module with a representable layout and looking it up
      before it is published loses a block, in any thread. */
  lemma LookupBeforePublishLeaks(s: Tls, info: TlsInfo, grant: Grant, tp: nat, tiOffset: nat, ptr: nat)
    requires Reachable(s) && tp in s.storage && DynamicLayout(info).Some?
    requires Register(s, info, RequestDynamic, grant).1.Ok? && PtrFresh(s, ptr)
    ensures Inv(s) && Enabled(s, OpRegister(info, RequestDynamic, grant))
    ensures var t := Step(s, OpRegister(info, RequestDynamic, grant));
            var (u, r) := GetAddr(t, tp, |t.modules|, tiOffset, ptr);
            Reachable(t) && r == 0 && Leaked(u) == Leaked(t) + {ptr} && ptr !in Leaked(t)
  {
    ReachableInv(s);
    assert Enabled(s, OpRegister(info, RequestDynamic, grant));
    RegisteredDynamic(s, info, grant);
    NoEntryYet(s, Register(s, info, RequestDynamic, grant).0, tp, |s.modules| + 1);
    hide Inv, Reachable, Register, GetAddr, DynamicLayout, DtvsOk, DtvValue, Leaked, Enabled;
    ReachableStep(s, OpRegister(info, RequestDynamic, grant));
    var t := Step(s, OpRegister(info, RequestDynamic, grant));
    FirstLookupLeaks(t, tp, |t.modules|, info, tiOffset, ptr);
  }

  /** The lookup allocates and then finds no image. */
  lemma FirstLookupLeaks(t: Tls, tp: nat, id: nat, info: TlsInfo, tiOffset: nat, ptr: nat)
    requires Inv(t) && tp in t.storage && PtrFresh(t, ptr) && DynamicLayout(info).Some?
    requires Lookup(t, id) == Some(Dynamic(info, None)) && DtvsOk(t) && DtvValue(t, tp, id).None?
    ensures var (u, r) := GetAddr(t, tp, id, tiOffset, ptr);
            r == 0 && Leaked(u) == Leaked(t) + {ptr} && ptr !in Leaked(t)
  {
    RecordsLive(t);
    hide DtvLinks, BlocksOk, AllocationsOk, TablesOk, ArenaOk, ContentsOk, DynamicLayout, DtvValue, DtvsOk;
    var u := GetAddr(t, tp, id, tiOffset, ptr).0;
    assert u.blocks.Keys == t.blocks.Keys + {ptr} && u.records == t.records;
  }

  lemma RecordsLive(s: Tls)
    requires Inv(s)
    ensures SourcesFit(s) && forall r :: r in s.records ==> r.ptr in s.blocks
    ensures forall tp :: tp in s.storage ==> tp != 0
  {
    hide DtvLinks, AllocationsOk, ArenaOk, ContentsOk;
  }

  lemma NoEntryYet(s: Tls, t: Tls, tp: nat, id: nat)
    requires Inv(s) && tp in s.storage && id > |s.modules| && t.storage == s.storage && t.dtvs == s.dtvs
    ensures DtvsOk(t) && DtvValue(t, tp, id).None?
  {
    assert EntriesOk(s, tp);
    var i := DtvIndex(s, tp, id);
    if i.Some? { assert EntryOk(s, tp, id, s.dtvs[s.storage[tp].tcb.dtv][i.value]); }
  }

  /** A thread whose storage was supplied and initialised, before any module. */
  lemma ThreadReachable(tp: nat, dtv: nat) returns (s: Tls)
    requires tp != 0 && dtv != 0
    ensures Reachable(s) && tp in s.storage && s.modules == [] && s.blocks == map[] && s.storage[tp].tcb.dtv != 0
  {
    hide Inv, Reachable, InitEnabled, StepInit;
    var s1 := SupplyReachable(tp);
    InitOfSupplied(s1, tp, dtv);
    ReachableStep(s1, OpInit(tp, dtv));
    s := Step(s1, OpInit(tp, dtv));
  }

  lemma InitOfSupplied(s: Tls, tp: nat, dtv: nat)
    requires Inv(s) && dtv != 0
    requires s == INITIAL.(storage := map[tp := Storage(Zeros(STATIC_TLS_ARENA_SIZE), Tcb(0, 0, 0, 0, 0))])
    ensures InitEnabled(s, tp, dtv)
    ensures var t := StepInit(s, tp, dtv);
            tp in t.storage && t.modules == [] && t.blocks == map[] && t.storage[tp].tcb.dtv != 0
  {
    hide Inv;
    EmptyLayout();
    assert InitEnabled(s, tp, dtv);
    InitWrites(s, tp, dtv);
    hide Init, InitEnabled;
  }

  lemma SupplyReachable(tp: nat) returns (s: Tls)
    requires tp != 0
    ensures Reachable(s) && Inv(s)
    ensures s == INITIAL.(storage := map[tp := Storage(Zeros(STATIC_TLS_ARENA_SIZE), Tcb(0, 0, 0, 0, 0))])
  {
    hide Inv;
    InitialReachable();
    hide Reachable, RunOk, Run;
    var supply := OpSupply(tp, Storage(Zeros(STATIC_TLS_ARENA_SIZE), Tcb(0, 0, 0, 0, 0)));
    ReachableStep(INITIAL, supply);
    s := Step(INITIAL, supply);
  }

  const ONE_BYTE: TlsInfo := TlsInfo(1, 0, 1)

  lemma OneByteLayout()
    ensures DynamicLayout(ONE_BYTE).Some?
  {
    assert Pow2(0) == 1;
    NextPow2OfPow2(1);
  }

  /** It does happen: a thread's storage is supplied and initialised, a dynamic module of one byte is
      registered, and its first access comes before its publication. */
  lemma LeakIsReachable()
    ensures exists s, tp, id, ptr ::
              Reachable(s) && Inv(s) && tp in s.storage && PtrFresh(s, ptr)
              && GetAddr(s, tp, id, 0, ptr).1 == 0 && Leaked(GetAddr(s, tp, id, 0, ptr).0) != Leaked(s)
  {
    var info, grant := ONE_BYTE, Grant(0, 0, false);
    var s := ThreadReachable(4096, 8);
    OneByteLayout();
    var ptr := 16;
    RegisteredDynamic(s, info, grant);
    hide Inv, Reachable, Step, Leaked, DynamicLayout, GetAddr;
    LookupBeforePublishLeaks(s, info, grant, 4096, 0, ptr);
    var t := Step(s, OpRegister(info, RequestDynamic, grant));
    assert ptr in Leaked(GetAddr(t, 4096, |t.modules|, 0, ptr).0);
  }

  // ----- Any number of modules -----

  /** One initialised thread, `n` dynamic modules and nothing allocated. */
  ghost predicate Crowd(s: Tls, n: nat, tp: nat) {
    && Reachable(s) && Inv(s) && |s.modules| == n && s.blocks == map[]
    && tp in s.storage && s.storage[tp].tcb.dtv != 0
  }

  lemma {:induction false} CrowdReachable(n: nat) returns (s: Tls)
    requires n <= MAX
    ensures Crowd(s, n, 4096)
  {
    hide Inv, Reachable, Step, Enabled;
    if n == 0 {
      s := ThreadReachable(4096, 8);
      ReachableInv(s);
    } else {
      var s1 := CrowdReachable(n - 1);
      s := OneMore(s1, n - 1);
    }
  }

  lemma OneMore(s: Tls, n: nat) returns (t: Tls)
    requires Crowd(s, n, 4096) && n < MAX
    ensures Crowd(t, n + 1, 4096) && Lookup(t, n + 1) == Some(Dynamic(ONE_BYTE, None))
  {
    var grant := Grant(0, 0, false);
    RegisteredDynamic(s, ONE_BYTE, grant);
    hide Inv, Reachable;
    ReachableStep(s, OpRegister(ONE_BYTE, RequestDynamic, grant));
    t := Step(s, OpRegister(ONE_BYTE, RequestDynamic, grant));
  }

  /** It does happen: after 64 modules, one of one byte is registered and published, and has no address in an
      initialised thread. */
  lemma NoAddressIsReachable(tiOffset: nat, ptr: nat) returns (s: Tls)
    requires ptr != 0
    ensures Crowd(s, DTV_SLOT_COUNT + 1, 4096) && PtrFresh(s, ptr)
    ensures Lookup(s, DTV_SLOT_COUNT + 1) == Some(Dynamic(ONE_BYTE, Some(Image([1])))) && DynamicLayout(ONE_BYTE).Some?
    ensures ThreadOk(s, 4096) && SourcesFit(s) && GetAddr(s, 4096, DTV_SLOT_COUNT + 1, tiOffset, ptr).1 == 0
  {
    hide Inv, Reachable, Step, Enabled, DynamicLayout, GetAddr, DtvsOk;
    var source, id := Image([1]), DTV_SLOT_COUNT + 1;
    var s1 := CrowdReachable(DTV_SLOT_COUNT);
    var s2 := OneMore(s1, DTV_SLOT_COUNT);
    OneByteLayout();
    PublishOneByte(s2, source, id);
    ReachableStep(s2, OpPublish(source, id));
    s := Step(s2, OpPublish(source, id));
    RecordsLive(s);
    InvDtvs(s);
    AddressExactly(s, 4096, id, ONE_BYTE, [1], tiOffset, ptr);
  }

  lemma PublishOneByte(s: Tls, source: Source, id: nat)
    requires Inv(s) && Lookup(s, id) == Some(Dynamic(ONE_BYTE, None)) && source == Image([1])
    ensures Enabled(s, OpPublish(source, id))
    ensures Step(s, OpPublish(source, id)) == s.(modules := s.modules[id - 1 := Some(Dynamic(ONE_BYTE, Some(source)))])
  {
    PublishInitOk(s, source, id);
    PublishTables(s, source, id);
    hide MemoryOk, TablesOk, ArenaOk, ContentsOk, Publish;
  }
}

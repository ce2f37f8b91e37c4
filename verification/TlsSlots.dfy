/** What initialisation and publication write into a thread's DTV. */
module TlsSlots {
  import opened Usize
  import opened TlsInvariant
  import opened TlsState

  predicate HasImage(m: StaticModule) {
    m.source.Some? && m.source.value.Image?
  }

  /** The entry for an id: the block of the published module with that id, or unset if there is none. */
  ghost predicate SlotFrom(ms: seq<StaticModule>, tp: nat, id: nat, e: DtvEntry) {
    && (forall m :: m in ms && m.id == id && HasImage(m) ==> e == DtvEntry(tp + m.offset, 0))
    && ((forall m :: m in ms && m.id == id ==> !HasImage(m)) ==> e == DtvEntry(0, 0))
  }

  /** Every entry of the thread's DTV is the one for its id; the entry for an id stands one place after it. */
  ghost predicate SlotsFrom(s: Tls, tp: nat, ms: seq<StaticModule>) {
    && tp in s.storage && s.storage[tp].tcb.dtv in s.dtvs
    && var d := s.dtvs[s.storage[tp].tcb.dtv];
       |d| == DTV_SLOT_COUNT + 2 && d[0].first == DTV_SLOT_COUNT
       && forall i :: 2 <= i < DTV_SLOT_COUNT + 2 ==> SlotFrom(ms, tp, i - 1, d[i])
  }

  /** One entry more, for a module whose id the others do not have. */
  lemma SlotAdded(ms: seq<StaticModule>, m: StaticModule, tp: nat, id: nat, e: DtvEntry)
    requires SlotFrom(ms, tp, id, e) && DistinctIds(ms + [m])
    ensures SlotFrom(ms + [m], tp, id, if id == m.id && HasImage(m) then DtvEntry(tp + m.offset, 0) else e)
  {
    var all := ms + [m];
    assert forall x :: x in all <==> x in ms || x == m;
    forall x | x in ms
      ensures x.id != m.id
    {
      var i :| 0 <= i < |ms| && ms[i] == x;
      assert all[i] == x && all[|ms|] == m;
    }
  }

  /** What initialising one module does to the DTV. */
  lemma ModuleSlot(s: Tls, tp: nat, m: StaticModule, ms: seq<StaticModule>)
    requires DtvsOk(s) && SlotsFrom(s, tp, ms) && Writable(|s.storage[tp].below|, m)
    requires DistinctIds(ms + [m]) && m.id >= 1
    ensures SlotsFrom(InitStaticModule(s, tp, m), tp, ms + [m])
    ensures InitStaticModule(s, tp, m).storage[tp].tcb == s.storage[tp].tcb
  {
    var t := InitStaticModule(s, tp, m);
    var d := s.storage[tp].tcb.dtv;
    assert t.storage[tp].tcb == s.storage[tp].tcb;
    hide Written, Writable, SlotFrom;
    forall i | 2 <= i < DTV_SLOT_COUNT + 2
      ensures SlotFrom(ms + [m], tp, i - 1, t.dtvs[d][i])
    {
      SlotAdded(ms, m, tp, i - 1, s.dtvs[d][i]);
    }
  }

  /** From an empty DTV, the loop over the modules sets exactly the entries of the published ones. */
  lemma {:induction false} ModulesSlots(s: Tls, tp: nat, ms: seq<StaticModule>)
    requires DtvsOk(s) && SlotsFrom(s, tp, []) && DistinctIds(ms)
    requires forall i :: 0 <= i < |ms| ==> Writable(|s.storage[tp].below|, ms[i])
    requires forall i :: 0 <= i < |ms| ==> ms[i].id >= 1
    ensures SlotsFrom(InitModules(s, tp, ms), tp, ms)
    decreases |ms|
  {
    hide SlotsFrom, Writable, InitStaticModule;
    SlotsThread(s, tp, []);
    if ms != [] {
      var n := |ms| - 1;
      ModulesSlots(s, tp, ms[..n]);
      assert ms == ms[..n] + [ms[n]];
      ModuleSlot(InitModules(s, tp, ms[..n]), tp, ms[n], ms[..n]);
    }
  }

  lemma SlotsThread(s: Tls, tp: nat, ms: seq<StaticModule>)
    requires SlotsFrom(s, tp, ms)
    ensures tp in s.storage
  {
  }

  /** A new control block starts with an empty DTV. */
  lemma FreshSlots(s: Tls, tp: nat, dtv: nat)
    requires tp in s.storage
    ensures SlotsFrom(InitTcb(s, tp, dtv), tp, [])
  {
  }

  lemma RseqKeepsSlots(s: Tls, tp: nat, used: usize, ms: seq<StaticModule>)
    requires SlotsFrom(s, tp, ms) && RseqFits(|s.storage[tp].below|, used)
    ensures SlotsFrom(InitRseq(s, tp, used), tp, ms)
  {
    hide MarkRseq, SlotFrom;
  }

  /** The DTV after initialising a thread, whatever it held before. */
  lemma InitSlots(s: Tls, tp: nat, dtv: nat)
    requires RoomFor(s, tp) && DtvFresh(s, tp, dtv) && DistinctIds(s.statics)
    requires forall i :: 0 <= i < |s.statics| ==> s.statics[i].id >= 1
    ensures SlotsFrom(Init(s, tp, dtv), tp, s.statics)
  {
    var s1 := InitTcb(s, tp, dtv);
    FreshSlots(s, tp, dtv);
    InitTcbRoom(s, tp, dtv);
    hide InitTcb, SlotsFrom, DtvFresh, InitRseq, InitModules, RseqFits, Writable;
    ModulesSlots(s1, tp, s.statics);
    RseqKeepsSlots(InitModules(s1, tp, s.statics), tp, UsedInfo(s1).0, s.statics);
  }

  /** The DTV after publishing a static module: its own entry is set, if the DTV has one, and no other is
      written. */
  ghost predicate SlotPublished(s: Tls, t: Tls, tp: nat, m: StaticModule) {
    && tp in s.storage && tp in t.storage && t.storage[tp].tcb == s.storage[tp].tcb
    && var d := s.storage[tp].tcb.dtv;
       d in s.dtvs ==>
         && d in t.dtvs && |t.dtvs[d]| == |s.dtvs[d]| == DTV_SLOT_COUNT + 2
         && forall i :: 0 <= i < DTV_SLOT_COUNT + 2 ==>
              t.dtvs[d][i] == if i >= 2 && i == m.id + 1 && HasImage(m) then DtvEntry(tp + m.offset, 0)
                              else s.dtvs[d][i]
  }

  lemma PublishSlot(s: Tls, m: StaticModule)
    requires 1 <= m.id <= |s.modules| && InitStaticOk(s, m) && s.area.Some?
    ensures SlotPublished(s, InitStatic(s, m), s.area.value.tp, m)
  {
    hide Written, Writable, MarkRseq, RseqFits, Republish;
  }
}

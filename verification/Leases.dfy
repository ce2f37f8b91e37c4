/** The registry of opened libraries: who owns each acquisition of a module, and what C handles, Rust
    handles, snapshots, pins and pending thread destructors do to them. The linker's context is taken as a
    set of committed modules with outstanding acquisitions; which modules an unload removes is its choice. */
module Leases {
  import opened Sequences
  import opened Usize

  type ModuleId = nat

  datatype Flag = LAZY | NOW | GLOBAL | NODELETE | NOLOAD | DEEPBIND

  /** One acquisition of a module. Acquisitions are never confused: each has its own serial number. */
  datatype Lease = Lease(id: ModuleId, serial: nat)

  /** The linker's context: committed modules in load order, the address of each one's link map, their flags,
      the global scope, and the acquisitions not yet released, some of them pinned. */
  datatype Context = Context(
    order: seq<ModuleId>, linkMap: map<ModuleId, usize>, meta: map<ModuleId, set<Flag>>,
    globals: set<ModuleId>, outstanding: set<Lease>, pins: set<Lease>, nextSerial: nat)

  datatype Module = Module(id: ModuleId, linkMap: usize)

  /** A library with the lease that keeps it. */
  datatype Opened = Opened(lease: Lease, linkMap: usize)

  datatype HandleState = HandleState(library: Opened, extraLeases: seq<Lease>)

  /** Owners outside the handle table. */
  datatype Owner = RustHandle | Snapshot | Destructor(raw: nat)

  /** A destructor waiting for its thread to end, with the lease that keeps its code loaded. */
  datatype ThreadDestructor = ThreadDestructor(func: usize, arg: usize, lease: Option<Lease>)

  datatype Call = Open(handle: usize, library: Opened) | Close(handle: usize, valid: bool)

  // ----- The linker's context -----

  ghost predicate ContextOk(c: Context) {
    && NoDuplicates(c.order)
    && (forall id :: id in c.order <==> id in c.linkMap)
    && c.meta.Keys == c.linkMap.Keys
    && (forall a, b :: a in c.linkMap && b in c.linkMap && c.linkMap[a] == c.linkMap[b] ==> a == b)
    && (forall l :: l in c.outstanding ==> l.id in c.linkMap && l.serial < c.nextSerial)
    && c.pins <= c.outstanding
    && (forall id :: id in c.globals ==> id in c.linkMap)
  }

  /** A module that must stay is pinned. */
  ghost predicate Pinned(c: Context) {
    forall id :: id in c.meta && NODELETE in c.meta[id] ==> exists l :: l in c.pins && l.id == id
  }

  function Acquire(c: Context, id: ModuleId): (r: (Context, Lease)) {
    var l := Lease(id, c.nextSerial);
    (c.(outstanding := c.outstanding + {l}, nextSerial := c.nextSerial + 1), l)
  }

  function Pin(c: Context, l: Lease): Context {
    c.(pins := c.pins + {l})
  }

  function PromoteGlobal(c: Context, id: ModuleId): Context {
    c.(globals := c.globals + {id})
  }

  /** Modules the linker may unload once `l` is gone. */
  ghost predicate Unloadable(c: Context, l: Lease, unloads: set<ModuleId>) {
    forall id :: id in unloads ==> id in c.linkMap && forall k :: k in c.outstanding && k.id == id ==> k == l
  }

  function Kept(order: seq<ModuleId>, unloads: set<ModuleId>): (r: seq<ModuleId>)
    ensures forall id :: id in r <==> id in order && id !in unloads
    ensures NoDuplicates(order) ==> NoDuplicates(r)
  {
    if order == [] then []
    else
      var rest := Kept(order[..|order| - 1], unloads);
      if order[|order| - 1] in unloads then rest else rest + [order[|order| - 1]]
  }

  function Release(c: Context, l: Lease, unloads: set<ModuleId>): Context {
    Context(Kept(c.order, unloads), c.linkMap - unloads, c.meta - unloads, c.globals - unloads,
            c.outstanding - {l}, c.pins, c.nextSerial)
  }

  lemma {:induction false} KeptLength(order: seq<ModuleId>, unloads: set<ModuleId>)
    requires NoDuplicates(order) && forall id :: id in unloads ==> id in order
    ensures |Kept(order, unloads)| + |unloads| == |order|
    decreases |order|
  {
    if order == [] {
      assert unloads == {};
    } else {
      var n := |order| - 1;
      assert order[n] !in order[..n];
      assert order == order[..n] + [order[n]];
      KeptWithout(order[..n], unloads, order[n]);
      KeptLength(order[..n], unloads - {order[n]});
    }
  }

  lemma {:induction false} KeptWithout(order: seq<ModuleId>, unloads: set<ModuleId>, id: ModuleId)
    requires id !in order
    ensures Kept(order, unloads) == Kept(order, unloads - {id})
    decreases |order|
  {
    if order != [] { KeptWithout(order[..|order| - 1], unloads, id); }
  }

  lemma AcquireOk(c: Context, id: ModuleId)
    requires ContextOk(c) && id in c.linkMap
    ensures ContextOk(Acquire(c, id).0) && Acquire(c, id).1 !in c.outstanding
    ensures Pinned(c) ==> Pinned(Acquire(c, id).0)
  {
  }

  lemma ReleaseOk(c: Context, l: Lease, unloads: set<ModuleId>)
    requires ContextOk(c) && l in c.outstanding && l !in c.pins && Unloadable(c, l, unloads)
    ensures ContextOk(Release(c, l, unloads))
    ensures Pinned(c) ==> Pinned(Release(c, l, unloads))
    ensures |Release(c, l, unloads).order| + |unloads| == |c.order|
    ensures forall k :: k in c.outstanding && k != l ==> k.id in Release(c, l, unloads).linkMap
  {
    KeptLength(c.order, unloads);
  }

  // ----- Who owns what -----

  predicate LeaseOf(h: HandleState, l: Lease) {
    l == h.library.lease || l in h.extraLeases
  }

  /** The C handle of the lease's module holds it. */
  ghost predicate InHandle(c: Context, handles: map<usize, HandleState>, l: Lease) {
    l.id in c.linkMap && c.linkMap[l.id] in handles && LeaseOf(handles[c.linkMap[l.id]], l)
  }

  /** A handle is the address of its module's link map, and all its leases are on that module. */
  ghost predicate HandlesOk(c: Context, handles: map<usize, HandleState>) {
    forall h :: h in handles ==> HandleOk(c, h, handles[h])
  }

  ghost predicate HandleOk(c: Context, h: usize, s: HandleState) {
    && s.library.linkMap == h && s.library.lease.id in c.linkMap && c.linkMap[s.library.lease.id] == h
    && (forall l :: l in s.extraLeases ==> l.id == s.library.lease.id)
    && NoDuplicates([s.library.lease] + s.extraLeases)
  }

  /** Every outstanding acquisition has exactly one owner: a C handle, an outside owner, or a pin. */
  ghost predicate Conserved(c: Context, handles: map<usize, HandleState>, held: map<Lease, Owner>) {
    forall l ::
      && (l in c.outstanding <==> InHandle(c, handles, l) || l in held || l in c.pins)
      && !(InHandle(c, handles, l) && l in held)
      && !(InHandle(c, handles, l) && l in c.pins)
      && !(l in held && l in c.pins)
  }

  function Depth(handles: map<usize, HandleState>, h: usize): nat {
    if h in handles then 1 + |handles[h].extraLeases| else 0
  }

  /** Opens of a handle, less its valid closes. */
  function Net(calls: seq<Call>, h: usize): int {
    if calls == [] then 0
    else
      var c := calls[|calls| - 1];
      Net(calls[..|calls| - 1], h) + Change(c, h)
  }

  function Change(c: Call, h: usize): int {
    if c.handle != h then 0 else if c.Open? then 1 else if c.valid then -1 else 0
  }

  /** The library of the first open of the handle since it was last closed for good, if it is open. */
  function FirstOpened(calls: seq<Call>, h: usize): Option<Opened> {
    if calls == [] then None
    else
      var before, c := calls[..|calls| - 1], calls[|calls| - 1];
      if c.handle == h && c.Open? && Net(before, h) == 0 then Some(c.library)
      else if c == Close(h, true) && Net(before, h) == 1 then None
      else FirstOpened(before, h)
  }

  /** At no time had a handle been closed more often than opened. */
  ghost predicate NeverNegative(calls: seq<Call>) {
    forall j, h: usize :: 0 <= j <= |calls| ==> Net(calls[..j], h) >= 0
  }

  lemma NetStep(calls: seq<Call>, c: Call, h: usize)
    ensures Net(calls + [c], h) == Net(calls, h) + Change(c, h)
    ensures FirstOpened(calls + [c], h)
         == if c.handle == h && c.Open? && Net(calls, h) == 0 then Some(c.library)
            else if c == Close(h, true) && Net(calls, h) == 1 then None
            else FirstOpened(calls, h)
  {
    assert (calls + [c])[..|calls|] == calls;
  }

  /** The table keeps, for each open handle, the library of the first open. */
  ghost predicate FirstKept(handles: map<usize, HandleState>, calls: seq<Call>) {
    forall h: usize :: FirstOpened(calls, h) == if h in handles then Some(handles[h].library) else None
  }

  /** What the table knows of the calls so far. */
  ghost predicate Recalls(handles: map<usize, HandleState>, calls: seq<Call>) {
    Balanced(handles, calls) && NeverNegative(calls) && FirstKept(handles, calls)
  }

  /** The depth of each handle is its opens less its valid closes. */
  ghost predicate Balanced(handles: map<usize, HandleState>, calls: seq<Call>) {
    forall h: usize :: Net(calls, h) == Depth(handles, h)
  }

  /** The table after a C open: a first open keeps the library, a later one only its lease. */
  function Registered(handles: map<usize, HandleState>, library: Opened): map<usize, HandleState> {
    var h := library.linkMap;
    if h in handles then handles[h := handles[h].(extraLeases := handles[h].extraLeases + [library.lease])]
    else handles[h := HandleState(library, [])]
  }

  /** The lease a close gives up: the last extra one, or the library's own when no extra is left. */
  function GivenUp(s: HandleState): Lease {
    if s.extraLeases == [] then s.library.lease else s.extraLeases[|s.extraLeases| - 1]
  }

  function Closed(handles: map<usize, HandleState>, h: usize): map<usize, HandleState>
    requires h in handles
  {
    var extra := handles[h].extraLeases;
    if extra == [] then handles - {h} else handles[h := handles[h].(extraLeases := extra[..|extra| - 1])]
  }

  /** Handles depend on the context only through the link maps of their modules. */
  lemma HandlesFrame(c: Context, d: Context, handles: map<usize, HandleState>)
    requires HandlesOk(c, handles)
    requires forall h :: h in handles ==>
               var id := handles[h].library.lease.id; id in d.linkMap && d.linkMap[id] == c.linkMap[id]
    ensures HandlesOk(d, handles)
  {
  }

  lemma RegisterHandlesOk(c: Context, handles: map<usize, HandleState>, held: map<Lease, Owner>, library: Opened)
    requires ContextOk(c) && HandlesOk(c, handles) && Conserved(c, handles, held) && library.lease in held
    requires library.lease.id in c.linkMap && c.linkMap[library.lease.id] == library.linkMap
    ensures HandlesOk(c, Registered(handles, library))
  {
    var h := library.linkMap;
    assert !InHandle(c, handles, library.lease);
    if h in handles {
      assert HandleOk(c, h, handles[h]);
      assert handles[h].library.lease.id == library.lease.id;
      var extra := handles[h].extraLeases;
      assert [handles[h].library.lease] + (extra + [library.lease])
          == [handles[h].library.lease] + extra + [library.lease];
      assert forall l :: l in [handles[h].library.lease] + extra ==> LeaseOf(handles[h], l);
    }
  }

  /** An open puts its lease, and no other, into the table. */
  lemma RegisterPuts(c: Context, handles: map<usize, HandleState>, library: Opened, l: Lease)
    requires library.lease.id in c.linkMap && c.linkMap[library.lease.id] == library.linkMap && ContextOk(c)
    ensures InHandle(c, Registered(handles, library), l) <==> InHandle(c, handles, l) || l == library.lease
  {
    var h := library.linkMap;
    if h in handles {
      var extra := handles[h].extraLeases;
      assert l in extra + [library.lease] <==> l in extra || l == library.lease;
    }
  }

  lemma RegisterConserved(c: Context, handles: map<usize, HandleState>, held: map<Lease, Owner>, library: Opened)
    requires ContextOk(c) && Conserved(c, handles, held) && library.lease in held
    requires library.lease.id in c.linkMap && c.linkMap[library.lease.id] == library.linkMap
    ensures Conserved(c, Registered(handles, library), held - {library.lease})
  {
    hide Registered, InHandle;
    forall l
      ensures InHandle(c, Registered(handles, library), l) <==> InHandle(c, handles, l) || l == library.lease
    {
      RegisterPuts(c, handles, library, l);
    }
    hide ContextOk;
  }

  /** One call more keeps what the table recalls, if it changes depth and library as the call does. */
  lemma RecallsStep(handles: map<usize, HandleState>, calls: seq<Call>, after: map<usize, HandleState>, c: Call)
    requires Recalls(handles, calls)
    requires forall h: usize :: Depth(after, h) == Depth(handles, h) + Change(c, h)
    requires forall h: usize :: h in after ==>
               after[h].library == if h in handles then handles[h].library
                                   else if c.Open? then c.library
                                   else after[h].library
    ensures Recalls(after, calls + [c])
  {
    forall h: usize
      ensures Net(calls + [c], h) == Depth(after, h)
      ensures FirstOpened(calls + [c], h) == if h in after then Some(after[h].library) else None
    {
      NetStep(calls, c, h);
      assert Net(calls, h) == Depth(handles, h);
      assert FirstOpened(calls, h) == if h in handles then Some(handles[h].library) else None;
    }
    forall j, h: usize | 0 <= j <= |calls + [c]|
      ensures Net((calls + [c])[..j], h) >= 0
    {
      if j <= |calls| {
        assert (calls + [c])[..j] == calls[..j];
      } else {
        assert (calls + [c])[..j] == calls + [c];
      }
    }
  }

  lemma RegisterRecalls(handles: map<usize, HandleState>, calls: seq<Call>, library: Opened)
    requires Recalls(handles, calls)
    ensures Recalls(Registered(handles, library), calls + [Open(library.linkMap, library)])
  {
    hide Recalls;
    RecallsStep(handles, calls, Registered(handles, library), Open(library.linkMap, library));
  }

  lemma CloseHandlesOk(c: Context, handles: map<usize, HandleState>, h: usize)
    requires HandlesOk(c, handles) && h in handles
    ensures HandlesOk(c, Closed(handles, h))
  {
    assert HandleOk(c, h, handles[h]);
    var extra := handles[h].extraLeases;
    if extra != [] {
      assert [handles[h].library.lease] + extra[..|extra| - 1] == ([handles[h].library.lease] + extra)[..|extra|];
    }
  }

  /** A close takes the lease it gives up, and no other, out of the table. */
  lemma CloseTakes(c: Context, handles: map<usize, HandleState>, h: usize, l: Lease)
    requires HandlesOk(c, handles) && h in handles
    ensures InHandle(c, Closed(handles, h), l) <==> InHandle(c, handles, l) && l != GivenUp(handles[h])
    ensures InHandle(c, handles, GivenUp(handles[h]))
  {
    assert HandleOk(c, h, handles[h]);
    GivenUpFrom(handles[h], l);
    hide GivenUp;
    assert GivenUp(handles[h]).id == handles[h].library.lease.id;
  }

  lemma GivenUpFrom(s: HandleState, l: Lease)
    requires NoDuplicates([s.library.lease] + s.extraLeases)
    ensures LeaseOf(s, GivenUp(s))
    ensures s.extraLeases == [] ==> (LeaseOf(s, l) <==> l == GivenUp(s))
    ensures s.extraLeases != [] ==>
              (LeaseOf(s.(extraLeases := s.extraLeases[..|s.extraLeases| - 1]), l)
               <==> LeaseOf(s, l) && l != GivenUp(s))
  {
    OwnElsewhere(s.library.lease, s.extraLeases);
    if s.extraLeases != [] { LastLeaves(s.extraLeases, l); }
    hide NoDuplicates;
  }

  lemma OwnElsewhere(own: Lease, extra: seq<Lease>)
    requires NoDuplicates([own] + extra)
    ensures own !in extra && NoDuplicates(extra)
  {
    assert ([own] + extra)[0] == own && forall i :: 0 <= i < |extra| ==> ([own] + extra)[i + 1] == extra[i];
  }

  lemma LastLeaves(extra: seq<Lease>, l: Lease)
    requires NoDuplicates(extra) && extra != []
    ensures extra[|extra| - 1] in extra
    ensures l in extra[..|extra| - 1] <==> l in extra && l != extra[|extra| - 1]
  {
    assert extra == extra[..|extra| - 1] + [extra[|extra| - 1]];
  }

  lemma CloseConserved(c: Context, handles: map<usize, HandleState>, held: map<Lease, Owner>, h: usize)
    requires HandlesOk(c, handles) && Conserved(c, handles, held) && h in handles
    ensures Conserved(c.(outstanding := c.outstanding - {GivenUp(handles[h])}), Closed(handles, h), held)
    ensures GivenUp(handles[h]) in c.outstanding && GivenUp(handles[h]) !in c.pins
  {
    var l := GivenUp(handles[h]);
    var d := c.(outstanding := c.outstanding - {l});
    hide GivenUp, Closed;
    forall k
      ensures InHandle(d, Closed(handles, h), k) <==> InHandle(c, handles, k) && k != l
      ensures InHandle(c, handles, l)
    {
      CloseTakes(c, handles, h, k);
      assert InHandle(d, Closed(handles, h), k) <==> InHandle(c, Closed(handles, h), k);
    }
  }

  lemma CloseRecalls(handles: map<usize, HandleState>, calls: seq<Call>, h: usize)
    requires Recalls(handles, calls) && h in handles
    ensures Recalls(Closed(handles, h), calls + [Close(h, true)])
  {
    hide Recalls;
    RecallsStep(handles, calls, Closed(handles, h), Close(h, true));
  }

  /** Modules with an owner outlive any unload, so their handles stay good and their leases stay owned. */
  lemma UnloadKeepsOwners(c: Context, handles: map<usize, HandleState>, held: map<Lease, Owner>, l: Lease,
                          unloads: set<ModuleId>)
    requires ContextOk(c) && l in c.outstanding && l !in c.pins && Unloadable(c, l, unloads)
    requires HandlesOk(c, handles)
    requires Conserved(c.(outstanding := c.outstanding - {l}), handles, held)
    ensures HandlesOk(Release(c, l, unloads), handles)
    ensures Conserved(Release(c, l, unloads), handles, held)
  {
    ReleaseOk(c, l, unloads);
    ReleaseFields(c, l, unloads);
    hide Release, ContextOk, Unloadable;
    OwnersStay(c.(outstanding := c.outstanding - {l}), Release(c, l, unloads), handles, held);
  }

  ghost predicate Shrinks(c: Context, d: Context) {
    && d.outstanding == c.outstanding && d.pins == c.pins
    && (forall id :: id in d.linkMap ==> id in c.linkMap && d.linkMap[id] == c.linkMap[id])
    && (forall k :: k in c.outstanding ==> k.id in d.linkMap)
  }

  lemma OwnersStay(c: Context, d: Context, handles: map<usize, HandleState>, held: map<Lease, Owner>)
    requires Shrinks(c, d) && HandlesOk(c, handles) && Conserved(c, handles, held)
    ensures HandlesOk(d, handles) && Conserved(d, handles, held)
  {
    forall h | h in handles
      ensures handles[h].library.lease.id in d.linkMap
    {
      assert HandleOk(c, h, handles[h]);
      assert InHandle(c, handles, handles[h].library.lease);
    }
    HandlesFrame(c, d, handles);
    forall k
      ensures InHandle(d, handles, k) <==> InHandle(c, handles, k)
    {
      assert InHandle(c, handles, k) ==> k in c.outstanding;
    }
  }

  lemma ReleaseFields(c: Context, l: Lease, unloads: set<ModuleId>)
    requires ContextOk(c) && Unloadable(c, l, unloads)
    ensures Shrinks(c.(outstanding := c.outstanding - {l}), Release(c, l, unloads))
  {
  }

  // ----- What an acquisition, a pin and a load keep -----

  /** Everything about the owners, for one context. */
  ghost predicate Owned(c: Context, handles: map<usize, HandleState>, held: map<Lease, Owner>) {
    ContextOk(c) && Pinned(c) && HandlesOk(c, handles) && Conserved(c, handles, held)
  }

  lemma AcquireKeeps(c: Context, handles: map<usize, HandleState>, held: map<Lease, Owner>, id: ModuleId, owner: Owner)
    requires Owned(c, handles, held) && id in c.linkMap
    ensures var (d, l) := Acquire(c, id); Owned(d, handles, held[l := owner]) && l !in held && l !in c.outstanding
  {
    var (d, l) := Acquire(c, id);
    AcquireOk(c, id);
    HandlesFrame(c, d, handles);
    assert forall k :: InHandle(d, handles, k) <==> InHandle(c, handles, k);
    hide ContextOk, Pinned, HandlesOk, InHandle;
    assert !InHandle(c, handles, l) && l !in held && l !in c.pins;
  }

  function AcquirePinned(c: Context, id: ModuleId): Context {
    var (d, l) := Acquire(c, id);
    Pin(d, l)
  }

  lemma PinKeeps(c: Context, handles: map<usize, HandleState>, held: map<Lease, Owner>, id: ModuleId)
    requires Owned(c, handles, held) && id in c.linkMap
    ensures Owned(AcquirePinned(c, id), handles, held)
    ensures exists l :: l in AcquirePinned(c, id).pins && l.id == id
  {
    var (_, l) := Acquire(c, id);
    var d := AcquirePinned(c, id);
    AcquireOk(c, id);
    HandlesFrame(c, d, handles);
    assert forall k :: InHandle(d, handles, k) <==> InHandle(c, handles, k);
    assert l in d.pins && l.id == id;
    assert ContextOk(d) && Pinned(d);
    hide ContextOk, Pinned, HandlesOk, InHandle;
    assert !InHandle(c, handles, l) && l !in held && l !in c.pins;
  }

  /** New flags for a module, with the pin that NODELETE asks for when it was not set before. */
  function WithFlags(c: Context, id: ModuleId, flags: set<Flag>): Context
    requires id in c.meta
  {
    var d := if NODELETE in flags && NODELETE !in c.meta[id] then AcquirePinned(c, id) else c;
    d.(meta := d.meta[id := flags])
  }

  lemma FlagsKeep(c: Context, handles: map<usize, HandleState>, held: map<Lease, Owner>, id: ModuleId, flags: set<Flag>)
    requires Owned(c, handles, held) && id in c.meta
    ensures Owned(WithFlags(c, id, flags), handles, held)
  {
    var d := c;
    if NODELETE in flags && NODELETE !in c.meta[id] {
      PinKeeps(c, handles, held, id);
      d := AcquirePinned(c, id);
    }
    var e := d.(meta := d.meta[id := flags]);
    FlagsOnly(d, handles, held, id, flags);
    assert e == WithFlags(c, id, flags);
  }

  lemma FlagsOnly(d: Context, handles: map<usize, HandleState>, held: map<Lease, Owner>, id: ModuleId, flags: set<Flag>)
    requires Owned(d, handles, held) && id in d.meta
    requires NODELETE in flags ==> exists l :: l in d.pins && l.id == id
    ensures Owned(d.(meta := d.meta[id := flags]), handles, held)
  {
    var e := d.(meta := d.meta[id := flags]);
    HandlesFrame(d, e, handles);
    assert forall k :: InHandle(e, handles, k) <==> InHandle(d, handles, k);
  }

  lemma PromoteKeeps(c: Context, handles: map<usize, HandleState>, held: map<Lease, Owner>, id: ModuleId)
    requires Owned(c, handles, held) && id in c.linkMap
    ensures Owned(PromoteGlobal(c, id), handles, held)
  {
    HandlesFrame(c, PromoteGlobal(c, id), handles);
    assert forall k :: InHandle(PromoteGlobal(c, id), handles, k) <==> InHandle(c, handles, k);
  }

  /** A module opened again: its flags grow, and GLOBAL puts it in the global scope. */
  function Promoted(c: Context, id: ModuleId, promotable: set<Flag>): Context
    requires id in c.meta
  {
    var d := WithFlags(c, id, c.meta[id] + promotable);
    if GLOBAL in promotable then PromoteGlobal(d, id) else d
  }

  lemma PromoteKeepsAll(c: Context, handles: map<usize, HandleState>, held: map<Lease, Owner>, id: ModuleId,
                        promotable: set<Flag>)
    requires Owned(c, handles, held) && id in c.meta && id in c.linkMap
    ensures var d := Promoted(c, id, promotable);
            && Owned(d, handles, held) && d.order == c.order && d.linkMap == c.linkMap
            && d.meta == c.meta[id := c.meta[id] + promotable]
            && d.globals == c.globals + (if GLOBAL in promotable then {id} else {})
            && c.pins <= d.pins && d.outstanding - d.pins == c.outstanding - c.pins
  {
    hide Owned, WithFlags;
    FlagsKeep(c, handles, held, id, c.meta[id] + promotable);
    FlagsFields(c, handles, held, id, c.meta[id] + promotable);
    PromoteKeeps(WithFlags(c, id, c.meta[id] + promotable), handles, held, id);
  }

  /** The linker commits a new module: neither its id nor the address of its link map is in use. */
  function Commit(c: Context, m: Module): Context {
    c.(order := c.order + [m.id], linkMap := c.linkMap[m.id := m.linkMap], meta := c.meta[m.id := {}])
  }

  ghost predicate Unused(c: Context, m: Module) {
    m.id !in c.linkMap && forall id :: id in c.linkMap ==> c.linkMap[id] != m.linkMap
  }

  lemma CommitKeeps(c: Context, handles: map<usize, HandleState>, held: map<Lease, Owner>, m: Module)
    requires Owned(c, handles, held) && Unused(c, m)
    ensures Owned(Commit(c, m), handles, held)
  {
    var d := Commit(c, m);
    assert ContextOk(d) && Pinned(d);
    HandlesFrame(c, d, handles);
    CommitOwners(c, handles, held, m);
    hide ContextOk, Pinned, HandlesOk, InHandle;
  }

  lemma CommitOwners(c: Context, handles: map<usize, HandleState>, held: map<Lease, Owner>, m: Module)
    requires HandlesOk(c, handles) && Unused(c, m)
    ensures forall k :: InHandle(Commit(c, m), handles, k) <==> InHandle(c, handles, k)
  {
    assert forall h :: h in handles ==> HandleOk(c, h, handles[h]) && h != m.linkMap;
  }

  /** Commits in load order. */
  function CommitAll(c: Context, modules: seq<Module>): Context {
    if modules == [] then c else Commit(CommitAll(c, modules[..|modules| - 1]), modules[|modules| - 1])
  }

  ghost predicate AllUnused(c: Context, modules: seq<Module>) {
    && (forall i :: 0 <= i < |modules| ==> Unused(c, modules[i]))
    && (forall i, j :: 0 <= i < j < |modules| ==>
          modules[i].id != modules[j].id && modules[i].linkMap != modules[j].linkMap)
  }

  lemma {:induction false} CommitAllKeeps(c: Context, handles: map<usize, HandleState>, held: map<Lease, Owner>,
                                          modules: seq<Module>)
    requires Owned(c, handles, held) && AllUnused(c, modules)
    ensures var d := CommitAll(c, modules);
            && Owned(d, handles, held) && Committed(c, d, modules)
    decreases |modules|
  {
    hide Owned, Commit, Committed, AllUnused, Unused;
    if modules != [] {
      var n := |modules| - 1;
      var d := CommitAll(c, modules[..n]);
      AllUnusedPrefix(c, modules);
      CommitAllKeeps(c, handles, held, modules[..n]);
      OwnedContext(c, handles, held);
      StillUnused(c, d, modules);
      CommitKeeps(d, handles, held, modules[n]);
      assert modules == modules[..n] + [modules[n]];
      CommittedStep(c, d, modules[..n], modules[n]);
    } else {
      CommittedNone(c);
    }
  }

  function IdsOf(modules: seq<Module>): (ids: seq<ModuleId>)
    ensures |ids| == |modules| && forall i :: 0 <= i < |modules| ==> ids[i] == modules[i].id
  {
    seq(|modules|, i requires 0 <= i < |modules| => modules[i].id)
  }

  /** The context after committing these modules differs only by them. */
  ghost predicate Committed(c: Context, d: Context, modules: seq<Module>) {
    && d.order == c.order + IdsOf(modules)
    && d.linkMap.Keys == c.linkMap.Keys + (set m | m in modules :: m.id)
    && (forall m :: m in modules ==> m.id in d.linkMap && d.linkMap[m.id] == m.linkMap)
    && (forall id :: id in c.linkMap ==> d.linkMap[id] == c.linkMap[id])
    && (forall id :: id in c.meta ==> id in d.meta && d.meta[id] == c.meta[id])
    && (forall m :: m in modules ==> m.id in d.meta && d.meta[m.id] == {} && m.id !in c.meta)
    && d.outstanding == c.outstanding && d.pins == c.pins && d.globals == c.globals && d.nextSerial == c.nextSerial
  }

  lemma OwnedContext(c: Context, handles: map<usize, HandleState>, held: map<Lease, Owner>)
    requires Owned(c, handles, held)
    ensures ContextOk(c) && c.pins <= c.outstanding
  {
  }

  lemma CommittedNone(c: Context)
    ensures Committed(c, c, [])
  {
  }

  lemma AllUnusedPrefix(c: Context, modules: seq<Module>)
    requires modules != [] && AllUnused(c, modules)
    ensures AllUnused(c, modules[..|modules| - 1])
  {
  }

  lemma CommittedStep(c: Context, d: Context, before: seq<Module>, last: Module)
    requires Committed(c, d, before) && last.id !in d.linkMap && last.id !in c.meta
    ensures Committed(c, Commit(d, last), before + [last])
  {
    var all := before + [last];
    assert IdsOf(all) == IdsOf(before) + [last.id];
    assert forall m :: m in all <==> m in before || m == last;
    assert (set m | m in all :: m.id) == (set m | m in before :: m.id) + {last.id};
  }

  lemma StillUnused(c: Context, d: Context, modules: seq<Module>)
    requires modules != [] && AllUnused(c, modules) && Committed(c, d, modules[..|modules| - 1])
    requires c.meta.Keys == c.linkMap.Keys
    ensures Unused(d, modules[|modules| - 1]) && modules[|modules| - 1].id !in d.linkMap.Keys + c.meta.Keys
  {
  }

  lemma InvalidCloseRecalls(handles: map<usize, HandleState>, calls: seq<Call>, h: usize)
    requires Recalls(handles, calls)
    ensures Recalls(handles, calls + [Close(h, false)])
  {
    hide Recalls;
    RecallsStep(handles, calls, handles, Close(h, false));
  }

  lemma DropConserved(c: Context, handles: map<usize, HandleState>, held: map<Lease, Owner>, lease: Lease)
    requires Conserved(c, handles, held) && lease in held
    ensures Conserved(c.(outstanding := c.outstanding - {lease}), handles, held - {lease})
    ensures lease in c.outstanding && lease !in c.pins
  {
    var d := c.(outstanding := c.outstanding - {lease});
    assert forall k :: InHandle(d, handles, k) <==> InHandle(c, handles, k);
  }

  lemma RegisterKeeps(c: Context, handles: map<usize, HandleState>, held: map<Lease, Owner>, library: Opened)
    requires Owned(c, handles, held) && library.lease in held
    requires library.lease.id in c.linkMap && c.linkMap[library.lease.id] == library.linkMap
    ensures Owned(c, Registered(handles, library), held - {library.lease})
  {
    RegisterHandlesOk(c, handles, held, library);
    RegisterConserved(c, handles, held, library);
  }

  lemma CloseKeeps(c: Context, handles: map<usize, HandleState>, held: map<Lease, Owner>, h: usize,
                   unloads: set<ModuleId>)
    requires Owned(c, handles, held) && h in handles && Unloadable(c, GivenUp(handles[h]), unloads)
    ensures var d := Release(c, GivenUp(handles[h]), unloads);
            Owned(d, Closed(handles, h), held) && |d.order| + |unloads| == |c.order|
  {
    var lease := GivenUp(handles[h]);
    CloseHandlesOk(c, handles, h);
    CloseConserved(c, handles, held, h);
    hide GivenUp, Closed, HandlesOk, Conserved, Unloadable, Release, ContextOk, Pinned;
    UnloadKeepsOwners(c, Closed(handles, h), held, lease, unloads);
    ReleaseOk(c, lease, unloads);
  }

  lemma GivenUpOutstanding(c: Context, handles: map<usize, HandleState>, held: map<Lease, Owner>, h: usize)
    requires Owned(c, handles, held) && h in handles
    ensures GivenUp(handles[h]) in c.outstanding
  {
    CloseConserved(c, handles, held, h);
  }

  lemma HeldOutstanding(c: Context, handles: map<usize, HandleState>, held: map<Lease, Owner>, lease: Lease)
    requires Owned(c, handles, held) && lease in held
    ensures lease in c.outstanding && lease !in c.pins && lease.id in c.linkMap
  {
    hide Pinned, HandlesOk;
  }

  lemma DropKeeps(c: Context, handles: map<usize, HandleState>, held: map<Lease, Owner>, lease: Lease,
                  unloads: set<ModuleId>)
    requires Owned(c, handles, held) && lease in held && Unloadable(c, lease, unloads)
    ensures var d := Release(c, lease, unloads);
            Owned(d, handles, held - {lease}) && |d.order| + |unloads| == |c.order|
  {
    DropConserved(c, handles, held, lease);
    HandlesFrame(c, c.(outstanding := c.outstanding - {lease}), handles);
    hide HandlesOk, Conserved, Unloadable, Release, ContextOk, Pinned;
    UnloadKeepsOwners(c, handles, held - {lease}, lease, unloads);
    ReleaseOk(c, lease, unloads);
  }

  /** The flags of every listed module, in order; each is new, so it had none. */
  function WithFlagsAll(c: Context, modules: seq<Module>, flags: set<Flag>): Context
    requires forall m :: m in modules ==> m.id in c.meta
  {
    if modules == [] then c
    else
      var last := modules[|modules| - 1];
      var d := WithFlagsAll(c, modules[..|modules| - 1], flags);
      if last.id in d.meta then WithFlags(d, last.id, flags) else d
  }

  lemma {:induction false} FlagsAllKeep(c: Context, handles: map<usize, HandleState>, held: map<Lease, Owner>,
                                        modules: seq<Module>, flags: set<Flag>)
    requires Owned(c, handles, held) && forall m :: m in modules ==> m.id in c.meta
    ensures Owned(WithFlagsAll(c, modules, flags), handles, held)
    ensures Flagged(c, WithFlagsAll(c, modules, flags), modules, flags)
    decreases |modules|
  {
    hide Owned, WithFlags, Flagged;
    if modules != [] {
      var n := |modules| - 1;
      var d := WithFlagsAll(c, modules[..n], flags);
      FlagsAllKeep(c, handles, held, modules[..n], flags);
      assert modules == modules[..n] + [modules[n]];
      FlaggedMeta(c, d, modules[..n], flags);
      FlagsKeep(d, handles, held, modules[n].id, flags);
      FlagsFields(d, handles, held, modules[n].id, flags);
      FlaggedStep(c, d, WithFlags(d, modules[n].id, flags), modules[..n], modules[n], flags);
    } else {
      FlaggedNone(c, flags);
    }
  }

  /** Setting the flags of these modules changed nothing else but the pins it added. */
  ghost predicate Flagged(c: Context, d: Context, modules: seq<Module>, flags: set<Flag>) {
    && d.order == c.order && d.linkMap == c.linkMap && d.meta.Keys == c.meta.Keys && d.globals == c.globals
    && c.pins <= d.pins && d.outstanding - d.pins == c.outstanding - c.pins
    && (NODELETE !in flags ==> d.pins == c.pins)
    && (forall m :: m in modules && m.id in d.meta ==> d.meta[m.id] == flags)
    && (forall id :: id in c.meta && (forall m :: m in modules ==> m.id != id) ==> d.meta[id] == c.meta[id])
  }

  lemma FlaggedNone(c: Context, flags: set<Flag>)
    ensures Flagged(c, c, [], flags)
  {
  }

  lemma FlaggedMeta(c: Context, d: Context, modules: seq<Module>, flags: set<Flag>)
    requires Flagged(c, d, modules, flags)
    ensures d.meta.Keys == c.meta.Keys
  {
  }

  lemma FlaggedStep(c: Context, d: Context, e: Context, before: seq<Module>, last: Module, flags: set<Flag>)
    requires Flagged(c, d, before, flags)
    requires last.id in d.meta && e.order == d.order && e.linkMap == d.linkMap && e.meta == d.meta[last.id := flags]
    requires e.globals == d.globals && d.pins <= e.pins && e.outstanding - e.pins == d.outstanding - d.pins
    requires NODELETE !in flags ==> e.pins == d.pins
    ensures Flagged(c, e, before + [last], flags)
  {
    assert forall m :: m in before + [last] <==> m in before || m == last;
  }

  lemma FlagsFields(c: Context, handles: map<usize, HandleState>, held: map<Lease, Owner>, id: ModuleId,
                    flags: set<Flag>)
    requires Owned(c, handles, held) && id in c.meta
    ensures var d := WithFlags(c, id, flags);
            && d.order == c.order && d.linkMap == c.linkMap && d.meta == c.meta[id := flags]
            && d.globals == c.globals && c.pins <= d.pins && d.outstanding - d.pins == c.outstanding - c.pins
            && (NODELETE !in flags ==> d.pins == c.pins)
  {
    hide HandlesOk, Conserved, Pinned;
  }

  /** A destructor's lease is held in its name, and only for it. */
  ghost predicate PendingOk(held: map<Lease, Owner>, pending: map<nat, ThreadDestructor>) {
    && (forall raw :: raw in pending && pending[raw].lease.Some? ==>
          pending[raw].lease.value in held && held[pending[raw].lease.value] == Destructor(raw))
    && (forall l :: l in held && held[l].Destructor? ==>
          held[l].raw in pending && pending[held[l].raw].lease == Some(l))
  }

  // ----- What single operations do, seen from outside -----

  /** What is kept of the load order: the same modules in the same order, without the unloaded ones. */
  lemma {:induction false} KeptInOrder(order: seq<ModuleId>, unloads: set<ModuleId>, i: nat, j: nat)
    returns (a: nat, b: nat)
    requires i < j < |Kept(order, unloads)|
    ensures a < b < |order| && order[a] == Kept(order, unloads)[i] && order[b] == Kept(order, unloads)[j]
    decreases |order|
  {
    var n := |order| - 1;
    var before := Kept(order[..n], unloads);
    if j < |before| {
      a, b := KeptInOrder(order[..n], unloads, i, j);
    } else {
      assert before[i] in before;
      a :| a < n && order[..n][a] == before[i];
      b := n;
    }
  }

  /** A release takes the lease and the unloaded modules, and nothing else: every other module keeps its link map,
      its flags and its place in the global scope, every other acquisition and every pin stays. */
  lemma ReleaseExactly(c: Context, l: Lease, unloads: set<ModuleId>)
    ensures var d := Release(c, l, unloads);
            && (forall id :: id in d.order <==> id in c.order && id !in unloads)
            && (forall id :: id in d.linkMap <==> id in c.linkMap && id !in unloads)
            && (forall id :: id in d.meta <==> id in c.meta && id !in unloads)
            && (forall id :: id in d.linkMap ==> d.linkMap[id] == c.linkMap[id])
            && (forall id :: id in d.meta ==> d.meta[id] == c.meta[id])
            && (forall id :: id in d.globals <==> id in c.globals && id !in unloads)
            && (forall k :: k in d.outstanding <==> k in c.outstanding && k != l) && d.pins == c.pins
  {
  }

  /** Opening a handle and closing it again gives the same lease back and leaves the table as it was: closes undo
      opens last in, first out. */
  lemma OpenThenClose(handles: map<usize, HandleState>, library: Opened)
    ensures var after := Registered(handles, library);
            && library.linkMap in after && GivenUp(after[library.linkMap]) == library.lease
            && Closed(after, library.linkMap) == handles
  {
    var h := library.linkMap;
    var after := Registered(handles, library);
    if h in handles {
      var extra := handles[h].extraLeases;
      assert (extra + [library.lease])[..|extra|] == extra;
      assert Closed(after, h)[h] == handles[h];
    }
  }

  /** Other handles are not concerned by an open or a close. */
  lemma OtherHandlesKept(handles: map<usize, HandleState>, library: Opened, h: usize, other: usize)
    ensures other != library.linkMap ==>
              && (other in Registered(handles, library) <==> other in handles)
              && (other in handles ==> Registered(handles, library)[other] == handles[other])
    ensures h in handles && other != h ==>
              && (other in Closed(handles, h) <==> other in handles)
              && (other in handles ==> Closed(handles, h)[other] == handles[other])
  {
  }

  /** Setting NODELETE pins the module with one new acquisition the first time, and never again. */
  lemma PinsOnce(c: Context, handles: map<usize, HandleState>, held: map<Lease, Owner>, id: ModuleId, flags: set<Flag>)
    requires Owned(c, handles, held) && id in c.meta
    ensures var d := WithFlags(c, id, flags);
            if NODELETE in flags && NODELETE !in c.meta[id]
            then exists l: Lease :: l.id == id && l !in c.outstanding
                             && d.pins == c.pins + {l} && d.outstanding == c.outstanding + {l}
            else d.pins == c.pins && d.outstanding == c.outstanding
  {
    var l := Acquire(c, id).1;
    assert l !in c.outstanding;
    hide HandlesOk, Conserved, Pinned;
  }

  // ----- What the invariant says -----

  /** Over any run of opens and closes, the library a handle stands for is the one of its first open since it
      was last not open: some earlier call opened the handle with it when it was closed, and at no time
      since has it been closed for good. */
  lemma FirstLibraryStays(handles: map<usize, HandleState>, calls: seq<Call>, h: usize) returns (k: nat)
    requires Recalls(handles, calls) && h in handles
    ensures k < |calls| && calls[k] == Open(h, handles[h].library) && Net(calls[..k], h) == 0
    ensures forall j :: k < j <= |calls| ==> Net(calls[..j], h) > 0
  {
    assert FirstOpened(calls, h) == Some(handles[h].library);
    assert Net(calls, h) == Depth(handles, h);
    k := FirstOpenedAt(calls, h);
  }

  lemma {:induction false} FirstOpenedAt(calls: seq<Call>, h: usize) returns (k: nat)
    requires NeverNegative(calls) && FirstOpened(calls, h).Some? && Net(calls, h) > 0
    ensures k < |calls| && calls[k] == Open(h, FirstOpened(calls, h).value) && Net(calls[..k], h) == 0
    ensures forall j :: k < j <= |calls| ==> Net(calls[..j], h) > 0
    decreases |calls|
  {
    var n := |calls| - 1;
    var before, c := calls[..n], calls[n];
    assert calls[..n + 1] == calls;
    if c.handle == h && c.Open? && Net(before, h) == 0 {
      k := n;
    } else {
      assert forall j :: 0 <= j <= n ==> before[..j] == calls[..j];
      assert Net(calls[..n], h) >= 0;
      k := FirstOpenedAt(before, h);
    }
  }

  /** Whoever holds a lease keeps its module loaded, whatever another owner's release unloads. */
  lemma OwnersKeepModules(c: Context, handles: map<usize, HandleState>, held: map<Lease, Owner>, l: Lease,
                          released: Lease, unloads: set<ModuleId>)
    requires Owned(c, handles, held) && Unloadable(c, released, unloads) && l != released
    requires InHandle(c, handles, l) || l in held || l in c.pins
    ensures l.id in c.linkMap && l.id !in unloads
  {
    assert l in c.outstanding;
  }

  /** A module that must stay is never unloaded. */
  lemma NodeleteStays(c: Context, handles: map<usize, HandleState>, held: map<Lease, Owner>, released: Lease,
                      unloads: set<ModuleId>)
    requires Owned(c, handles, held) && Unloadable(c, released, unloads) && released !in c.pins
    ensures forall id :: id in c.meta && NODELETE in c.meta[id] ==> id !in unloads
  {
    forall id | id in c.meta && NODELETE in c.meta[id]
      ensures id !in unloads
    {
      var l :| l in c.pins && l.id == id;
      OwnersKeepModules(c, handles, held, l, released, unloads);
    }
  }

  /** The leases of a handle, as a set. */
  function HandleLeases(handles: map<usize, HandleState>, h: usize): set<Lease> {
    if h in handles then {handles[h].library.lease} + (set l | l in handles[h].extraLeases) else {}
  }

  lemma {:induction false} SetOfDistinct(s: seq<Lease>)
    requires NoDuplicates(s)
    ensures |set l | l in s| == |s|
    decreases |s|
  {
    if s == [] {
      assert (set l | l in s) == {};
    } else {
      var n := |s| - 1;
      SetOfDistinct(s[..n]);
      assert s == s[..n] + [s[n]];
      assert (set l | l in s) == (set l | l in s[..n]) + {s[n]};
    }
  }

  lemma HandleLeasesCount(c: Context, handles: map<usize, HandleState>, h: usize)
    requires HandlesOk(c, handles)
    ensures |HandleLeases(handles, h)| == Depth(handles, h)
  {
    if h in handles {
      var own, extra := handles[h].library.lease, handles[h].extraLeases;
      assert HandleOk(c, h, handles[h]);
      SetOfDistinct([own] + extra);
      assert (set l | l in [own] + extra) == HandleLeases(handles, h);
    }
  }

  /** Conservation, counted: the acquisitions of a module are its handle's opens less closes, the leases held
      on it elsewhere, and its pins. */
  lemma LeaseCount(c: Context, handles: map<usize, HandleState>, held: map<Lease, Owner>, calls: seq<Call>,
                   id: ModuleId)
    requires Owned(c, handles, held) && Balanced(handles, calls) && id in c.linkMap
    ensures |set l | l in c.outstanding && l.id == id|
         == Net(calls, c.linkMap[id]) + |set l | l in held && l.id == id| + |set l | l in c.pins && l.id == id|
  {
    var h := c.linkMap[id];
    HandleLeasesCount(c, handles, h);
    assert Net(calls, h) == Depth(handles, h);
    var all := set l | l in c.outstanding && l.id == id;
    var inHandle := HandleLeases(handles, h);
    var inHeld := set l | l in held && l.id == id;
    var pinned := set l | l in c.pins && l.id == id;
    LeasesSplit(c, handles, held, id);
    assert |inHandle + inHeld + pinned| == |inHandle| + |inHeld| + |pinned|;
  }

  lemma LeasesSplit(c: Context, handles: map<usize, HandleState>, held: map<Lease, Owner>, id: ModuleId)
    requires Owned(c, handles, held) && id in c.linkMap
    ensures var inHandle := HandleLeases(handles, c.linkMap[id]);
            var inHeld := set l | l in held && l.id == id;
            var pinned := set l | l in c.pins && l.id == id;
            && (set l | l in c.outstanding && l.id == id) == inHandle + inHeld + pinned
            && inHandle !! inHeld && inHandle !! pinned && inHeld !! pinned
  {
    var h := c.linkMap[id];
    forall l
      ensures l in HandleLeases(handles, h) <==> InHandle(c, handles, l) && l.id == id
    {
      if h in handles { assert HandleOk(c, h, handles[h]); }
    }
    hide InHandle, HandleLeases, HandlesOk, ContextOk, Pinned;
    assert forall l :: l in c.outstanding <==> InHandle(c, handles, l) || l in held || l in c.pins;
  }
}

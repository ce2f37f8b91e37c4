/** The runtime's TLS tables and the memory they own, as a value, with every operation as a function.
    The class in TlsRuntime.dfy performs the same operations in place. */
module TlsState {
  import opened Bytes
  import opened Usize
  import opened TlsLayout

  datatype TlsInfo = TlsInfo(memsz: usize, vaddr: usize, align: usize)

  /** A published initialisation image, or a source whose image can no longer be read. */
  datatype Source = Image(bytes: seq<byte>) | Gone

  datatype TlsModule =
    | Dynamic(info: TlsInfo, source: Option<Source>)
    | Static(info: TlsInfo, offset: int)

  datatype StaticModule = StaticModule(id: nat, info: TlsInfo, source: Option<Source>, offset: int)

  datatype StaticArea = StaticArea(tp: nat, used: usize, maxAlign: usize)

  datatype Layout = Layout(size: usize, align: usize)

  datatype DynamicBlock = DynamicBlock(tp: nat, ptr: nat, layout: Layout)

  datatype TlsAllocation = TlsAllocation(tp: nat, base: nat, layout: Layout)

  datatype DtvEntry = DtvEntry(first: int, second: int)

  datatype Tcb = Tcb(self: nat, dtv: nat, threadSelf: nat, stackGuard: usize, pointerGuard: usize)

  /** The bytes below a thread pointer, the last one just under it, and the control block above. */
  datatype Storage = Storage(below: seq<byte>, tcb: Tcb)

  datatype Block = Block(layout: Layout, bytes: seq<byte>)

  datatype Error = ResolverUnsupported | InvalidModuleId(id: nat) | ModuleMismatch

  datatype Result<+T> = Ok(value: T) | Err(error: Error)

  datatype Request = RequestDynamic | RequestStatic | RequestStaticAt(offset: int)

  /** History: where `register_static_module` put a block. */
  datatype Placement = Placement(id: nat, info: TlsInfo, align: usize, end: usize)

  datatype Tls = Tls(
    area: Option<StaticArea>,
    modules: seq<Option<TlsModule>>,
    statics: seq<StaticModule>,
    records: set<DynamicBlock>,
    allocations: set<TlsAllocation>,
    storage: map<nat, Storage>,
    dtvs: map<nat, seq<DtvEntry>>,
    blocks: map<nat, Block>,
    resolver: seq<(nat, Option<int>)>,
    placed: seq<Placement>)

  const INITIAL: Tls := Tls(None, [], [], {}, {}, map[], map[], map[], [], [])

  const DTV_SLOT_COUNT: nat := 64
  const BOOTSTRAP_STACK_GUARD: usize := 0x2f6a_5d1b_3c4e_8790
  const BOOTSTRAP_POINTER_GUARD: usize := 0x6b43_1d29_84a0_7c5e

  function Zeros(n: nat): (z: seq<byte>)
    ensures |z| == n && forall i :: 0 <= i < n ==> z[i] == 0
  {
    seq(n, _ => 0)
  }

  const RSEQ_PATTERN: seq<byte> := [0, 0, 0, 0, 0xFE, 0xFF, 0xFF, 0xFF] + Zeros(24)

  function Max(x: usize, y: usize): usize { if x < y then y else x }

  /** `Layout::from_size_align`: a power-of-two alignment and a size that rounds up within `isize`. */
  function MakeLayout(size: usize, align: usize): Option<Layout> {
    if align == 0 || And(align, align - 1) != 0 || size > ISIZE_MAX + 1 - align then None
    else Some(Layout(size, align))
  }

  // ----- Raw memory -----

  /** Overwrites `bytes` at position `at`. */
  function Patch(mem: seq<byte>, at: nat, bytes: seq<byte>): (r: seq<byte>)
    requires at + |bytes| <= |mem|
    ensures |r| == |mem|
  {
    mem[..at] + bytes + mem[at + |bytes|..]
  }

  function ImageThenZeros(image: seq<byte>, size: nat): (r: seq<byte>)
    requires |image| <= size
    ensures |r| == size
  {
    image + Zeros(size - |image|)
  }

  /** The block of a static module lies inside `size` bytes below the thread pointer. */
  predicate InRange(size: nat, offset: int, memsz: nat) {
    0 <= size + offset && size + offset + memsz <= size
  }

  predicate Writable(size: nat, m: StaticModule) {
    match m.source
    case Some(Image(b)) => |b| <= m.info.memsz && InRange(size, m.offset, m.info.memsz)
    case _ => true
  }

  predicate RseqFits(size: nat, used: usize) {
    match StaticUsedWithRseq(used)
    case Some(r) => r <= size
    case None => true
  }

  // ----- Thread control block and DTV (glibc/v2_39/tls.rs) -----

  function FreshDtv(): (d: seq<DtvEntry>)
    ensures |d| == DTV_SLOT_COUNT + 2
  {
    [DtvEntry(DTV_SLOT_COUNT, 0)] + seq(DTV_SLOT_COUNT + 1, _ => DtvEntry(0, 0))
  }

  /** Every control block points to no DTV or to a live one whose length word is intact. */
  ghost predicate DtvsOk(s: Tls) {
    && (forall d :: d in s.dtvs ==> d != 0 && |s.dtvs[d]| == DTV_SLOT_COUNT + 2 && s.dtvs[d][0].first == DTV_SLOT_COUNT)
    && (forall tp :: tp in s.storage ==> tp != 0 && (s.storage[tp].tcb.dtv == 0 || s.storage[tp].tcb.dtv in s.dtvs))
  }

  /** The index in the DTV allocation of the entry for `id`; word 0 holds the length. */
  ghost function DtvIndex(s: Tls, tp: nat, id: nat): (r: Option<nat>)
    requires DtvsOk(s) && (tp != 0 ==> tp in s.storage)
    ensures r.Some? ==> tp in s.storage && s.storage[tp].tcb.dtv in s.dtvs
                        && 2 <= r.value < |s.dtvs[s.storage[tp].tcb.dtv]|
  {
    if tp == 0 || id == 0 || s.storage[tp].tcb.dtv == 0 then None
    else if id > s.dtvs[s.storage[tp].tcb.dtv][0].first then None
    else Some(id + 1)
  }

  ghost function DtvValue(s: Tls, tp: nat, id: nat): Option<int>
    requires DtvsOk(s) && (tp != 0 ==> tp in s.storage)
  {
    match DtvIndex(s, tp, id)
    case None => None
    case Some(i) =>
      var value := s.dtvs[s.storage[tp].tcb.dtv][i].first;
      if value == 0 then None else Some(value)
  }

  ghost function SetDtvValue(s: Tls, tp: nat, id: nat, value: int, toFree: int): (r: (Tls, bool))
    requires DtvsOk(s) && (tp != 0 ==> tp in s.storage)
    ensures DtvsOk(r.0) && r.0 == s.(dtvs := r.0.dtvs)
  {
    match DtvIndex(s, tp, id)
    case None => (s, false)
    case Some(i) =>
      var d := s.storage[tp].tcb.dtv;
      (s.(dtvs := s.dtvs[d := s.dtvs[d][i := DtvEntry(value, toFree)]]), true)
  }

  ghost function DeallocateTcb(s: Tls, tp: nat): (r: Tls)
    requires tp != 0 ==> tp in s.storage
    ensures r == s.(storage := r.storage, dtvs := r.dtvs)
  {
    if tp == 0 || s.storage[tp].tcb.dtv == 0 then s
    else
      var st := s.storage[tp];
      s.(dtvs := s.dtvs - {st.tcb.dtv},
         storage := s.storage[tp := st.(tcb := st.tcb.(dtv := 0))])
  }

  ghost function InitTcb(s: Tls, tp: nat, dtv: nat): (r: Tls)
    requires tp in s.storage
    ensures r == s.(storage := r.storage, dtvs := r.dtvs)
  {
    var s1 := DeallocateTcb(s, tp);
    s1.(dtvs := s1.dtvs[dtv := FreshDtv()],
        storage := s1.storage[tp := s1.storage[tp].(
                                      tcb := Tcb(tp, dtv, tp, BOOTSTRAP_STACK_GUARD, BOOTSTRAP_POINTER_GUARD))])
  }

  // ----- Module tables -----

  function Lookup(s: Tls, id: nat): Option<TlsModule> {
    if id == 0 || id > |s.modules| then None else s.modules[id - 1]
  }

  function RegisterModule(s: Tls, m: TlsModule): (r: (Tls, Result<nat>))
    ensures s.modules <= r.0.modules
  {
    if |s.modules| + 1 > MAX then (s, Err(ResolverUnsupported))
    else (s.(modules := s.modules + [Some(m)]), Ok(|s.modules| + 1))
  }

  /** What the allocator and the kernel hand out when the initial arena is created. */
  datatype Grant = Grant(tp: nat, dtv: nat, installed: bool)

  ghost predicate GrantOk(s: Tls, grant: Grant) {
    && grant.tp != 0 && grant.tp !in s.storage && Multiple(grant.tp, 4096)
    && grant.dtv != 0 && grant.dtv !in s.dtvs
  }

  ghost function EnsureArea(s: Tls, grant: Grant): (r: (Tls, bool))
    ensures r.0 == s.(area := r.0.area, storage := r.0.storage, dtvs := r.0.dtvs)
  {
    if s.area.Some? then (s, true)
    else
      var blank := Storage(Zeros(STATIC_TLS_ARENA_SIZE), Tcb(0, 0, 0, 0, 0));
      var s1 := InitTcb(s.(storage := s.storage[grant.tp := blank]), grant.tp, grant.dtv);
      if grant.installed then (s1.(area := Some(StaticArea(grant.tp, 0, 1))), true) else (s1, false)
  }

  ghost function RegisterStatic(s: Tls, info: TlsInfo, grant: Grant): (r: (Tls, Result<(nat, int)>))
    ensures s.modules <= r.0.modules
  {
    var (s1, ready) := EnsureArea(s, grant);
    if !ready then (s1, Err(ResolverUnsupported))
    else
      match NextPow2(Max(info.align, 1))
      case None => (s1, Err(ResolverUnsupported))
      case Some(align) => PlaceStatic(s1, info, align)
  }

  ghost function PlaceStatic(s: Tls, info: TlsInfo, align: usize): (r: (Tls, Result<(nat, int)>))
    requires s.area.Some? && align >= 1
    ensures s.modules <= r.0.modules
  {
    var a := s.area.value;
    match StaticModuleEnd(a.used, info.memsz, info.vaddr, align)
    case None => (s, Err(ResolverUnsupported))
    case Some(used) =>
      var total := StaticUsedWithRseq(used);
      if total.None? || total.value > STATIC_TLS_ARENA_SIZE then (s, Err(ResolverUnsupported))
      else
        var offset: int := -(used as int);
        match RegisterModule(s, Static(info, offset))
        case (_, Err(e)) => (s, Err(e))
        case (s1, Ok(id)) =>
          (s1.(area := Some(StaticArea(a.tp, used, Max(a.maxAlign, align))),
               statics := s1.statics + [StaticModule(id, info, None, offset)],
               placed := s1.placed + [Placement(id, info, align, used)]),
           Ok((id, offset)))
  }

  ghost function AddStatic(s: Tls, info: TlsInfo, offset: int): (r: (Tls, Result<nat>))
    ensures s.modules <= r.0.modules
  {
    match RegisterModule(s, Static(info, offset))
    case (_, Err(e)) => (s, Err(e))
    case (s1, Ok(id)) => (s1.(statics := s1.statics + [StaticModule(id, info, None, offset)]), Ok(id))
  }

  function WithoutStatic(ms: seq<StaticModule>, id: nat): seq<StaticModule> {
    if ms == [] then []
    else WithoutStatic(ms[..|ms| - 1], id) + (if ms[|ms| - 1].id == id then [] else [ms[|ms| - 1]])
  }

  function UnregisterModule(s: Tls, id: nat): Tls {
    if id == 0 then s
    else s.(modules := if id <= |s.modules| then s.modules[id - 1 := None] else s.modules,
            statics := WithoutStatic(s.statics, id))
  }

  // ----- Publication -----

  function FindStatic(ms: seq<StaticModule>, id: nat): (i: nat)
    ensures i <= |ms|
    ensures i < |ms| ==> ms[i].id == id
    ensures forall j :: 0 <= j < i ==> ms[j].id != id
  {
    if ms == [] || ms[0].id == id then 0 else 1 + FindStatic(ms[1..], id)
  }

  /** Replace the entry of the module, or insert it if it is missing. */
  function Republish(ms: seq<StaticModule>, m: StaticModule): seq<StaticModule> {
    var i := FindStatic(ms, m.id);
    if i < |ms| then ms[i := m] else ms + [m]
  }

  /** The bytes below a thread pointer after a module's image has been copied in and zero-extended. */
  function Written(below: seq<byte>, m: StaticModule): (r: seq<byte>)
    requires Writable(|below|, m)
    ensures |r| == |below|
  {
    match m.source
    case Some(Image(b)) => Patch(below, |below| + m.offset, ImageThenZeros(b, m.info.memsz))
    case _ => below
  }

  ghost function InitStaticModule(s: Tls, tp: nat, m: StaticModule): (r: Tls)
    requires DtvsOk(s) && tp in s.storage && Writable(|s.storage[tp].below|, m)
    ensures DtvsOk(r) && tp in r.storage && |r.storage[tp].below| == |s.storage[tp].below|
    ensures r == s.(storage := r.storage, dtvs := r.dtvs)
  {
    match m.source
    case Some(Image(b)) =>
      var st := s.storage[tp];
      SetDtvValue(s.(storage := s.storage[tp := st.(below := Written(st.below, m))]), tp, m.id, tp + m.offset, 0).0
    case _ => s
  }

  /** The bytes below a thread pointer after its rseq area has been marked unregistered. */
  function MarkRseq(below: seq<byte>, used: usize): (r: seq<byte>)
    requires RseqFits(|below|, used)
    ensures |r| == |below|
  {
    match StaticUsedWithRseq(used)
    case None => below
    case Some(size) => if size > ISIZE_MAX then below else Patch(below, |below| - size, RSEQ_PATTERN)
  }

  ghost function InitRseq(s: Tls, tp: nat, used: usize): (r: Tls)
    requires tp in s.storage && RseqFits(|s.storage[tp].below|, used)
    ensures r == s.(storage := r.storage)
  {
    s.(storage := s.storage[tp := s.storage[tp].(below := MarkRseq(s.storage[tp].below, used))])
  }

  /** The memory a publication writes through raw pointers must be there. */
  ghost predicate InitStaticOk(s: Tls, m: StaticModule) {
    && DtvsOk(s)
    && (s.area.Some? ==>
          && s.area.value.tp in s.storage
          && Writable(|s.storage[s.area.value.tp].below|, m)
          && RseqFits(|s.storage[s.area.value.tp].below|, s.area.value.used))
  }

  /** The slot and the list entry of a static module, rewritten for a publication. */
  function WithStatic(s: Tls, m: StaticModule): Tls
    requires 1 <= m.id <= |s.modules|
  {
    s.(modules := s.modules[m.id - 1 := Some(Static(m.info, m.offset))], statics := Republish(s.statics, m))
  }

  ghost function InitStatic(s: Tls, m: StaticModule): (r: Tls)
    requires 1 <= m.id <= |s.modules| && InitStaticOk(s, m)
    ensures r.modules == s.modules[m.id - 1 := Some(Static(m.info, m.offset))] && r.statics == Republish(s.statics, m)
    ensures r == s.(modules := r.modules, statics := r.statics, storage := r.storage, dtvs := r.dtvs)
  {
    match s.area
    case None => WithStatic(s, m)
    case Some(a) => InitRseq(InitStaticModule(WithStatic(s, m), a.tp, m), a.tp, a.used)
  }

  ghost predicate InitTlsOk(s: Tls, source: Source, id: nat) {
    match Lookup(s, id)
    case Some(Static(info, offset)) => InitStaticOk(s, StaticModule(id, info, Some(source), offset))
    case Some(Dynamic(info, _)) => source.Image? ==> |source.bytes| <= info.memsz
    case None => true
  }

  ghost function InitTls(s: Tls, source: Source, id: nat, offset: Option<int>): (Tls, Result<()>)
    requires InitTlsOk(s, source, id)
  {
    match (Lookup(s, id), offset)
    case (Some(Dynamic(info, _)), None) =>
      (s.(modules := s.modules[id - 1 := Some(Dynamic(info, Some(source)))]), Ok(()))
    case (Some(Static(info, registered)), Some(o)) =>
      if o == registered then (InitStatic(s, StaticModule(id, info, Some(source), o)), Ok(()))
      else (s, Err(ModuleMismatch))
    case (None, _) => (s, Err(InvalidModuleId(id)))
    case _ => (s, Err(ModuleMismatch))
  }

  // ----- The resolver's own index (runtime/rtld.rs) -----

  function OffsetOf(m: TlsModule): Option<int> {
    match m
    case Dynamic(_, _) => None
    case Static(_, offset) => Some(offset)
  }

  ghost function Register(s: Tls, info: TlsInfo, request: Request, grant: Grant): (r: (Tls, Result<nat>))
    ensures s.modules <= r.0.modules
  {
    match request
    case RequestDynamic =>
      (match RegisterModule(s, Dynamic(info, None))
       case (s1, Err(e)) => (s1, Err(e))
       case (s1, Ok(id)) => (s1.(resolver := s1.resolver + [(id, None)]), Ok(id)))
    case RequestStatic =>
      (match RegisterStatic(s, info, grant)
       case (s1, Err(e)) => (s1, Err(e))
       case (s1, Ok((id, offset))) => (s1.(resolver := s1.resolver + [(id, Some(offset))]), Ok(id)))
    case RequestStaticAt(offset) =>
      (match AddStatic(s, info, offset)
       case (s1, Err(e)) => (s1, Err(e))
       case (s1, Ok(id)) => (s1.(resolver := s1.resolver + [(id, Some(offset))]), Ok(id)))
  }

  function FindOffset(entries: seq<(nat, Option<int>)>, id: nat): Option<int> {
    if entries == [] then None
    else if entries[0].0 == id then entries[0].1
    else FindOffset(entries[1..], id)
  }

  ghost function Publish(s: Tls, source: Source, id: nat): (Tls, Result<()>)
    requires InitTlsOk(s, source, id)
  {
    InitTls(s, source, id, FindOffset(s.resolver, id))
  }

  function WithoutEntry(entries: seq<(nat, Option<int>)>, id: nat): seq<(nat, Option<int>)> {
    if entries == [] then []
    else
      var last := entries[|entries| - 1];
      WithoutEntry(entries[..|entries| - 1], id) + (if last.0 == id then [] else [last])
  }

  function Unregister(s: Tls, id: nat): Tls {
    UnregisterModule(s.(resolver := WithoutEntry(s.resolver, id)), id)
  }

  // ----- Address lookup and lazy allocation -----

  ghost predicate ThreadOk(s: Tls, tp: nat) {
    DtvsOk(s) && (tp != 0 ==> tp in s.storage)
  }

  function DynamicLayout(info: TlsInfo): Option<Layout> {
    var align := match NextPow2(Max(info.align, 1)) case Some(a) => a case None => 1;
    MakeLayout(Max(info.memsz, 1), align)
  }

  ghost function AllocateDynamic(s: Tls, tp: nat, id: nat, info: TlsInfo, source: Option<Source>, ptr: nat)
    : (r: (Tls, Option<nat>))
    requires ThreadOk(s, tp)
    requires source.Some? && source.value.Image? ==> |source.value.bytes| <= info.memsz
    ensures r.0 == s.(dtvs := r.0.dtvs, blocks := r.0.blocks, records := r.0.records)
  {
    match DynamicLayout(info)
    case None => (s, None)
    case Some(layout) =>
      match source
      // The block stays allocated on this path: nothing frees or records it.
      case None => (s.(blocks := s.blocks[ptr := Block(layout, Zeros(layout.size))]), None)
      case Some(Gone) => (s, None)
      case Some(Image(b)) =>
        var (s1, set_) := SetDtvValue(s, tp, id, ptr, ptr);
        if !set_ then (s, None)
        else
          (s1.(blocks := s1.blocks[ptr := Block(layout, ImageThenZeros(b, layout.size))],
               records := s1.records + {DynamicBlock(tp, ptr, layout)}), Some(ptr))
  }

  ghost predicate SourcesFit(s: Tls) {
    forall i :: 0 <= i < |s.modules| ==>
                  match s.modules[i]
                  case Some(Dynamic(info, Some(Image(b)))) => |b| <= info.memsz
                  case _ => true
  }

  ghost function GetAddr(s: Tls, tp: nat, id: nat, tiOffset: nat, ptr: nat): (r: (Tls, int))
    requires ThreadOk(s, tp) && SourcesFit(s)
    ensures r.0 == s.(dtvs := r.0.dtvs, blocks := r.0.blocks, records := r.0.records)
  {
    match Lookup(s, id)
    case None => (s, 0)
    case Some(Static(_, offset)) => (s, if tp == 0 then 0 else tp + offset + tiOffset)
    case Some(Dynamic(info, source)) =>
      if tp == 0 then (s, 0)
      else
        match DtvValue(s, tp, id)
        case Some(value) => (s, value + tiOffset)
        case None =>
          match AllocateDynamic(s, tp, id, info, source, ptr)
          case (s1, None) => (s1, 0)
          case (s1, Some(p)) => (s1, p + tiOffset)
  }

  // ----- Thread storage -----

  function UsedInfo(s: Tls): (usize, usize) {
    match s.area
    case None => (0, 1)
    case Some(a) => (a.used, a.maxAlign)
  }

  function StaticInfo(s: Tls): (usize, usize) {
    var (used, maxAlign) := UsedInfo(s);
    var withRseq := match StaticUsedWithRseq(used) case Some(u) => u case None => 0;
    var align := Max(Max(Max(maxAlign, RSEQ_AREA_ALIGN), TLS_TCB_ALIGN), 1);
    var size := match AlignUp(withRseq, align)
                case None => 0
                case Some(u) => match CheckedAdd(u, TLS_TCB_SIZE) case Some(t) => t case None => 0;
    (size, align)
  }

  /** The layout of a new thread's storage and the distance from its base to its thread pointer. */
  function StorageLayout(s: Tls): Option<(Layout, usize)> {
    var (used, maxAlign) := UsedInfo(s);
    match StaticUsedWithRseq(used)
    case None => None
    case Some(withRseq) =>
      match NextPow2(Max(Max(Max(maxAlign, RSEQ_AREA_ALIGN), TLS_TCB_ALIGN), 8))
      case None => None
      case Some(align) =>
        match AlignUp(withRseq, align)
        case None => None
        case Some(staticSize) =>
          match CheckedAdd(staticSize, TLS_TCB_SIZE)
          case None => None
          case Some(total) =>
            match MakeLayout(Max(total, 1), align)
            case None => None
            case Some(layout) => Some((layout, staticSize))
  }

  function AllocateStorage(s: Tls, base: nat): (r: (Tls, Option<nat>))
    ensures r.0 == s.(storage := r.0.storage, allocations := r.0.allocations)
  {
    match StorageLayout(s)
    case None => (s, None)
    case Some((layout, staticSize)) =>
      var tp := base + staticSize;
      (s.(storage := s.storage[tp := Storage(Zeros(staticSize), Tcb(0, 0, 0, 0, 0))],
          allocations := s.allocations + {TlsAllocation(tp, base, layout)}), Some(tp))
  }

  /** Initialises the modules in order, the first ones first. */
  ghost function InitModules(s: Tls, tp: nat, ms: seq<StaticModule>): (r: Tls)
    requires DtvsOk(s) && tp in s.storage
    requires forall i :: 0 <= i < |ms| ==> Writable(|s.storage[tp].below|, ms[i])
    ensures DtvsOk(r) && tp in r.storage && |r.storage[tp].below| == |s.storage[tp].below|
    ensures r == s.(storage := r.storage, dtvs := r.dtvs)
  {
    if ms == [] then s
    else InitStaticModule(InitModules(s, tp, ms[..|ms| - 1]), tp, ms[|ms| - 1])
  }

  /** There is room below the thread pointer for every published module and for the rseq area. */
  ghost predicate RoomFor(s: Tls, tp: nat) {
    && DtvsOk(s) && tp in s.storage
    && (forall i :: 0 <= i < |s.statics| ==> Writable(|s.storage[tp].below|, s.statics[i]))
    && RseqFits(|s.storage[tp].below|, UsedInfo(s).0)
  }

  ghost function InitStatics(s: Tls, tp: nat): (r: Tls)
    requires RoomFor(s, tp)
    ensures r == s.(storage := r.storage, dtvs := r.dtvs)
  {
    InitRseq(InitModules(s, tp, s.statics), tp, UsedInfo(s).0)
  }

  /** The DTV handed to the thread is new, and the one it replaces is nobody else's. */
  ghost predicate DtvFresh(s: Tls, tp: nat, dtv: nat)
    requires tp in s.storage
  {
    && dtv != 0 && dtv !in s.dtvs
    && (forall t :: t in s.storage && t != tp ==>
                      s.storage[t].tcb.dtv == 0 || s.storage[t].tcb.dtv != s.storage[tp].tcb.dtv)
  }

  lemma InitTcbRoom(s: Tls, tp: nat, dtv: nat)
    requires RoomFor(s, tp) && DtvFresh(s, tp, dtv)
    ensures RoomFor(InitTcb(s, tp, dtv), tp)
  {
    var t := InitTcb(s, tp, dtv);
    assert t.storage[tp].below == s.storage[tp].below && t.storage[tp].tcb.dtv == dtv;
    assert forall u :: u in s.storage && u != tp ==> t.storage[u] == s.storage[u];
  }

  ghost function Init(s: Tls, tp: nat, dtv: nat): (r: Tls)
    requires RoomFor(s, tp) && DtvFresh(s, tp, dtv)
    ensures r == s.(storage := r.storage, dtvs := r.dtvs)
  {
    InitTcbRoom(s, tp, dtv);
    InitStatics(InitTcb(s, tp, dtv), tp)
  }

  /** The blocks recorded for a thread. */
  function BlocksOf(s: Tls, tp: nat): set<nat> {
    set r | r in s.records && r.tp == tp :: r.ptr
  }

  /** `tls::deallocate`, for a non-null storage pointer. */
  function Deallocate(s: Tls, tp: nat, deallocTcb: bool): Tls {
    var s1 := s.(records := (set r | r in s.records && r.tp != tp),
                 blocks := s.blocks - BlocksOf(s, tp));
    if deallocTcb && exists a :: a in s.allocations && a.tp == tp
    then s1.(allocations := (set a | a in s.allocations && a.tp != tp),
             storage := s1.storage - {tp})
    else s1
  }

  /** `_dl_deallocate_tls`: the DTV goes first, then the blocks it may point to. */
  ghost function DlDeallocate(s: Tls, tp: nat, deallocTcb: bool): Tls
    requires tp != 0 ==> tp in s.storage
  {
    if tp == 0 then s else Deallocate(DeallocateTcb(s, tp), tp, deallocTcb)
  }
}

/** The loader relocating itself: reading the relocation tables off its dynamic section, and applying the
    R_X86_64_RELATIVE entries (section 4.4 of the System V AMD64 psABI) segment by segment. Memory is a byte
    at every address; addresses wrap at 2^64. */
module SelfReloc {
  import opened Bytes
  import opened Usize

  type Memory = usize -> byte

  const DT_NULL: usize := 0
  const DT_NEEDED: usize := 1
  const DT_PLTRELSZ: usize := 2
  const DT_RELA: usize := 7
  const DT_RELASZ: usize := 8
  const DT_RELAENT: usize := 9
  const DT_INIT: usize := 12
  const DT_FINI: usize := 13
  const DT_JMPREL: usize := 23
  const DT_INIT_ARRAY: usize := 25
  const DT_FINI_ARRAY: usize := 26
  const DT_INIT_ARRAYSZ: usize := 27
  const DT_FINI_ARRAYSZ: usize := 28
  const DT_PREINIT_ARRAY: usize := 32
  const DT_PREINIT_ARRAYSZ: usize := 33
  const DT_RELRSZ: usize := 35
  const DT_RELR: usize := 36
  const DT_RELRENT: usize := 37

  const LIFECYCLE: set<usize> := {DT_INIT, DT_FINI, DT_INIT_ARRAY, DT_INIT_ARRAYSZ, DT_FINI_ARRAY, DT_FINI_ARRAYSZ,
                                  DT_PREINIT_ARRAY, DT_PREINIT_ARRAYSZ}

  const MAX_ENTRIES: nat := 4096
  const SIZE_OF_RELA: usize := 24
  const SIZE_OF_RELR: usize := 8
  const R_NONE: nat := 0
  const R_RELATIVE: nat := 8

  datatype Dyn = Dyn(tag: usize, value: usize)

  datatype Table = Table(offset: usize, size: usize, entrySize: usize)

  datatype Tables = Tables(rela: Table, relr: Table, hasLifecycle: bool)

  datatype Rela = Rela(offset: usize, kind: nat, addend: usize)

  // ----- Memory -----

  function Plus(a: usize, b: nat): usize { (a + b) % WORD }

  /** How far `a` lies past `from`, going up and around. */
  function Past(from: usize, a: usize): usize {
    if a >= from then a - from else a + WORD - from
  }

  lemma PastPlus(a: usize, i: nat)
    requires i < 8
    ensures Past(a, Plus(a, i)) == i && Plus(a, i) == if a + i < WORD then a + i else a + i - WORD
  {
  }

  function EightBytes(m: Memory, at: usize): (r: seq<byte>)
    ensures |r| == 8 && forall i :: 0 <= i < 8 ==> r[i] == m(Plus(at, i))
  {
    seq<byte>(8, i requires 0 <= i < 8 => m(Plus(at, i)))
  }

  function Read64(m: Memory, at: usize): usize {
    LittleEndian(EightBytes(m, at)) % WORD
  }

  function Write64(m: Memory, at: usize, value: usize): Memory {
    a => if Past(at, a) < 8 then ToBytes(value, 8)[Past(at, a)] else m(a)
  }

  lemma ReadWritten(m: Memory, at: usize, value: usize)
    ensures Read64(Write64(m, at, value), at) == value
  {
    var w := Write64(m, at, value);
    forall i | 0 <= i < 8
      ensures w(Plus(at, i)) == ToBytes(value, 8)[i]
    {
      PastPlus(at, i);
    }
    assert EightBytes(w, at) == ToBytes(value, 8);
    assert Pow256(8) == WORD;
    BytesRoundTrip(value, 8);
  }

  /** Two 8-byte places that share no byte. */
  predicate Apart(a: usize, b: usize) {
    Past(a, b) >= 8 && Past(b, a) >= 8
  }

  lemma ReadApart(m: Memory, at: usize, value: usize, other: usize)
    requires Apart(at, other)
    ensures Read64(Write64(m, at, value), other) == Read64(m, other)
  {
    var w := Write64(m, at, value);
    forall i | 0 <= i < 8
      ensures w(Plus(other, i)) == m(Plus(other, i))
    {
      PastPlus(other, i);
    }
    assert EightBytes(w, other) == EightBytes(m, other);
  }

  // ----- The dynamic section -----

  function DynAt(m: Memory, dynamic: usize, index: nat): Dyn {
    Dyn(Read64(m, Plus(dynamic, 16 * index)), Read64(m, Plus(dynamic, 16 * index + 8)))
  }

  function Dyns(m: Memory, dynamic: usize, n: nat): (r: seq<Dyn>)
    ensures |r| == n && forall i :: 0 <= i < n ==> r[i] == DynAt(m, dynamic, i)
  {
    seq(n, i requires 0 <= i < n => DynAt(m, dynamic, i))
  }

  /** The value of the last entry with this tag, or `before`; a zero does not count where `nonZero`. */
  function LastValue(dyns: seq<Dyn>, tag: usize, before: usize, nonZero: bool): usize {
    if dyns == [] then before
    else
      var d := dyns[|dyns| - 1];
      if d.tag == tag && !(nonZero && d.value == 0) then d.value
      else LastValue(dyns[..|dyns| - 1], tag, before, nonZero)
  }

  predicate HasLifecycle(dyns: seq<Dyn>) {
    exists i :: 0 <= i < |dyns| && dyns[i].tag in LIFECYCLE && dyns[i].value != 0
  }

  /** An entry that a self-relocating object must not have. */
  predicate Forbidden(d: Dyn) {
    d.tag == DT_NEEDED || ((d.tag == DT_JMPREL || d.tag == DT_PLTRELSZ) && d.value != 0)
  }

  /** The section ends at entry `n`, in time, and holds nothing forbidden before it. */
  ghost predicate EndsAt(m: Memory, dynamic: usize, n: nat) {
    n < MAX_ENTRIES && DynAt(m, dynamic, n).tag == DT_NULL && GoesOn(m, dynamic, n)
  }

  /** None of the first `n` entries ends the section or is forbidden. */
  ghost predicate GoesOn(m: Memory, dynamic: usize, n: nat) {
    forall i :: 0 <= i < n ==> DynAt(m, dynamic, i).tag != DT_NULL && !Forbidden(DynAt(m, dynamic, i))
  }

  /** The tables as the entries describe them. */
  function Described(dyns: seq<Dyn>): Tables {
    Tables(
      Table(LastValue(dyns, DT_RELA, 0, false), LastValue(dyns, DT_RELASZ, 0, false),
            LastValue(dyns, DT_RELAENT, SIZE_OF_RELA, true)),
      Table(LastValue(dyns, DT_RELR, 0, false), LastValue(dyns, DT_RELRSZ, 0, false),
            LastValue(dyns, DT_RELRENT, SIZE_OF_RELR, true)),
      HasLifecycle(dyns))
  }

  function Validate(t: Table, entrySize: usize): Option<Table>
    requires entrySize > 0
  {
    if t.size == 0 then Some(t.(entrySize := entrySize))
    else if t.offset == 0 || t.entrySize != entrySize || t.size % entrySize != 0 then None
    else Some(t)
  }

  function Validated(t: Tables): Option<Tables> {
    var rela, relr := Validate(t.rela, SIZE_OF_RELA), Validate(t.relr, SIZE_OF_RELR);
    if rela.None? || relr.None? then None else Some(Tables(rela.value, relr.value, t.hasLifecycle))
  }

  function Noted(t: Tables, d: Dyn): Tables {
    if d.tag == DT_RELA then t.(rela := t.rela.(offset := d.value))
    else if d.tag == DT_RELASZ then t.(rela := t.rela.(size := d.value))
    else if d.tag == DT_RELAENT && d.value != 0 then t.(rela := t.rela.(entrySize := d.value))
    else if d.tag == DT_RELR then t.(relr := t.relr.(offset := d.value))
    else if d.tag == DT_RELRSZ then t.(relr := t.relr.(size := d.value))
    else if d.tag == DT_RELRENT && d.value != 0 then t.(relr := t.relr.(entrySize := d.value))
    else if d.tag in LIFECYCLE && d.value != 0 then t.(hasLifecycle := true)
    else t
  }

  lemma DescribedStep(dyns: seq<Dyn>, d: Dyn)
    ensures Described(dyns + [d]) == Noted(Described(dyns), d)
  {
    var all := dyns + [d];
    assert all[..|dyns|] == dyns;
    assert HasLifecycle(all) <==> HasLifecycle(dyns) || (d.tag in LIFECYCLE && d.value != 0) by {
      if HasLifecycle(dyns) {
        var i :| 0 <= i < |dyns| && dyns[i].tag in LIFECYCLE && dyns[i].value != 0;
        assert all[i] == dyns[i];
      }
      assert all[|dyns|] == d;
    }
  }

  lemma DescribedNone()
    ensures Described([]) == Tables(Table(0, 0, SIZE_OF_RELA), Table(0, 0, SIZE_OF_RELR), false)
  {
  }

  lemma OneEnd(m: Memory, dynamic: usize, n: nat)
    requires EndsAt(m, dynamic, n)
    ensures forall k: nat :: EndsAt(m, dynamic, k) ==> k == n
  {
    forall k: nat | EndsAt(m, dynamic, k)
      ensures k == n
    {
    }
  }

  lemma EndsHere(m: Memory, dynamic: usize, n: nat)
    requires n < MAX_ENTRIES && DynAt(m, dynamic, n).tag == DT_NULL && GoesOn(m, dynamic, n)
    ensures EndsAt(m, dynamic, n)
  {
  }

  lemma GoesOnStep(m: Memory, dynamic: usize, n: nat)
    requires GoesOn(m, dynamic, n) && DynAt(m, dynamic, n).tag != DT_NULL && !Forbidden(DynAt(m, dynamic, n))
    ensures GoesOn(m, dynamic, n + 1)
    ensures Described(Dyns(m, dynamic, n + 1)) == Noted(Described(Dyns(m, dynamic, n)), DynAt(m, dynamic, n))
  {
    DescribedStep(Dyns(m, dynamic, n), DynAt(m, dynamic, n));
    hide Described, Noted;
    assert Dyns(m, dynamic, n + 1) == Dyns(m, dynamic, n) + [DynAt(m, dynamic, n)];
  }

  /** The section does not end before `n`, nor past a forbidden entry, nor past the limit. */
  lemma NoEnd(m: Memory, dynamic: usize, n: nat)
    requires GoesOn(m, dynamic, n)
    requires n >= MAX_ENTRIES || (Forbidden(DynAt(m, dynamic, n)) && DynAt(m, dynamic, n).tag != DT_NULL)
    ensures forall k: nat :: !EndsAt(m, dynamic, k)
  {
  }

  lemma GoesOnNowhere(m: Memory, dynamic: usize)
    ensures GoesOn(m, dynamic, 0) && Dyns(m, dynamic, 0) == []
  {
  }

  /** `RelocationTables::parse`. It fails exactly when the section does not end within 4096 entries free of
      forbidden ones, or a table it describes is malformed. */
  method Parse(m: Memory, dynamic: usize) returns (r: Option<Tables>)
    ensures dynamic == 0 ==> r.None?
    ensures dynamic != 0 ==> forall n :: EndsAt(m, dynamic, n) ==> r == Validated(Described(Dyns(m, dynamic, n)))
    ensures r.Some? ==> exists n :: EndsAt(m, dynamic, n)
  {
    if dynamic == 0 { return None; }
    DescribedNone();
    GoesOnNowhere(m, dynamic);
    hide Described, Noted, Validated, DynAt, Dyns, EndsAt, GoesOn;
    var t := Tables(Table(0, 0, SIZE_OF_RELA), Table(0, 0, SIZE_OF_RELR), false);
    var index := 0;
    while index < MAX_ENTRIES
      invariant index <= MAX_ENTRIES && t == Described(Dyns(m, dynamic, index)) && GoesOn(m, dynamic, index)
    {
      var entry := DynAt(m, dynamic, index);
      if entry.tag == DT_NULL {
        assert EndsAt(m, dynamic, index) by { EndsHere(m, dynamic, index); }
        OneEnd(m, dynamic, index);
        r := Validated(t);
        return;
      } else if entry.tag == DT_NEEDED {
        NoEnd(m, dynamic, index);
        return None;
      } else if (entry.tag == DT_JMPREL || entry.tag == DT_PLTRELSZ) && entry.value != 0 {
        NoEnd(m, dynamic, index);
        return None;
      }
      GoesOnStep(m, dynamic, index);
      t := Noted(t, entry);
      index := index + 1;
    }
    NoEnd(m, dynamic, index);
    r := None;
  }

  /** `can_pass_through`: nothing to relocate and nothing to run, or no dynamic section at all. */
  method CanPassThrough(m: Memory, dynamic: usize) returns (r: bool)
    ensures r <==> dynamic == 0 || exists n :: EndsAt(m, dynamic, n) && Idle(Dyns(m, dynamic, n))
  {
    if dynamic == 0 { return true; }
    var t := Parse(m, dynamic);
    r := t.Some? && t.value.rela.size == 0 && t.value.relr.size == 0 && !t.value.hasLifecycle;
    if n :| EndsAt(m, dynamic, n) { OneEnd(m, dynamic, n); }
  }

  predicate Idle(dyns: seq<Dyn>) {
    LastValue(dyns, DT_RELASZ, 0, false) == 0 && LastValue(dyns, DT_RELRSZ, 0, false) == 0 && !HasLifecycle(dyns)
  }

  // ----- Applying the relocations -----

  function RelaAt(m: Memory, table: usize, index: nat): Rela {
    var at := Plus(table, 24 * index);
    Rela(Read64(m, at), Read64(m, Plus(at, 8)) % 0x1_0000_0000, Read64(m, Plus(at, 16)))
  }

  function Relas(m: Memory, table: usize, n: nat): (r: seq<Rela>)
    ensures |r| == n && forall i :: 0 <= i < n ==> r[i] == RelaAt(m, table, i)
  {
    seq(n, i requires 0 <= i < n => RelaAt(m, table, i))
  }

  /** B + A at B + r_offset. */
  function ApplyOne(m: Memory, base: usize, r: Rela): Memory {
    if r.kind == R_RELATIVE then Write64(m, Plus(base, r.offset), Plus(base, r.addend)) else m
  }

  /** Every RELATIVE entry, in order. */
  function ApplyAll(m: Memory, base: usize, rels: seq<Rela>): Memory {
    if rels == [] then m else ApplyOne(ApplyAll(m, base, rels[..|rels| - 1]), base, rels[|rels| - 1])
  }

  /** `split`: the runs between NONE entries, empty ones included. */
  function Split(rels: seq<Rela>): (r: seq<seq<Rela>>)
    ensures r != []
  {
    if rels == [] then [[]]
    else
      var last, front := rels[|rels| - 1], Split(rels[..|rels| - 1]);
      if last.kind == R_NONE then front + [[]] else front[..|front| - 1] + [front[|front| - 1] + [last]]
  }

  predicate AllRelative(segment: seq<Rela>) {
    forall i :: 0 <= i < |segment| ==> segment[i].kind == R_RELATIVE
  }

  predicate Applicable(rels: seq<Rela>) {
    forall i :: 0 <= i < |rels| ==> rels[i].kind == R_NONE || rels[i].kind == R_RELATIVE
  }

  function ApplySegments(m: Memory, base: usize, segments: seq<seq<Rela>>): Memory {
    if segments == [] then m
    else ApplyAll(ApplySegments(m, base, segments[..|segments| - 1]), base, segments[|segments| - 1])
  }

  /** Segment by segment is one by one. */
  lemma {:induction false} SegmentsInOrder(m: Memory, base: usize, rels: seq<Rela>)
    ensures ApplySegments(m, base, Split(rels)) == ApplyAll(m, base, rels)
    decreases |rels|
  {
    hide ApplyOne;
    var segments := Split(rels);
    var n := |segments| - 1;
    if rels == [] {
      assert segments[..0] == [];
    } else {
      var last, before := rels[|rels| - 1], rels[..|rels| - 1];
      var front := Split(before);
      SegmentsInOrder(m, base, before);
      if last.kind == R_NONE {
        assert segments[..n] == front;
        NoneSkipped(ApplyAll(m, base, before), base, last);
      } else {
        assert segments[..n] == front[..n];
        assert segments[n][..|front[n]|] == front[n];
      }
    }
  }

  lemma NoneSkipped(m: Memory, base: usize, r: Rela)
    requires r.kind == R_NONE
    ensures ApplyOne(m, base, r) == m
  {
  }

  predicate AllSegments(segments: seq<seq<Rela>>) {
    forall i :: 0 <= i < |segments| ==> AllRelative(segments[i])
  }

  lemma AllSegmentsAppend(segments: seq<seq<Rela>>, s: seq<Rela>)
    ensures AllSegments(segments + [s]) <==> AllSegments(segments) && AllRelative(s)
  {
    assert forall i :: 0 <= i < |segments| ==> (segments + [s])[i] == segments[i];
    assert (segments + [s])[|segments|] == s;
  }

  lemma RelativeAppend(rels: seq<Rela>, r: Rela)
    ensures AllRelative(rels + [r]) <==> AllRelative(rels) && r.kind == R_RELATIVE
    ensures Applicable(rels + [r]) <==> Applicable(rels) && (r.kind == R_NONE || r.kind == R_RELATIVE)
  {
    assert (rels + [r])[..|rels|] == rels && (rels + [r])[|rels|] == r;
    assert forall i :: 0 <= i < |rels| ==> (rels + [r])[i] == rels[i];
  }

  /** The check made on each segment is one check on all entries. */
  lemma {:induction false} SegmentsApplicable(rels: seq<Rela>)
    ensures AllSegments(Split(rels)) <==> Applicable(rels)
    decreases |rels|
  {
    if rels != [] {
      var last, before := rels[|rels| - 1], rels[..|rels| - 1];
      var front := Split(before);
      var n := |front| - 1;
      hide AllRelative, Applicable, AllSegments;
      SegmentsApplicable(before);
      assert rels == before + [last] && front == front[..n] + [front[n]];
      RelativeAppend(before, last);
      RelativeAppend(front[n], last);
      EmptyRelative();
      AllSegmentsAppend(front, []);
      AllSegmentsAppend(front[..n], front[n]);
      AllSegmentsAppend(front[..n], front[n] + [last]);
    }
  }

  lemma EmptyRelative()
    ensures AllRelative([])
  {
  }

  lemma NoSegments(callees: Callees)
    ensures AllSegments([]) && AllAccepted([], callees)
  {
  }

  lemma EmptySegment(m: Memory, base: usize)
    ensures AllRelative([]) && ApplyAll(m, base, []) == m
  {
  }

  /** The external crate's part. `relocate_relative` may refuse a run of entries and then leaves memory in some
      state of its own; `relocate_relr` maps memory, table address and entry count to success and memory. */
  datatype Callees = Callees(
    accepts: seq<Rela> -> bool, leaves: (Memory, seq<Rela>) -> Memory, relr: (Memory, usize, nat) -> (bool, Memory))

  /** No run that is handed to `relocate_relative` is refused; empty ones are not. */
  predicate AllAccepted(segments: seq<seq<Rela>>, callees: Callees) {
    forall i :: 0 <= i < |segments| ==> segments[i] == [] || callees.accepts(segments[i])
  }

  lemma AllAcceptedAppend(segments: seq<seq<Rela>>, s: seq<Rela>, callees: Callees)
    ensures AllAccepted(segments + [s], callees) <==> AllAccepted(segments, callees) && (s == [] || callees.accepts(s))
  {
    assert forall i :: 0 <= i < |segments| ==> (segments + [s])[i] == segments[i];
    assert (segments + [s])[|segments|] == s;
  }

  /** Where a failed application stops: at the first run with another kind of entry, or that is refused. */
  ghost predicate StoppedAt(segments: seq<seq<Rela>>, k: nat, callees: Callees) {
    && k < |segments| && AllSegments(segments[..k]) && AllAccepted(segments[..k], callees)
    && (AllRelative(segments[k]) ==> segments[k] != [] && !callees.accepts(segments[k]))
  }

  /** What it leaves: the runs before that one applied, and for a refusal what the refusal leaves. */
  function LeftBehind(m: Memory, base: usize, segments: seq<seq<Rela>>, k: nat, callees: Callees): Memory
    requires k < |segments|
  {
    var applied := ApplySegments(m, base, segments[..k]);
    if AllRelative(segments[k]) then callees.leaves(applied, segments[k]) else applied
  }

  lemma StoppedShort(segments: seq<seq<Rela>>, k: nat, callees: Callees)
    requires StoppedAt(segments, k, callees)
    ensures !AllSegments(segments) || !AllAccepted(segments, callees)
  {
  }

  class BootstrapMemory {
    const loadBias: usize
    var bytes: Memory

    constructor (loadBias: usize, bytes: Memory)
      ensures this.loadBias == loadBias && this.bytes == bytes
    {
      this.loadBias := loadBias;
      this.bytes := bytes;
    }

    /** `relocate_relative`, on a run it accepts. */
    method RelocateRelative(rels: seq<Rela>)
      requires AllRelative(rels)
      modifies this
      ensures bytes == ApplyAll(old(bytes), loadBias, rels)
    {
      for i := 0 to |rels|
        invariant bytes == ApplyAll(old(bytes), loadBias, rels[..i])
      {
        assert rels[..i + 1][..i] == rels[..i];
        bytes := Write64(bytes, Plus(loadBias, rels[i].offset), Plus(loadBias, rels[i].addend));
      }
      assert rels[..|rels|] == rels;
    }

    /** The `rela` half of `apply`. A failure leaves the segments before the offending one applied. */
    method ApplyRelas(relocations: seq<Rela>, callees: Callees) returns (ok: bool)
      modifies this
      ensures ok <==> Applicable(relocations) && AllAccepted(Split(relocations), callees)
      ensures ok ==> bytes == ApplyAll(old(bytes), loadBias, relocations)
      ensures !ok ==> exists k: nat :: StoppedAt(Split(relocations), k, callees)
                                       && bytes == LeftBehind(old(bytes), loadBias, Split(relocations), k, callees)
    {
      hide AllRelative, Applicable, AllSegments, AllAccepted, Split, ApplyAll;
      SegmentsInOrder(bytes, loadBias, relocations);
      SegmentsApplicable(relocations);
      var segments := Split(relocations);
      NoSegments(callees);
      for i: nat := 0 to |segments|
        invariant bytes == ApplySegments(old(bytes), loadBias, segments[..i])
        invariant AllSegments(segments[..i]) && AllAccepted(segments[..i], callees)
      {
        assert segments[..i + 1] == segments[..i] + [segments[i]];
        AllSegmentsAppend(segments[..i], segments[i]);
        AllAcceptedAppend(segments[..i], segments[i], callees);
        var relative := segments[i];
        EmptySegment(bytes, loadBias);
        if relative == [] { continue; }
        if !AllRelative(relative) {
          StoppedShort(segments, i, callees);
          assert bytes == LeftBehind(old(bytes), loadBias, segments, i, callees);
          return false;
        }
        if !callees.accepts(relative) {
          bytes := callees.leaves(bytes, relative);
          StoppedShort(segments, i, callees);
          assert bytes == LeftBehind(old(bytes), loadBias, segments, i, callees);
          return false;
        }
        RelocateRelative(relative);
      }
      assert segments[..|segments|] == segments;
      ok := true;
    }

    /** `apply`. */
    method Apply(t: Tables, callees: Callees) returns (ok: bool)
      requires t.rela.entrySize == SIZE_OF_RELA && t.relr.entrySize == SIZE_OF_RELR
      modifies this
      ensures ok <==>
                Appliable(RelasOf(old(bytes), t, loadBias), callees) && Relocated(old(bytes), t, loadBias, callees).0
      ensures ok ==> bytes == Relocated(old(bytes), t, loadBias, callees).1
    {
      hide Applicable, AllAccepted, ApplyAll, Split;
      NoRelas(bytes, loadBias, callees);
      ok := true;
      if t.rela.size != 0 {
        var relocations := Relas(bytes, Plus(loadBias, t.rela.offset), t.rela.size / t.rela.entrySize);
        ok := ApplyRelas(relocations, callees);
        if !ok { return; }
      } else {
        assert RelasOf(bytes, t, loadBias) == [];
      }
      if t.relr.size == 0 { return; }
      var result := callees.relr(bytes, Plus(loadBias, t.relr.offset), t.relr.size / t.relr.entrySize);
      ok, bytes := result.0, result.1;
    }

    /** `relocate`. With nothing refused and without RELR entries it succeeds exactly when the section ends in
        time, holds nothing forbidden and describes well-formed tables, and every RELA entry is NONE or
        RELATIVE. */
    method Relocate(dynamic: usize, callees: Callees) returns (ok: bool)
      modifies this
      ensures ok <==>
              dynamic != 0
              && exists n :: EndsAt(old(bytes), dynamic, n)
                             && Relocatable(old(bytes), Described(Dyns(old(bytes), dynamic, n)), loadBias, callees)
      ensures ok ==> forall n :: EndsAt(old(bytes), dynamic, n) ==>
                       bytes == Relocated(old(bytes), Described(Dyns(old(bytes), dynamic, n)), loadBias, callees).1
      ensures ok ==> forall n :: EndsAt(old(bytes), dynamic, n) ==>
                       WordsRelocated(old(bytes), Described(Dyns(old(bytes), dynamic, n)), loadBias, bytes)
    {
      hide Relocated, Appliable, Described, Dyns, EndsAt, WordsRelocated;
      ghost var m := bytes;
      var t := Parse(bytes, dynamic);
      if n :| EndsAt(m, dynamic, n) { OneEnd(m, dynamic, n); }
      if t.None? { return false; }
      ok := Apply(t.value, callees);
      forall n | EndsAt(m, dynamic, n)
        ensures Relocated(m, Described(Dyns(m, dynamic, n)), loadBias, callees)
             == Relocated(m, t.value, loadBias, callees)
        ensures RelasOf(m, Described(Dyns(m, dynamic, n)), loadBias) == RelasOf(m, t.value, loadBias)
      {
        SameTables(m, Described(Dyns(m, dynamic, n)), t.value, loadBias, callees);
      }
      forall n | EndsAt(m, dynamic, n)
        ensures ok ==> WordsRelocated(m, Described(Dyns(m, dynamic, n)), loadBias, bytes)
      {
        WordsAreRelocated(m, Described(Dyns(m, dynamic, n)), loadBias, callees);
      }
    }
  }

  lemma NoRelas(m: Memory, base: usize, callees: Callees)
    ensures Appliable([], callees) && ApplyAll(m, base, []) == m
  {
  }

  lemma SameTables(m: Memory, t: Tables, v: Tables, base: usize, callees: Callees)
    requires Validated(t) == Some(v)
    ensures Relocated(m, t, base, callees) == Relocated(m, v, base, callees)
    ensures RelasOf(m, t, base) == RelasOf(m, v, base)
  {
  }

  /** The relocation entries the tables describe. */
  function RelasOf(m: Memory, t: Tables, base: usize): seq<Rela> {
    Relas(m, Plus(base, t.rela.offset), t.rela.size / SIZE_OF_RELA)
  }

  predicate WellFormed(t: Table, entrySize: usize)
    requires entrySize > 0
  {
    t.size != 0 ==> t.offset != 0 && t.entrySize == entrySize && t.size % entrySize == 0
  }

  /** Entries that are all NONE or RELATIVE, in runs that are all accepted. */
  predicate Appliable(rels: seq<Rela>, callees: Callees) {
    Applicable(rels) && AllAccepted(Split(rels), callees)
  }

  /** Well-formed tables, RELA entries that can be applied, and RELR entries that decode. */
  ghost predicate Relocatable(m: Memory, t: Tables, base: usize, callees: Callees) {
    && WellFormed(t.rela, SIZE_OF_RELA) && WellFormed(t.relr, SIZE_OF_RELR)
    && Appliable(RelasOf(m, t, base), callees) && Relocated(m, t, base, callees).0
  }

  /** Memory after the RELA entries, each RELATIVE one in order, and then the RELR entries. */
  ghost function Relocated(m: Memory, t: Tables, base: usize, callees: Callees): (bool, Memory) {
    var applied := ApplyAll(m, base, RelasOf(m, t, base));
    if t.relr.size == 0 then (true, applied)
    else callees.relr(applied, Plus(base, t.relr.offset), t.relr.size / SIZE_OF_RELR)
  }

  // ----- What applying means -----

  /** A place that no RELATIVE entry overlaps keeps its value. */
  lemma {:induction false} Untouched(m: Memory, base: usize, rels: seq<Rela>, place: usize)
    requires forall i :: 0 <= i < |rels| && rels[i].kind == R_RELATIVE ==> Apart(Plus(base, rels[i].offset), place)
    ensures Read64(ApplyAll(m, base, rels), place) == Read64(m, place)
    decreases |rels|
  {
    if rels != [] {
      var n := |rels| - 1;
      Untouched(m, base, rels[..n], place);
      if rels[n].kind == R_RELATIVE {
        ReadApart(ApplyAll(m, base, rels[..n]), Plus(base, rels[n].offset), Plus(base, rels[n].addend), place);
      }
    }
  }

  /** A RELATIVE entry whose place no later one overlaps leaves the load bias plus its addend there. */
  lemma {:induction false} AppliedValue(m: Memory, base: usize, rels: seq<Rela>, i: nat)
    requires i < |rels| && rels[i].kind == R_RELATIVE
    requires forall j :: i < j < |rels| && rels[j].kind == R_RELATIVE ==>
               Apart(Plus(base, rels[j].offset), Plus(base, rels[i].offset))
    ensures Read64(ApplyAll(m, base, rels), Plus(base, rels[i].offset)) == Plus(base, rels[i].addend)
    decreases |rels|
  {
    var n := |rels| - 1;
    var before := ApplyAll(m, base, rels[..n]);
    if i == n {
      ReadWritten(before, Plus(base, rels[n].offset), Plus(base, rels[n].addend));
    } else {
      AppliedValue(m, base, rels[..n], i);
      if rels[n].kind == R_RELATIVE {
        ReadApart(before, Plus(base, rels[n].offset), Plus(base, rels[n].addend), Plus(base, rels[i].offset));
      }
    }
  }

  // ----- The same in words of memory -----

  /** Where the table's entries lie: records of three words, offset, info and addend (section 4.4 of the psABI). */
  function RecordAt(t: Tables, base: usize, i: nat): usize {
    Plus(Plus(base, t.rela.offset), 24 * i)
  }

  /** The low half of the info word says RELATIVE. */
  predicate SaysRelative(m: Memory, record: usize) {
    Read64(m, Plus(record, 8)) % 0x1_0000_0000 == 8
  }

  /** The word that the record asks to be relocated. */
  function Target(m: Memory, base: usize, record: usize): usize {
    Plus(base, Read64(m, record))
  }

  /** Without RELR entries: the word at base plus the first word of a RELATIVE record is now base plus its third word,
      unless a later record overlaps it, and a word that no record asks for is as it was. */
  ghost predicate WordsRelocated(m: Memory, t: Tables, base: usize, m': Memory) {
    t.relr.size == 0 ==>
      var count := t.rela.size / 24;
      && (forall i: nat :: i < count && SaysRelative(m, RecordAt(t, base, i)) && LastFor(m, t, base, i) ==>
            Read64(m', Target(m, base, RecordAt(t, base, i))) == Plus(base, Read64(m, Plus(RecordAt(t, base, i), 16))))
      && (forall place: usize :: NotAskedFor(m, t, base, place) ==> Read64(m', place) == Read64(m, place))
  }

  /** No later record overlaps the target of this one. */
  ghost predicate LastFor(m: Memory, t: Tables, base: usize, i: nat) {
    forall j: nat :: i < j < t.rela.size / 24 && SaysRelative(m, RecordAt(t, base, j)) ==>
                       Apart(Target(m, base, RecordAt(t, base, j)), Target(m, base, RecordAt(t, base, i)))
  }

  ghost predicate NotAskedFor(m: Memory, t: Tables, base: usize, place: usize) {
    forall j: nat :: j < t.rela.size / 24 && SaysRelative(m, RecordAt(t, base, j)) ==>
                       Apart(Target(m, base, RecordAt(t, base, j)), place)
  }

  /** What is applied is what the records say. */
  lemma RecordDecodes(m: Memory, t: Tables, base: usize, i: nat)
    requires i < t.rela.size / 24
    ensures |RelasOf(m, t, base)| == t.rela.size / 24
    ensures var r, at := RelasOf(m, t, base)[i], RecordAt(t, base, i);
            && (r.kind == R_RELATIVE <==> SaysRelative(m, at))
            && Plus(base, r.offset) == Target(m, base, at) && r.addend == Read64(m, Plus(at, 16))
  {
    hide Read64, Plus;
  }

  lemma WordsAreRelocated(m: Memory, t: Tables, base: usize, callees: Callees)
    ensures WordsRelocated(m, t, base, Relocated(m, t, base, callees).1)
  {
    if t.relr.size == 0 {
      var rels := RelasOf(m, t, base);
      var count := t.rela.size / 24;
      forall i: nat | i < count
        ensures |rels| == count
        ensures rels[i].kind == R_RELATIVE <==> SaysRelative(m, RecordAt(t, base, i))
        ensures Plus(base, rels[i].offset) == Target(m, base, RecordAt(t, base, i))
        ensures rels[i].addend == Read64(m, Plus(RecordAt(t, base, i), 16))
      {
        RecordDecodes(m, t, base, i);
      }
      RelocatedIsApplied(m, t, base, callees);
      hide Read64, Plus, Target, RecordAt, SaysRelative, ApplyAll, Relocated, RelasOf, Apart;
      forall i: nat | i < count && SaysRelative(m, RecordAt(t, base, i)) && LastFor(m, t, base, i)
        ensures Read64(ApplyAll(m, base, rels), Target(m, base, RecordAt(t, base, i)))
             == Plus(base, Read64(m, Plus(RecordAt(t, base, i), 16)))
      {
        AppliedValue(m, base, rels, i);
      }
      forall place: usize | NotAskedFor(m, t, base, place)
        ensures Read64(ApplyAll(m, base, rels), place) == Read64(m, place)
      {
        Untouched(m, base, rels, place);
      }
    }
  }

  lemma RelocatedIsApplied(m: Memory, t: Tables, base: usize, callees: Callees)
    requires t.relr.size == 0
    ensures Relocated(m, t, base, callees).1 == ApplyAll(m, base, RelasOf(m, t, base))
    ensures |RelasOf(m, t, base)| == t.rela.size / 24
  {
  }
}

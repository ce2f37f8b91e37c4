/** Sizes and alignments that the runtime asks the allocator for, and what it gives back. */
module TlsBlocks {
  import opened Bytes
  import opened Usize
  import opened TlsLayout
  import opened TlsState
  import opened TlsInvariant
  import opened TlsRegister
  import opened TlsPublish
  import opened TlsThreads
  import opened TlsRuns
  import opened TlsTheorems
  import opened TlsLookups

  // ----- Layouts -----

  lemma {:induction false} AndSelf(x: nat)
    ensures And(x, x) == x
  {
    if x > 0 {
      AndUnfold(x, x);
      AndSelf(x / 2);
    }
  }

  /** The usual test for a power of two. */
  lemma {:induction false} NoCommonBitBelow(x: nat)
    requires x > 0 && And(x, x - 1) == 0
    ensures IsPow2(x)
  {
    AndUnfold(x, x - 1);
    AndSelf(x / 2);
    hide And;
    assert (x - 1) / 2 == if x % 2 == 1 then x / 2 else x / 2 - 1;
    if x == 1 {
      assert Pow2(0) == 1;
    } else if x % 2 == 0 {
      NoCommonBitBelow(x / 2);
      var k: nat :| Pow2(k) == x / 2;
      assert Pow2(k + 1) == x;
    }
  }

  lemma HalfWordIsPow2()
    ensures IsPow2(ISIZE_MAX + 1)
  {
    WordIsPow2();
    assert Pow2(64) == 2 * Pow2(63);
    assert Pow2(63) == ISIZE_MAX + 1;
  }

  /** `k` is a size of whole alignment units, at least `size`, that a layout may have. */
  ghost predicate Padded(k: nat, size: nat, align: nat) {
    size <= k <= ISIZE_MAX && Multiple(k, align)
  }

  /** A layout is representable exactly when its alignment is a power of two and its size, rounded up to the
      alignment, is at most `isize::MAX`. */
  lemma MakeLayoutExactly(size: usize, align: usize)
    ensures MakeLayout(size, align).Some? <==> IsPow2(align) && exists k: nat :: Padded(k, size, align)
    ensures MakeLayout(size, align).Some? ==> MakeLayout(size, align) == Some(Layout(size, align))
  {
    assert IsPow2(align) ==> align > 0 by { if IsPow2(align) { WordAligned(align); } }
    if align > 0 && And(align, align - 1) == 0 { NoCommonBitBelow(align); }
    if IsPow2(align) {
      MaskRoundsDown(align, align);
      HalfWord(align);
      PaddedExactly(size, align);
    }
    hide And, IsPow2, Padded;
  }

  lemma HalfWord(align: usize)
    requires IsPow2(align)
    ensures 0 < align <= ISIZE_MAX + 1 && Multiple(ISIZE_MAX + 1, align)
  {
    var k := WordPow2(align);
    HalfWordIsPow2();
    WordIsPow2();
    Pow2Monotonic(k, 63);
    assert Pow2(64) == 2 * Pow2(63);
    Pow2Divides(align, ISIZE_MAX + 1);
  }

  lemma PaddedExactly(size: usize, align: usize)
    requires IsPow2(align) && 0 < align <= ISIZE_MAX + 1 && Multiple(ISIZE_MAX + 1, align)
    ensures (exists k: nat :: Padded(k, size, align)) <==> size <= ISIZE_MAX + 1 - align
  {
    if k: nat :| Padded(k, size, align) { MultiplesApart(k, ISIZE_MAX + 1, align); }
    if size <= ISIZE_MAX + 1 - align {
      AlignUpExact(size, align);
      hide IsPow2, Multiple;
      assert AlignUp(size, align).Some? by { assert Fits(ISIZE_MAX + 1, size, 0, align); }
      assert Padded(AlignUp(size, align).value, size, align);
    }
  }

  /** `align` is the least power of two not below `wanted`, or 1 where no word is. */
  ghost predicate AlignFor(align: nat, wanted: nat) {
    && IsPow2(align)
    && (wanted <= ISIZE_MAX + 1 ==> wanted <= align && forall b: nat :: IsPow2(b) && wanted <= b ==> align <= b)
    && (wanted > ISIZE_MAX + 1 ==> align == 1)
  }

  lemma NextPow2Least(x: usize)
    ensures AlignFor(match NextPow2(Max(x, 1)) case Some(a) => a case None => 1, x)
  {
    assert Pow2(0) == 1 && IsPow2(1);
    var r := NextPow2(Max(x, 1));
    if r.Some? {
      forall b: nat | IsPow2(b) && x <= b
        ensures r.value <= b
      {
        Pow2Positive(b);
        if b < r.value { Pow2Divides(b, r.value); }
      }
    }
  }

  lemma Pow2Positive(b: nat)
    requires IsPow2(b)
    ensures b >= 1
  {
  }

  /** The layout of a module's block in a thread: its size, or one byte, and the alignment the module asks for, rounded
      up to a power of two. It exists exactly when the padded size is representable. */
  lemma DynamicLayoutExactly(info: TlsInfo, align: nat)
    requires AlignFor(align, info.align)
    ensures DynamicLayout(info).Some? <==> exists k: nat :: Padded(k, Max(info.memsz, 1), align)
    ensures DynamicLayout(info).Some? ==>
              && DynamicLayout(info).value.align == align
              && DynamicLayout(info).value.size == if info.memsz == 0 then 1 else info.memsz
  {
    NextPow2Least(info.align);
    var a: usize := match NextPow2(Max(info.align, 1)) case Some(a) => a case None => 1;
    assert a == align;
    MakeLayoutExactly(Max(info.memsz, 1), a);
    hide MakeLayout, IsPow2, Padded, NextPow2;
  }

  /** Every alignment has exactly one such rounding. */
  lemma AlignExists(wanted: usize) returns (align: nat)
    ensures AlignFor(align, wanted)
  {
    NextPow2Least(wanted);
    align := match NextPow2(Max(wanted, 1)) case Some(a) => a case None => 1;
  }

  // ----- Alignment of a block's address -----

  /** The module's alignment, where it is a power of two, and every smaller power divides the address. */
  ghost predicate AlignedFor(info: TlsInfo, address: int) {
    forall b: nat :: IsPow2(b) && b <= info.align <= ISIZE_MAX + 1 ==> Multiple(address, b)
  }

  lemma LayoutAligns(info: TlsInfo, ptr: nat)
    requires DynamicLayout(info).Some? && Multiple(ptr, DynamicLayout(info).value.align)
    ensures AlignedFor(info, ptr)
  {
    var align := AlignExists(info.align);
    DynamicLayoutExactly(info, align);
    hide DynamicLayout;
    forall b: nat | IsPow2(b) && b <= info.align <= ISIZE_MAX + 1
      ensures Multiple(ptr, b)
    {
      Pow2Divides(b, align);
      MultipleThrough(ptr, align, b);
    }
  }

  /** A first access answers with a block aligned for its module, if the allocator aligns as asked; and so does every
      later access up to the thread's next reset, whatever else happens. */
  lemma AddressAligned(s: Tls, s1: Tls, r: int, tp: nat, id: nat, first: nat, ptr: nat, ops: seq<Op>, later: nat,
                       ptr': nat)
    requires Inv(s) && tp in s.storage && PtrFresh(s, ptr) && Lookup(s, id).Some? && Lookup(s, id).value.Dynamic?
    requires DtvsOk(s) && DtvValue(s, tp, id).None?
    requires DynamicLayout(Lookup(s, id).value.info).Some? ==>
               Multiple(ptr, DynamicLayout(Lookup(s, id).value.info).value.align)
    requires (s1, r) == GetAddr(s, tp, id, first, ptr) && r != 0
    requires Inv(s1) && RunOk(s1, ops) && (forall op :: op in ops ==> !Resets(op, tp))
    requires Lookup(Run(s1, ops), id).Some?
    ensures r == ptr + first && AlignedFor(Lookup(s, id).value.info, ptr)
    ensures Answers(Run(s1, ops), tp, id, later, ptr', ptr + later)
  {
    hide Inv, MemoryOk, TablesOk, Resolvable, HasValue, Recorded, Answers, RunOk, Run, GetAddr, DynamicLayout,
         AlignedFor, DtvsOk, DtvValue, Resets;
    FirstAccess(s, tp, id, first, ptr);
    LayoutAligns(Lookup(s, id).value.info, ptr);
    AddressStable(s, s1, r, tp, id, first, ptr, ops, later, ptr');
  }

  lemma FirstAccess(s: Tls, tp: nat, id: nat, first: nat, ptr: nat)
    requires Inv(s) && tp in s.storage && PtrFresh(s, ptr) && Lookup(s, id).Some? && Lookup(s, id).value.Dynamic?
    requires DtvsOk(s) && DtvValue(s, tp, id).None? && GetAddr(s, tp, id, first, ptr).1 != 0
    ensures GetAddr(s, tp, id, first, ptr).1 == ptr + first && DynamicLayout(Lookup(s, id).value.info).Some?
  {
    GetAddrDynamic(s, tp, id, first, ptr);
    hide Inv, DynamicLayout, DtvValue, GetAddr, DtvsOk;
  }
}

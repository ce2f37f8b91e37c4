/** The pure arithmetic of the static TLS layout (variant II: blocks lie below the thread pointer). */
module TlsLayout {
  import opened Usize

  const STATIC_TLS_ARENA_SIZE: usize := 1024 * 1024
  const TLS_TCB_SIZE: usize := 2368
  const TLS_TCB_ALIGN: usize := 64
  const RSEQ_AREA_SIZE: usize := 32
  const RSEQ_AREA_ALIGN: usize := 32

  function AlignUp(value: usize, align: usize): Option<usize>
    requires align >= 1
  {
    match CheckedAdd(value, align - 1)
    case None => None
    case Some(sum) =>
      AndBounded(sum, Not(align - 1));
      Some(And(sum, Not(align - 1)))
  }

  function StaticModuleEnd(used: usize, memsz: usize, vaddr: usize, align: usize): Option<usize>
    requires align >= 1
  {
    AndBounded(WrappingNeg(vaddr), align - 1);
    var firstbyte: usize := And(WrappingNeg(vaddr), align - 1);
    match CheckedAdd(used, memsz)
    case None => None
    case Some(minEnd) =>
      match AlignUp(SaturatingSub(minEnd, firstbyte), align)
      case None => None
      case Some(aligned) =>
        match CheckedAdd(aligned, firstbyte)
        case None => None
        case Some(end) => if end < minEnd then CheckedAdd(end, align) else Some(end)
  }

  function StaticUsedWithRseq(used: usize): Option<usize> {
    match AlignUp(used, RSEQ_AREA_ALIGN)
    case None => None
    case Some(u) => CheckedAdd(u, RSEQ_AREA_SIZE)
  }

  /** `x` is the least value not below `lo` for which `x + shift` is a multiple of `align`. */
  ghost predicate LeastCongruent(x: nat, lo: nat, shift: nat, align: nat) {
    && Fits(x, lo, shift, align)
    && forall y: nat :: Fits(y, lo, shift, align) ==> x <= y
  }

  ghost predicate Fits(y: nat, lo: nat, shift: nat, align: nat) {
    lo <= y && Multiple(y + shift, align)
  }

  ghost predicate NoWordFits(lo: nat, shift: nat, align: nat) {
    forall y: nat :: Fits(y, lo, shift, align) ==> y > MAX
  }

  lemma CongruentIsLeast(x: nat, lo: nat, shift: nat, align: nat)
    requires align > 0 && Fits(x, lo, shift, align) && x < lo + align
    ensures LeastCongruent(x, lo, shift, align)
  {
    forall y: nat | Fits(y, lo, shift, align)
      ensures x <= y
    {
      if y < x { MultiplesApart(y + shift, x + shift, align); }
    }
  }

  /** Every power-of-two alignment that fits a word divides the size of the address space. */
  lemma WordAligned(align: usize)
    requires IsPow2(align)
    ensures 1 <= align && Multiple(WORD, align)
  {
    var k := WordPow2(align);
    WordIsPow2();
    Pow2Monotonic(k, 64);
  }

  /** Mask rounding is rounding by division; it fails exactly when no multiple fits in a word. */
  lemma AlignUpExact(value: usize, align: usize)
    requires IsPow2(align)
    ensures align >= 1
    ensures AlignUp(value, align).Some? ==>
              var r := AlignUp(value, align).value;
              r == ((value + align - 1) / align) * align && LeastCongruent(r, value, 0, align) && r < value + align
    ensures AlignUp(value, align).None? <==> NoWordFits(value, 0, align)
  {
    WordAligned(align);
    var sum := value + align - 1;
    if sum <= MAX {
      MaskRoundsDown(sum, align);
      MultipleRemainder(sum, align);
      DivMod(sum, align);
      CongruentIsLeast(sum - sum % align, value, 0, align);
      assert Fits(sum - sum % align, value, 0, align);
    } else {
      forall y: nat | Fits(y, value, 0, align)
        ensures y > MAX
      {
        if y < WORD { MultiplesApart(y, WORD, align); }
      }
    }
  }

  /** The low bits of the wrapped negation complete `vaddr` to a multiple of the alignment. */
  lemma FirstByte(vaddr: usize, align: usize)
    requires IsPow2(align)
    ensures align >= 1
    ensures And(WrappingNeg(vaddr), align - 1) < align
    ensures Multiple(And(WrappingNeg(vaddr), align - 1) + vaddr, align)
  {
    WordAligned(align);
    var n := WrappingNeg(vaddr);
    MaskRoundsDown(n, align);
    MultipleRemainder(n, align);
    DivMod(n, align);
    var fb := And(n, align - 1);
    MultipleOfItself(align);
    hide And, Multiple, Times;
    assert Multiple(n - fb, align) && fb < align;
    if vaddr == 0 {
      MultipleAlgebra(n, n - fb, align);
      assert n - (n - fb) == fb;
    } else {
      MultipleAlgebra(WORD, n - fb, align);
      assert WORD - (n - fb) == fb + vaddr;
    }
  }

  /** The computed end is exactly the least one that fits the block below `used` with its first byte
      congruent to `vaddr`; failure means that no such end is a machine word. */
  lemma StaticModuleEndExact(used: usize, memsz: usize, vaddr: usize, align: usize)
    requires IsPow2(align)
    ensures align >= 1
    ensures StaticModuleEnd(used, memsz, vaddr, align).Some? ==>
              LeastCongruent(StaticModuleEnd(used, memsz, vaddr, align).value, used + memsz, vaddr, align)
    ensures StaticModuleEnd(used, memsz, vaddr, align).None? <==> NoWordFits(used + memsz, vaddr, align)
  {
    StaticModuleEndCorrectionIsDead(used, memsz, vaddr, align);
    var fb := And(WrappingNeg(vaddr), align - 1);
    FirstByte(vaddr, align);
    var minEnd := used + memsz;
    if minEnd <= MAX {
      var base := SaturatingSub(minEnd, fb);
      AlignUpExact(base, align);
      match AlignUp(base, align)
      case Some(up) =>
        MultipleAlgebra(up, fb + vaddr, align);
        assert up + fb + vaddr == up + (fb + vaddr);
        if minEnd < fb {
          MultipleOfItself(align);
          assert Fits(0, 0, 0, align);
        }
        assert Fits(up + fb, minEnd, vaddr, align);
        CongruentIsLeast(up + fb, minEnd, vaddr, align);
      case None =>
        forall end: nat | Fits(end, minEnd, vaddr, align)
          ensures end > MAX
        {
          MultipleAlgebra(end + vaddr, fb + vaddr, align);
          if end < fb {
            MultiplesApart(end + vaddr, fb + vaddr, align);
          } else {
            assert Fits(end - fb, base, 0, align);
          }
        }
    }
  }

  /** The two late checks of the computation never fire: adding the first byte cannot overflow,
      and the end is never below the space that must be covered. */
  lemma StaticModuleEndCorrectionIsDead(used: usize, memsz: usize, vaddr: usize, align: usize)
    requires IsPow2(align)
    ensures align >= 1 && And(WrappingNeg(vaddr), align - 1) < align
    ensures used + memsz <= MAX ==>
              var fb := And(WrappingNeg(vaddr), align - 1);
              match AlignUp(SaturatingSub(used + memsz, fb), align)
              case None => true
              case Some(aligned) => used + memsz <= aligned + fb <= MAX
  {
    FirstByte(vaddr, align);
    WordAligned(align);
    var fb := And(WrappingNeg(vaddr), align - 1);
    if used + memsz <= MAX {
      var base := SaturatingSub(used + memsz, fb);
      AlignUpExact(base, align);
      match AlignUp(base, align)
      case None =>
      case Some(aligned) => MultiplesApart(aligned, WORD, align);
    }
  }
}

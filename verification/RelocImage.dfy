/** The loader's own tables as an image holds them: records of words, written and read back. */
module RelocImage {
  import opened Bytes
  import opened Usize
  import opened SelfReloc

  // ----- Records -----

  lemma PlusPlus(a: usize, i: nat, j: nat)
    ensures Plus(Plus(a, i), j) == Plus(a, i + j)
  {
  }

  lemma WordsApart(a: usize, i: nat, j: nat)
    requires i + 8 <= j < i + 64
    ensures Apart(Plus(a, i), Plus(a, j)) && Apart(Plus(a, j), Plus(a, i))
  {
  }

  /** Two words, one after the other. */
  function WritePair(m: Memory, at: usize, first: usize, second: usize): Memory {
    Write64(Write64(m, at, first), Plus(at, 8), second)
  }

  lemma PairRead(m: Memory, at: usize, first: usize, second: usize)
    ensures Read64(WritePair(m, at, first, second), at) == first
    ensures Read64(WritePair(m, at, first, second), Plus(at, 8)) == second
  {
    PlusPlus(at, 0, 8);
    WordsApart(at, 0, 8);
    ReadWritten(m, at, first);
    ReadApart(Write64(m, at, first), Plus(at, 8), second, at);
    ReadWritten(Write64(m, at, first), Plus(at, 8), second);
  }

  /** Tag and value of a dynamic entry, written at its place, are read back as that entry. */
  lemma DynReads(m: Memory, dynamic: usize, i: nat, tag: usize, value: usize)
    ensures DynAt(WritePair(m, Plus(dynamic, 16 * i), tag, value), dynamic, i) == Dyn(tag, value)
  {
    hide Read64, Write64, WritePair, Plus;
    PlusPlus(dynamic, 16 * i, 8);
    PairRead(m, Plus(dynamic, 16 * i), tag, value);
  }

  /** Three words, one after the other. */
  function WriteRecord(m: Memory, at: usize, offset: usize, info: usize, addend: usize): Memory {
    Write64(WritePair(m, at, offset, info), Plus(at, 16), addend)
  }

  /** Offset, info and addend of a relocation record, written at its place, are read back as that entry; its kind is
      the low half of info. */
  lemma RelaReads(m: Memory, table: usize, i: nat, offset: usize, info: usize, addend: usize)
    ensures RelaAt(WriteRecord(m, Plus(table, 24 * i), offset, info, addend), table, i)
         == Rela(offset, info % 0x1_0000_0000, addend)
  {
    var at := Plus(table, 24 * i);
    var pair := WritePair(m, at, offset, info);
    PlusPlus(at, 0, 0);
    WordsApart(at, 0, 16);
    WordsApart(at, 8, 16);
    hide Read64, Write64, WritePair, Plus, Apart;
    PairRead(m, at, offset, info);
    AtZero(at);
    ReadApart(pair, Plus(at, 16), addend, at);
    ReadApart(pair, Plus(at, 16), addend, Plus(at, 8));
    ReadWritten(pair, Plus(at, 16), addend);
  }

  lemma AtZero(at: usize)
    ensures Plus(at, 0) == at
  {
  }

  // ----- The dynamic section -----

  /** Entry `i` is the last one with this tag that counts. */
  predicate LastWith(dyns: seq<Dyn>, tag: usize, nonZero: bool, i: nat) {
    && i < |dyns| && dyns[i].tag == tag && !(nonZero && dyns[i].value == 0)
    && forall j :: i < j < |dyns| ==> dyns[j].tag != tag || (nonZero && dyns[j].value == 0)
  }

  /** The value found is the one of the last entry that counts, and the default exactly if there is none. */
  lemma {:induction false} LastValueMeans(dyns: seq<Dyn>, tag: usize, before: usize, nonZero: bool)
    ensures forall i: nat :: LastWith(dyns, tag, nonZero, i) ==> LastValue(dyns, tag, before, nonZero) == dyns[i].value
    ensures (forall i: nat :: !LastWith(dyns, tag, nonZero, i)) ==> LastValue(dyns, tag, before, nonZero) == before
    decreases |dyns|
  {
    if dyns != [] {
      var n: nat := |dyns| - 1;
      LastValueMeans(dyns[..n], tag, before, nonZero);
      if dyns[n].tag == tag && !(nonZero && dyns[n].value == 0) {
        assert LastWith(dyns, tag, nonZero, n);
      } else {
        forall i: nat
          ensures LastWith(dyns[..n], tag, nonZero, i) <==> LastWith(dyns, tag, nonZero, i)
        {
        }
        forall i: nat | LastWith(dyns, tag, nonZero, i)
          ensures LastValue(dyns, tag, before, nonZero) == dyns[i].value
        {
          assert LastWith(dyns[..n], tag, nonZero, i);
        }
      }
    }
  }

  /** The words at entry `i` of a dynamic section. */
  predicate EntryWords(m: Memory, dynamic: usize, i: nat, tag: usize, value: usize) {
    Read64(m, Plus(dynamic, 16 * i)) == tag && Read64(m, Plus(dynamic, 16 * i + 8)) == value
  }

  /** A section of six table entries and a terminator, by the numbers the psABI and gABI give the tags: where its tables
      are, and that it ends. */
  lemma SectionDescribes(m: Memory, dynamic: usize, rela: usize, relaSize: usize, relr: usize, relrSize: usize)
    requires EntryWords(m, dynamic, 0, 7, rela) && EntryWords(m, dynamic, 1, 8, relaSize)
    requires EntryWords(m, dynamic, 2, 9, 24)
    requires EntryWords(m, dynamic, 3, 36, relr) && EntryWords(m, dynamic, 4, 35, relrSize)
    requires EntryWords(m, dynamic, 5, 37, 8) && EntryWords(m, dynamic, 6, 0, 0)
    ensures EndsAt(m, dynamic, 6)
    ensures Described(Dyns(m, dynamic, 6)) == Tables(Table(rela, relaSize, 24), Table(relr, relrSize, 8), false)
  {
    hide Read64, Plus;
    var dyns := Dyns(m, dynamic, 6);
    assert dyns == [Dyn(7, rela), Dyn(8, relaSize), Dyn(9, 24), Dyn(36, relr), Dyn(35, relrSize), Dyn(37, 8)];
    SixEntries(rela, relaSize, relr, relrSize);
  }

  lemma SixEntries(rela: usize, relaSize: usize, relr: usize, relrSize: usize)
    ensures Described([Dyn(7, rela), Dyn(8, relaSize), Dyn(9, 24), Dyn(36, relr), Dyn(35, relrSize), Dyn(37, 8)])
         == Tables(Table(rela, relaSize, 24), Table(relr, relrSize, 8), false)
  {
    hide Described, LastValue, HasLifecycle;
    DescribedNone();
    var six := [Dyn(7, rela), Dyn(8, relaSize), Dyn(9, 24), Dyn(36, relr), Dyn(35, relrSize), Dyn(37, 8)];
    assert six[..6] == six && six[..0] == [];
    for i := 0 to 6
      invariant Described(six[..i]) == Tables(
                  Table(if i > 0 then rela else 0, if i > 1 then relaSize else 0, 24),
                  Table(if i > 3 then relr else 0, if i > 4 then relrSize else 0, 8), false)
    {
      assert six[..i + 1] == six[..i] + [six[i]];
      DescribedStep(six[..i], six[i]);
    }
  }

  /** The entries that rule a self-relocating object out are DT_NEEDED, and DT_JMPREL and DT_PLTRELSZ with a value;
      the ones that mean something to run are the initialisers and finalisers with a value. */
  lemma TagsThatMatter(d: Dyn)
    ensures Forbidden(d) <==> d.tag == 1 || (d.tag in {2, 23} && d.value != 0)
    ensures HasLifecycle([d]) <==> (d.tag in {12, 13} || 25 <= d.tag <= 28 || d.tag in {32, 33}) && d.value != 0
  {
    assert d.tag in LIFECYCLE <==> d.tag in {12, 13} || 25 <= d.tag <= 28 || d.tag in {32, 33};
    assert [d][0] == d;
    assert HasLifecycle([d]) <==> d.tag in LIFECYCLE && d.value != 0;
  }

  // ----- Runs between NONE entries -----

  /** The entries are the runs, in order, with one NONE entry between each two. */
  predicate Joins(runs: seq<seq<Rela>>, rels: seq<Rela>)
    decreases |runs|
  {
    && runs != []
    && if |runs| == 1 then rels == runs[0]
       else
         var last := runs[|runs| - 1];
         && |rels| > |last| && rels[|rels| - |last|..] == last
         && rels[|rels| - |last| - 1].kind == R_NONE
         && Joins(runs[..|runs| - 1], rels[..|rels| - |last| - 1])
  }

  predicate NoneFree(runs: seq<seq<Rela>>) {
    forall i, j :: 0 <= i < |runs| && 0 <= j < |runs[i]| ==> runs[i][j].kind != R_NONE
  }

  lemma JoinsAppend(front: seq<seq<Rela>>, before: seq<Rela>, none: Rela, last: seq<Rela>)
    requires Joins(front, before) && none.kind == R_NONE
    ensures Joins(front + [last], before + [none] + last)
  {
    var runs, rels := front + [last], before + [none] + last;
    assert runs[..|runs| - 1] == front;
    assert rels[..|before|] == before && rels[|before|] == none && rels[|before| + 1..] == last;
  }

  lemma JoinsLast(runs: seq<seq<Rela>>, rels: seq<Rela>) returns (before: seq<Rela>)
    requires Joins(runs, rels) && |runs| > 1
    ensures Joins(runs[..|runs| - 1], before) && |before| < |rels| && rels[|before|].kind == R_NONE
    ensures rels == before + [rels[|before|]] + runs[|runs| - 1]
  {
    var last := runs[|runs| - 1];
    before := rels[..|rels| - |last| - 1];
    assert rels == before + [rels[|before|]] + rels[|rels| - |last|..];
  }

  lemma {:induction false} SplitIsNoneFree(rels: seq<Rela>)
    ensures NoneFree(Split(rels))
    decreases |rels|
  {
    if rels != [] { SplitIsNoneFree(rels[..|rels| - 1]); }
  }

  lemma {:induction false} SplitOnceJoins(rels: seq<Rela>)
    ensures Joins(Split(rels), rels)
    decreases |rels|
  {
    if rels == [] { return; }
    hide Joins;
    var n := |rels| - 1;
    SplitOnceJoins(rels[..n]);
    assert rels == rels[..n] + [rels[n]];
    if rels[n].kind == R_NONE {
      JoinsAppend(Split(rels[..n]), rels[..n], rels[n], []);
      assert rels[..n] + [rels[n]] + [] == rels;
    } else {
      LongerLast(Split(rels[..n]), rels[..n], rels[n]);
    }
  }

  /** What splitting yields, and nothing else does: runs without NONE entries, which are the entries again when
      joined. */
  lemma SplitExactly(rels: seq<Rela>, runs: seq<seq<Rela>>)
    ensures runs == Split(rels) <==> Joins(runs, rels) && NoneFree(runs)
  {
    SplitOnceJoins(rels);
    SplitIsNoneFree(rels);
    hide Split, Joins, NoneFree;
    if Joins(runs, rels) && NoneFree(runs) { JoinsOnce(runs, Split(rels), rels); }
  }

  lemma LongerLast(front: seq<seq<Rela>>, before: seq<Rela>, r: Rela)
    requires Joins(front, before)
    ensures Joins(front[..|front| - 1] + [front[|front| - 1] + [r]], before + [r])
  {
    var k := |front| - 1;
    if k > 0 {
      var earlier := JoinsLast(front, before);
      var none := before[|earlier|];
      hide Joins;
      JoinsAppend(front[..k], earlier, none, front[k] + [r]);
      assert earlier + [none] + (front[k] + [r]) == before + [r];
    }
  }

  /** There is only one such splitting. */
  lemma {:induction false} JoinsOnce(a: seq<seq<Rela>>, b: seq<seq<Rela>>, rels: seq<Rela>)
    requires Joins(a, rels) && Joins(b, rels) && NoneFree(a) && NoneFree(b)
    ensures a == b
    decreases |a|
  {
    LastRunNoLonger(a, b, rels);
    LastRunNoLonger(b, a, rels);
    var x, y := a[|a| - 1], b[|b| - 1];
    assert rels[|rels| - |x|..] == x && rels[|rels| - |y|..] == y;
    if |a| > 1 && |b| > 1 {
      JoinsOnce(a[..|a| - 1], b[..|b| - 1], rels[..|rels| - |x| - 1]);
      assert a == a[..|a| - 1] + [x] && b == b[..|b| - 1] + [y];
    }
  }

  lemma LastRunNoLonger(a: seq<seq<Rela>>, b: seq<seq<Rela>>, rels: seq<Rela>)
    requires Joins(a, rels) && Joins(b, rels) && NoneFree(a)
    ensures |a[|a| - 1]| <= |b[|b| - 1]|
  {
    var x, y := a[|a| - 1], b[|b| - 1];
    assert rels[|rels| - |x|..] == x;
    forall k | 0 <= k < |x|
      ensures rels[|rels| - |x| + k] == x[k] && x[k].kind != R_NONE
    {
    }
    assert |b| > 1 ==> rels[|rels| - |y| - 1].kind == R_NONE;
  }
}

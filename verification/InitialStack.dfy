/** The initial process stack of section 3.4.1 of the System V AMD64 psABI: reading it, moving it down in
    place when the loader was started directly, and patching the auxiliary vector. Pointers into the stack
    are indices of its words. */
module InitialStack {
  import opened Usize

  const AT_NULL: usize := 0
  const AT_PHDR: usize := 3
  const AT_PHENT: usize := 4
  const AT_PHNUM: usize := 5
  const AT_PAGESZ: usize := 6
  const AT_BASE: usize := 7
  const AT_ENTRY: usize := 9
  const AT_PLATFORM: usize := 15
  const AT_HWCAP: usize := 16
  const AT_CLKTCK: usize := 17
  const AT_FPUCW: usize := 18
  const AT_SECURE: usize := 23
  const AT_HWCAP2: usize := 26
  const AT_HWCAP3: usize := 29
  const AT_HWCAP4: usize := 30
  const AT_EXECFN: usize := 31
  const AT_SYSINFO_EHDR: usize := 33
  const AT_MINSIGSTKSZ: usize := 51

  const SIZE_OF_PHDR: usize := 56

  datatype Entry = Entry(kind: usize, value: usize)

  /** What a well-formed stack says: the argument and environment pointers, the auxiliary vector before its
      terminator, and the unused value of the terminator. */
  datatype Content = Content(argv: seq<usize>, env: seq<usize>, aux: seq<Entry>, last: usize)

  datatype AuxValues = AuxValues(
    phdr: usize, phent: usize, phnum: usize, base: usize, entry: usize, secure: usize, pagesize: usize,
    platform: usize, hwcap: usize, hwcap2: usize, hwcap3: usize, hwcap4: usize, clktck: usize, fpucw: usize,
    minsigstacksize: usize, sysinfoEhdr: usize)

  /** `argv`, `envp` and `auxv` are positions in the stack; `execPath` is null until the stack is rewritten. */
  datatype Process = Process(argc: usize, argv: nat, envp: nat, auxv: nat, execPath: usize)

  datatype DirectProgram = DirectProgram(argvIndex: usize, argv0: usize)

  // ----- What the words of a stack say -----

  function EnvAt(c: Content): nat { |c.argv| + 2 }

  function AuxAt(c: Content): nat { |c.argv| + |c.env| + 3 }

  function SizeOf(c: Content): nat { AuxAt(c) + 2 * |c.aux| + 2 }

  ghost predicate AuxHolds(w: seq<usize>, at: nat, aux: seq<Entry>, last: usize) {
    && at + 2 * |aux| + 2 <= |w|
    && (forall i :: 0 <= i < |aux| ==>
          aux[i].kind != AT_NULL && w[at + 2 * i] == aux[i].kind && w[at + 2 * i + 1] == aux[i].value)
    && w[at + 2 * |aux|] == AT_NULL && w[at + 2 * |aux| + 1] == last
  }

  ghost predicate Holds(w: seq<usize>, c: Content) {
    && SizeOf(c) <= |w|
    && w[0] == |c.argv|
    && w[1..1 + |c.argv|] == c.argv
    && w[1 + |c.argv|] == 0
    && w[EnvAt(c)..EnvAt(c) + |c.env|] == c.env && 0 !in c.env
    && w[EnvAt(c) + |c.env|] == 0
    && AuxHolds(w, AuxAt(c), c.aux, c.last)
  }

  /** A stack says at most one thing. */
  lemma HoldsUnique(w: seq<usize>, c: Content, d: Content)
    requires Holds(w, c) && Holds(w, d)
    ensures c == d
  {
    EnvNoLonger(w, c, d);
    EnvNoLonger(w, d, c);
    AuxNoLonger(w, AuxAt(c), c.aux, c.last, d.aux, d.last);
    AuxNoLonger(w, AuxAt(c), d.aux, d.last, c.aux, c.last);
    assert forall i :: 0 <= i < |c.aux| ==> c.aux[i] == d.aux[i];
  }

  lemma EnvNoLonger(w: seq<usize>, c: Content, d: Content)
    requires Holds(w, c) && Holds(w, d)
    ensures |d.env| <= |c.env|
  {
    var end := |c.env|;
    assert w[EnvAt(c) + end] == 0;
    assert forall i :: 0 <= i < |d.env| ==> d.env[i] == w[EnvAt(d)..EnvAt(d) + |d.env|][i] && d.env[i] in d.env;
  }

  lemma AuxNoLonger(w: seq<usize>, at: nat, a: seq<Entry>, aLast: usize, b: seq<Entry>, bLast: usize)
    requires AuxHolds(w, at, a, aLast) && AuxHolds(w, at, b, bLast)
    ensures |b| <= |a|
  {
    for i := 0 to |b|
      invariant i <= |a|
    {
      assert b[i].kind == w[at + 2 * i] != AT_NULL;
    }
  }

  /** The value of the last entry of a kind, or 0 if there is none. */
  function Last(aux: seq<Entry>, kind: usize): usize {
    if aux == [] then 0
    else if aux[|aux| - 1].kind == kind then aux[|aux| - 1].value
    else Last(aux[..|aux| - 1], kind)
  }

  predicate Occurs(aux: seq<Entry>, kind: usize) {
    exists i :: 0 <= i < |aux| && aux[i].kind == kind
  }

  function AuxOf(aux: seq<Entry>): AuxValues {
    AuxValues(
      Last(aux, AT_PHDR), Last(aux, AT_PHENT), Last(aux, AT_PHNUM), Last(aux, AT_BASE), Last(aux, AT_ENTRY),
      Last(aux, AT_SECURE), Last(aux, AT_PAGESZ), Last(aux, AT_PLATFORM), Last(aux, AT_HWCAP),
      Last(aux, AT_HWCAP2), Last(aux, AT_HWCAP3), Last(aux, AT_HWCAP4), Last(aux, AT_CLKTCK),
      Last(aux, AT_FPUCW), Last(aux, AT_MINSIGSTKSZ), Last(aux, AT_SYSINFO_EHDR))
  }

  function ProcessOf(c: Content, execPath: usize): Process
    requires |c.argv| <= MAX
  {
    Process(|c.argv|, 1, EnvAt(c), AuxAt(c), execPath)
  }

  // ----- Reading -----

  function Updated(aux: AuxValues, kind: usize, value: usize): AuxValues {
    if kind == AT_PHDR then aux.(phdr := value)
    else if kind == AT_PHENT then aux.(phent := value)
    else if kind == AT_PHNUM then aux.(phnum := value)
    else if kind == AT_BASE then aux.(base := value)
    else if kind == AT_ENTRY then aux.(entry := value)
    else if kind == AT_SECURE then aux.(secure := value)
    else if kind == AT_PAGESZ then aux.(pagesize := value)
    else if kind == AT_PLATFORM then aux.(platform := value)
    else if kind == AT_HWCAP then aux.(hwcap := value)
    else if kind == AT_HWCAP2 then aux.(hwcap2 := value)
    else if kind == AT_HWCAP3 then aux.(hwcap3 := value)
    else if kind == AT_HWCAP4 then aux.(hwcap4 := value)
    else if kind == AT_CLKTCK then aux.(clktck := value)
    else if kind == AT_FPUCW then aux.(fpucw := value)
    else if kind == AT_MINSIGSTKSZ then aux.(minsigstacksize := value)
    else if kind == AT_SYSINFO_EHDR then aux.(sysinfoEhdr := value)
    else aux
  }

  lemma AuxOfStep(aux: seq<Entry>, e: Entry)
    ensures AuxOf(aux + [e]) == Updated(AuxOf(aux), e.kind, e.value)
  {
    assert (aux + [e])[..|aux|] == aux;
  }

  /** `parse_auxv`. */
  method ParseAuxv(stack: array<usize>, auxv: nat, ghost entries: seq<Entry>, ghost last: usize)
    returns (aux: AuxValues)
    requires AuxHolds(stack[..], auxv, entries, last)
    ensures aux == AuxOf(entries)
  {
    aux := AuxValues(0, 0, 0, 0, 0, 0, 0, 0, 0, 0, 0, 0, 0, 0, 0, 0);
    ghost var done := 0;
    var at := auxv;
    while stack[at] != AT_NULL
      invariant done <= |entries| && at == auxv + 2 * done
      invariant aux == AuxOf(entries[..done])
      invariant done < |entries| ==> stack[at] == entries[done].kind && stack[at + 1] == entries[done].value
      decreases |entries| - done
    {
      assert entries[..done + 1] == entries[..done] + [entries[done]];
      AuxOfStep(entries[..done], entries[done]);
      aux := Updated(aux, stack[at], stack[at + 1]);
      at := at + 2;
      done := done + 1;
    }
    assert entries[..done] == entries;
  }

  /** Walks the environment from `envp` to the word after its null. */
  method AuxvAfter(stack: array<usize>, envp: nat, ghost c: Content) returns (auxv: nat)
    requires Holds(stack[..], c) && envp == EnvAt(c)
    ensures auxv == AuxAt(c)
  {
    auxv := envp;
    while stack[auxv] != 0
      invariant envp <= auxv <= EnvAt(c) + |c.env|
      invariant auxv < EnvAt(c) + |c.env| ==> stack[auxv] == c.env[auxv - EnvAt(c)]
      decreases EnvAt(c) + |c.env| - auxv
    {
      auxv := auxv + 1;
      assert auxv < EnvAt(c) + |c.env| ==> stack[EnvAt(c)..EnvAt(c) + |c.env|][auxv - EnvAt(c)] == stack[auxv];
    }
    auxv := auxv + 1;
  }

  /** `InitialStack::parse`. */
  method Parse(stack: array<usize>, ghost c: Content) returns (process: Process, aux: AuxValues)
    requires Holds(stack[..], c)
    ensures process == ProcessOf(c, 0) && aux == AuxOf(c.aux)
  {
    var argc := stack[0];
    var envp: nat := argc as nat + 2;
    var auxv := AuxvAfter(stack, envp, c);
    aux := ParseAuxv(stack, auxv, c.aux, c.last);
    process := Process(argc, 1, envp, auxv, 0);
  }

  // ----- Moving the arguments down -----

  /** The stack as the started program should find it. */
  function ForProgram(c: Content, direct: DirectProgram): Content
    requires direct.argvIndex < |c.argv|
  {
    c.(argv := (if direct.argv0 != 0 then [direct.argv0] else [c.argv[direct.argvIndex]])
               + c.argv[direct.argvIndex + 1..])
  }

  /** The word past the terminator of the auxiliary vector. */
  method AuxvEnd(stack: array<usize>, auxv: nat, ghost c: Content) returns (end: nat)
    requires Holds(stack[..], c) && auxv == AuxAt(c)
    ensures end == SizeOf(c)
  {
    end := auxv;
    ghost var done := 0;
    while stack[end] != AT_NULL
      invariant done <= |c.aux| && end == auxv + 2 * done
      invariant done < |c.aux| ==> stack[end] == c.aux[done].kind
      decreases |c.aux| - done
    {
      end := end + 2;
      done := done + 1;
    }
    end := end + 2;
  }

  /** The overlapping copy, lowest word first: `count` words from `src` down to `dst`. */
  method MoveDown(stack: array<usize>, src: nat, dst: nat, count: nat)
    requires dst <= src && src + count <= stack.Length
    modifies stack
    ensures forall j :: 0 <= j < dst || dst + count <= j < stack.Length ==> stack[j] == old(stack[j])
    ensures forall j :: dst <= j < dst + count ==> stack[j] == old(stack[src - dst + j])
  {
    ghost var w := stack[..];
    for index := 0 to count
      invariant forall j :: 0 <= j < dst ==> stack[j] == w[j]
      invariant forall j :: dst <= j < dst + index ==> stack[j] == w[src - dst + j]
      invariant forall j :: dst + index <= j < stack.Length ==> stack[j] == w[j]
    {
      stack[dst + index] := stack[src + index];
    }
  }

  /** Moves everything from the program's own argument up to `end` down to the first argument. */
  method ShiftArguments(stack: array<usize>, argc: usize, direct: DirectProgram, end: nat) returns (execPath: usize)
    requires 2 + direct.argvIndex <= end <= stack.Length
    modifies stack
    ensures stack[0] == argc
    ensures execPath == old(stack[1 + direct.argvIndex])
    ensures stack[1] == if direct.argv0 != 0 then direct.argv0 else execPath
    ensures forall j :: 2 <= j < end - direct.argvIndex ==> stack[j] == old(stack[j + direct.argvIndex])
    ensures forall j :: 1 < j && end - direct.argvIndex <= j < stack.Length ==> stack[j] == old(stack[j])
  {
    var src, dst := 1 + direct.argvIndex, 1;
    MoveDown(stack, src, dst, end - src);
    stack[0] := argc;
    execPath := stack[dst];
    if direct.argv0 != 0 {
      stack[dst] := direct.argv0;
    }
  }

  lemma ArgumentAt(w: seq<usize>, c: Content, i: nat)
    requires Holds(w, c) && i < |c.argv|
    ensures SizeOf(c) <= |w| && w[1 + i] == c.argv[i]
  {
    assert w[1..1 + |c.argv|][i] == c.argv[i];
  }

  lemma SameFrom(w: seq<usize>, v: seq<usize>, k: nat)
    requires k <= |w| == |v| && forall j :: k <= j < |w| ==> v[j] == w[j]
    ensures v[k..] == w[k..]
  {
  }

  /** `rewrite_for_program`. Words past the moved part keep their values. */
  method RewriteForProgram(stack: array<usize>, raw: Process, direct: DirectProgram, ghost c: Content)
    returns (process: Process)
    requires Holds(stack[..], c) && raw == ProcessOf(c, 0) && direct.argvIndex < |c.argv|
    modifies stack
    ensures Holds(stack[..], ForProgram(c, direct))
    ensures process == ProcessOf(ForProgram(c, direct), c.argv[direct.argvIndex])
    ensures stack[SizeOf(ForProgram(c, direct))..] == old(stack[SizeOf(ForProgram(c, direct))..])
  {
    ghost var w := stack[..];
    ArgumentAt(w, c, direct.argvIndex);
    hide Holds, AuxHolds;
    var argc := raw.argc - direct.argvIndex;
    var end := AuxvEnd(stack, raw.auxv, c);
    var execPath := ShiftArguments(stack, argc, direct, end);
    Moved(w, c, direct, stack[..]);
    SameFrom(w, stack[..], end - direct.argvIndex);
    var envp: nat := argc as nat + 2;
    var auxv := AuxvAfter(stack, envp, ForProgram(c, direct));
    process := Process(argc, 1, envp, auxv, execPath);
  }

  lemma SliceMoved(w: seq<usize>, v: seq<usize>, lo: nat, hi: nat, n: nat)
    requires lo <= hi <= |v| && hi + n <= |w| && forall j :: lo <= j < hi ==> v[j] == w[j + n]
    ensures v[lo..hi] == w[lo + n..hi + n]
  {
  }

  lemma AuxMoved(w: seq<usize>, v: seq<usize>, at: nat, n: nat, aux: seq<Entry>, last: usize)
    requires AuxHolds(w, at + n, aux, last) && at + 2 * |aux| + 2 <= |v|
    requires forall j :: at <= j < at + 2 * |aux| + 2 ==> v[j] == w[j + n]
    ensures AuxHolds(v, at, aux, last)
  {
    forall i | 0 <= i < |aux|
      ensures v[at + 2 * i] == aux[i].kind && v[at + 2 * i + 1] == aux[i].value
    {
      assert v[at + 2 * i] == w[at + n + 2 * i];
      assert v[at + 2 * i + 1] == w[at + n + 2 * i + 1];
    }
    assert v[at + 2 * |aux|] == w[at + n + 2 * |aux|];
    assert v[at + 2 * |aux| + 1] == w[at + n + 2 * |aux| + 1];
  }

  lemma Moved(w: seq<usize>, c: Content, direct: DirectProgram, v: seq<usize>)
    requires Holds(w, c) && direct.argvIndex < |c.argv|
    requires |v| == |w| && v[0] == |c.argv| - direct.argvIndex
    requires v[1] == if direct.argv0 != 0 then direct.argv0 else w[1 + direct.argvIndex]
    requires forall j :: 2 <= j < SizeOf(c) - direct.argvIndex ==> v[j] == w[j + direct.argvIndex]
    ensures Holds(v, ForProgram(c, direct))
  {
    hide AuxHolds;
    var n := direct.argvIndex;
    var d := ForProgram(c, direct);
    AuxMoved(w, v, AuxAt(d), n, c.aux, c.last);
    SliceMoved(w, v, EnvAt(d), EnvAt(d) + |d.env|, n);
    ArgvMoved(w, v, c, direct);
  }

  lemma ArgvMoved(w: seq<usize>, v: seq<usize>, c: Content, direct: DirectProgram)
    requires Holds(w, c) && direct.argvIndex < |c.argv| && |v| == |w|
    requires v[1] == if direct.argv0 != 0 then direct.argv0 else w[1 + direct.argvIndex]
    requires forall j :: 2 <= j < SizeOf(c) - direct.argvIndex ==> v[j] == w[j + direct.argvIndex]
    ensures v[1..1 + |c.argv| - direct.argvIndex] == ForProgram(c, direct).argv
  {
    hide AuxHolds;
    var n := direct.argvIndex;
    forall k | 2 <= k < 1 + |c.argv| - n
      ensures v[k] == c.argv[n + k - 1]
    {
      ArgumentAt(w, c, n + k - 1);
    }
    ArgumentAt(w, c, n);
  }

  // ----- Patching the auxiliary vector -----

  datatype Patch = Patch(phdr: usize, phnum: usize, base: usize, entry: usize, execPath: usize)

  function PatchedEntry(e: Entry, p: Patch): Entry {
    if e.kind == AT_PHDR then e.(value := p.phdr)
    else if e.kind == AT_PHENT then e.(value := SIZE_OF_PHDR)
    else if e.kind == AT_PHNUM then e.(value := p.phnum)
    else if e.kind == AT_BASE then e.(value := p.base)
    else if e.kind == AT_ENTRY then e.(value := p.entry)
    else if e.kind == AT_EXECFN then e.(value := p.execPath)
    else e
  }

  function Patched(aux: seq<Entry>, p: Patch): (r: seq<Entry>)
    ensures |r| == |aux|
    ensures forall i :: 0 <= i < |aux| ==> r[i] == PatchedEntry(aux[i], p)
  {
    if aux == [] then [] else Patched(aux[..|aux| - 1], p) + [PatchedEntry(aux[|aux| - 1], p)]
  }

  /** One entry of the vector. */
  method PatchEntry(stack: array<usize>, at: nat, p: Patch)
    requires at + 1 < stack.Length
    modifies stack
    ensures stack[at + 1] == PatchedEntry(old(Entry(stack[at], stack[at + 1])), p).value
    ensures forall j :: 0 <= j < stack.Length && j != at + 1 ==> stack[j] == old(stack[j])
  {
    var kind := stack[at];
    var value := at + 1;
    if kind == AT_PHDR {
      stack[value] := p.phdr;
    } else if kind == AT_PHENT {
      stack[value] := SIZE_OF_PHDR;
    } else if kind == AT_PHNUM {
      stack[value] := p.phnum;
    } else if kind == AT_BASE {
      stack[value] := p.base;
    } else if kind == AT_ENTRY {
      stack[value] := p.entry;
    } else if kind == AT_EXECFN {
      stack[value] := p.execPath;
    }
  }

  /** `patch_auxv`. Nothing outside the vector changes; a null pointer is left alone. */
  method PatchAuxv(stack: array<usize>, auxv: Option<nat>, p: Patch, ghost aux: seq<Entry>, ghost last: usize)
    requires auxv.Some? ==> AuxHolds(stack[..], auxv.value, aux, last)
    modifies stack
    ensures auxv.None? ==> stack[..] == old(stack[..])
    ensures auxv.Some? ==>
              && AuxHolds(stack[..], auxv.value, Patched(aux, p), last)
              && stack[..auxv.value] == old(stack[..auxv.value])
              && stack[auxv.value + 2 * |aux|..] == old(stack[auxv.value + 2 * |aux|..])
  {
    if auxv.None? { return; }
    ghost var w := stack[..];
    ghost var done := 0;
    var at := auxv.value;
    while stack[at] != AT_NULL
      invariant done <= |aux| && at == auxv.value + 2 * done
      invariant done < |aux| ==> w[at] == aux[done].kind && w[at + 1] == aux[done].value
      invariant forall j :: 0 <= j < auxv.value ==> stack[j] == w[j]
      invariant forall j :: at <= j < stack.Length ==> stack[j] == w[j]
      invariant forall i :: 0 <= i < done ==>
                  && stack[auxv.value + 2 * i] == aux[i].kind
                  && stack[auxv.value + 2 * i + 1] == PatchedEntry(aux[i], p).value
      decreases |aux| - done
    {
      PatchEntry(stack, at, p);
      at := at + 2;
      done := done + 1;
    }
    AuxPatched(w, stack[..], auxv.value, p, aux, last);
  }

  lemma AuxPatched(w: seq<usize>, v: seq<usize>, at: nat, p: Patch, aux: seq<Entry>, last: usize)
    requires AuxHolds(w, at, aux, last) && |v| == |w|
    requires forall j :: at + 2 * |aux| <= j < |w| ==> v[j] == w[j]
    requires forall i :: 0 <= i < |aux| ==>
               v[at + 2 * i] == aux[i].kind && v[at + 2 * i + 1] == PatchedEntry(aux[i], p).value
    ensures AuxHolds(v, at, Patched(aux, p), last)
  {
  }

  /** What the patch gives a kind, if it names it. */
  function PatchFor(p: Patch, kind: usize): Option<usize> {
    if kind == AT_PHDR then Some(p.phdr)
    else if kind == AT_PHENT then Some(SIZE_OF_PHDR)
    else if kind == AT_PHNUM then Some(p.phnum)
    else if kind == AT_BASE then Some(p.base)
    else if kind == AT_ENTRY then Some(p.entry)
    else if kind == AT_EXECFN then Some(p.execPath)
    else None
  }

  lemma {:induction false} LastPatched(aux: seq<Entry>, p: Patch, kind: usize)
    ensures Last(Patched(aux, p), kind)
         == if PatchFor(p, kind).Some? && Occurs(aux, kind) then PatchFor(p, kind).value else Last(aux, kind)
  {
    hide Occurs;
    NothingOccurs(kind);
    if aux != [] {
      var n := |aux| - 1;
      LastPatched(aux[..n], p, kind);
      assert Patched(aux, p)[..n] == Patched(aux[..n], p);
      OccursLast(aux, kind);
    }
  }

  lemma NothingOccurs(kind: usize)
    ensures !Occurs([], kind)
  {
  }

  lemma OccursLast(aux: seq<Entry>, kind: usize)
    requires aux != []
    ensures Occurs(aux, kind) <==> aux[|aux| - 1].kind == kind || Occurs(aux[..|aux| - 1], kind)
  {
    if i :| 0 <= i < |aux| - 1 && aux[i].kind == kind { assert aux[..|aux| - 1][i].kind == kind; }
  }

  /** Parsing the patched vector gives the parse of the original with `phdr`, `phent`, `phnum`, `base` and
      `entry` replaced exactly where their tags occur, duplicates included. */
  lemma {:induction false} PatchedParse(aux: seq<Entry>, p: Patch)
    ensures AuxOf(Patched(aux, p)) == AuxOf(aux).(
        phdr := if Occurs(aux, AT_PHDR) then p.phdr else 0,
        phent := if Occurs(aux, AT_PHENT) then SIZE_OF_PHDR else 0,
        phnum := if Occurs(aux, AT_PHNUM) then p.phnum else 0,
        base := if Occurs(aux, AT_BASE) then p.base else 0,
        entry := if Occurs(aux, AT_ENTRY) then p.entry else 0)
  {
    hide Last, Patched, Occurs;
    PatchedField(aux, p, AT_PHDR);
    PatchedField(aux, p, AT_PHENT);
    PatchedField(aux, p, AT_PHNUM);
    PatchedField(aux, p, AT_BASE);
    PatchedField(aux, p, AT_ENTRY);
    KeptField(aux, p, AT_SECURE);
    KeptField(aux, p, AT_PAGESZ);
    KeptField(aux, p, AT_PLATFORM);
    KeptField(aux, p, AT_HWCAP);
    KeptField(aux, p, AT_HWCAP2);
    KeptField(aux, p, AT_HWCAP3);
    KeptField(aux, p, AT_HWCAP4);
    KeptField(aux, p, AT_CLKTCK);
    KeptField(aux, p, AT_FPUCW);
    KeptField(aux, p, AT_MINSIGSTKSZ);
    KeptField(aux, p, AT_SYSINFO_EHDR);
  }

  lemma PatchedField(aux: seq<Entry>, p: Patch, kind: usize)
    requires PatchFor(p, kind).Some?
    ensures Last(Patched(aux, p), kind) == if Occurs(aux, kind) then PatchFor(p, kind).value else 0
  {
    LastPatched(aux, p, kind);
    if !Occurs(aux, kind) { LastAbsent(aux, kind); }
  }

  lemma KeptField(aux: seq<Entry>, p: Patch, kind: usize)
    requires PatchFor(p, kind).None?
    ensures Last(Patched(aux, p), kind) == Last(aux, kind)
  {
    LastPatched(aux, p, kind);
  }

  lemma {:induction false} LastAbsent(aux: seq<Entry>, kind: usize)
    requires !Occurs(aux, kind)
    ensures Last(aux, kind) == 0
  {
    if aux != [] {
      var n := |aux| - 1;
      assert aux[n].kind != kind;
      assert forall i :: 0 <= i < n ==> aux[..n][i] == aux[i];
      LastAbsent(aux[..n], kind);
    }
  }

  /** The name the program was started under: replaced where the vector has one. */
  lemma ExecNamePatched(aux: seq<Entry>, p: Patch)
    ensures Last(Patched(aux, p), 31) == if Occurs(aux, 31) then p.execPath else 0
  {
    PatchedField(aux, p, AT_EXECFN);
  }

  // ----- What a field means -----

  /** Entry `i` is the last one of the kind. */
  predicate LastOf(aux: seq<Entry>, kind: usize, i: nat) {
    i < |aux| && aux[i].kind == kind && forall j :: i < j < |aux| ==> aux[j].kind != kind
  }

  lemma {:induction false} LastExactly(aux: seq<Entry>, kind: usize)
    ensures forall i: nat :: LastOf(aux, kind, i) ==> Last(aux, kind) == aux[i].value
    ensures !Occurs(aux, kind) ==> Last(aux, kind) == 0
    decreases |aux|
  {
    if !Occurs(aux, kind) { LastAbsent(aux, kind); }
    if aux != [] {
      var n: nat := |aux| - 1;
      LastExactly(aux[..n], kind);
      forall i: nat | LastOf(aux, kind, i)
        ensures Last(aux, kind) == aux[i].value
      {
        if i < n { assert LastOf(aux[..n], kind, i); }
      }
    }
  }

  /** Each field is the value of one kind, by the numbers the kernel gives them. */
  lemma FieldsByNumber(aux: seq<Entry>)
    ensures var a := AuxOf(aux);
            && a.phdr == Last(aux, 3) && a.phent == Last(aux, 4) && a.phnum == Last(aux, 5)
            && a.pagesize == Last(aux, 6) && a.base == Last(aux, 7) && a.entry == Last(aux, 9)
            && a.platform == Last(aux, 15) && a.hwcap == Last(aux, 16) && a.clktck == Last(aux, 17)
            && a.fpucw == Last(aux, 18) && a.secure == Last(aux, 23) && a.hwcap2 == Last(aux, 26)
            && a.hwcap3 == Last(aux, 29) && a.hwcap4 == Last(aux, 30) && a.sysinfoEhdr == Last(aux, 33)
            && a.minsigstacksize == Last(aux, 51)
  {
  }
}

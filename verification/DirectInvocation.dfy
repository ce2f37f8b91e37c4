/** Starting the loader as a command: the scan of its own options, and what the started program then finds
    on its stack. */
module DirectInvocation {
  import opened Usize
  import opened InitialStack

  /** Argument pointers and the C strings they point to; no string holds a null byte. */
  type Strings = map<usize, string>

  const VALUED: seq<string> := ["--library-path", "--preload", "--audit", "--glibc-hwcaps-prepend",
                                "--glibc-hwcaps-mask", "--inhibit-rpath"]

  /** How the scan ends: with a program to start, or by leaving the process. */
  datatype Outcome =
    | Start(program: DirectProgram)
    | Help
    | Version
    | ListDiagnostics
    | ListTunables
    | Verify(target: usize)
    | List(target: usize)
    | MissingValue(option: usize)
    | Unrecognized(option: usize)

  /** Every argument that is not null points to a string. */
  ghost predicate Readable(argv: seq<usize>, text: Strings) {
    forall i :: 0 <= i < |argv| && argv[i] != 0 ==> argv[i] in text
  }

  predicate CstrEq(arg: usize, expected: string, text: Strings)
    requires arg != 0 ==> arg in text
  {
    arg != 0 && text[arg] == expected
  }

  predicate StartsWithDash(arg: usize, text: Strings)
    requires arg != 0 ==> arg in text
  {
    arg != 0 && text[arg] != "" && text[arg][0] == '-'
  }

  predicate ConsumesValue(arg: usize, text: Strings)
    requires arg != 0 ==> arg in text
  {
    arg != 0 && text[arg] in VALUED
  }

  function OptionValue(argv: seq<usize>, index: nat): Option<usize> {
    if index + 1 >= |argv| then None else Some(argv[index + 1])
  }

  /** One option the scan steps over. */
  datatype Skipped =
    | Argv0(option: usize, value: usize)
    | Valued(option: usize, value: usize)
    | InhibitCache(option: usize)

  predicate Spelled(o: Skipped, text: Strings) {
    && o.option != 0 && o.option in text
    && match o
       case Argv0(option, _) => text[option] == "--argv0"
       case Valued(option, _) => text[option] in VALUED
       case InhibitCache(option) => text[option] == "--inhibit-cache"
  }

  function OptionWords(o: Skipped): (words: seq<usize>)
    ensures |words| == if o.InhibitCache? then 1 else 2
  {
    if o.InhibitCache? then [o.option] else [o.option, o.value]
  }

  function Words(options: seq<Skipped>): seq<usize> {
    if options == [] then [] else OptionWords(options[0]) + Words(options[1..])
  }

  /** The value of the last `--argv0`, or `before` if there is none. */
  function ChosenArgv0(options: seq<Skipped>, before: usize): usize {
    if options == [] then before
    else ChosenArgv0(options[1..], if options[0].Argv0? then options[0].value else before)
  }

  ghost predicate AllSpelled(options: seq<Skipped>, text: Strings) {
    forall i :: 0 <= i < |options| ==> Spelled(options[i], text)
  }

  // ----- The scan -----

  /** What the scan finds at one position: an option to step over, or the end. */
  datatype Found = Skip(skipped: Skipped) | Stop(outcome: Outcome)

  function At(argv: seq<usize>, text: Strings, index: usize, argv0: usize): (f: Found)
    requires index < |argv| && Readable(argv, text)
    ensures f.Skip? ==> Spelled(f.skipped, text) && index + |OptionWords(f.skipped)| <= |argv|
                        && argv[index..index + |OptionWords(f.skipped)|] == OptionWords(f.skipped)
    ensures f.Stop? && f.outcome.Start? ==>
              f.outcome.program == DirectProgram(index, argv0) && !StartsWithDash(argv[index], text)
    ensures !StartsWithDash(argv[index], text) ==> f == Stop(Start(DirectProgram(index, argv0)))
  {
    var arg := argv[index];
    var value := OptionValue(argv, index);
    if CstrEq(arg, "--help", text) then Stop(Help)
    else if CstrEq(arg, "--version", text) then Stop(Version)
    else if CstrEq(arg, "--list-diagnostics", text) then Stop(ListDiagnostics)
    else if CstrEq(arg, "--list-tunables", text) then Stop(ListTunables)
    else if CstrEq(arg, "--verify", text) then Stop(if value.None? then MissingValue(arg) else Verify(value.value))
    else if CstrEq(arg, "--list", text) then Stop(if value.None? then MissingValue(arg) else List(value.value))
    else if CstrEq(arg, "--argv0", text) then
      if value.None? then Stop(MissingValue(arg)) else Skip(Argv0(arg, value.value))
    else if ConsumesValue(arg, text) then
      if value.None? then Stop(MissingValue(arg)) else Skip(Valued(arg, value.value))
    else if CstrEq(arg, "--inhibit-cache", text) then Skip(InhibitCache(arg))
    else if StartsWithDash(arg, text) then Stop(Unrecognized(arg))
    else Stop(Start(DirectProgram(index, argv0)))
  }

  function Scan(argv: seq<usize>, text: Strings, index: nat, argv0: usize): Outcome
    requires index <= |argv| <= MAX && Readable(argv, text)
    decreases |argv| - index
  {
    if index == |argv| then Help
    else
      match At(argv, text, index, argv0)
      case Stop(outcome) => outcome
      case Skip(o) => Scan(argv, text, index + |OptionWords(o)|, if o.Argv0? then o.value else argv0)
  }

  /** `handle_direct_invocation`. */
  method HandleDirectInvocation(argv: seq<usize>, text: Strings) returns (r: Outcome)
    requires |argv| <= MAX && Readable(argv, text)
    ensures r == if |argv| <= 1 then Help else Scan(argv, text, 1, 0)
  {
    if |argv| <= 1 { return Help; }
    hide CstrEq, ConsumesValue, StartsWithDash, Spelled, OptionWords;
    var index := 1;
    var argv0: usize := 0;
    while index < |argv|
      invariant 1 <= index <= |argv|
      invariant Scan(argv, text, 1, 0) == Scan(argv, text, index, argv0)
    {
      var arg := argv[index];
      if CstrEq(arg, "--help", text) { return Help; }
      if CstrEq(arg, "--version", text) { return Version; }
      if CstrEq(arg, "--list-diagnostics", text) { return ListDiagnostics; }
      if CstrEq(arg, "--list-tunables", text) { return ListTunables; }
      var value := OptionValue(argv, index);
      if CstrEq(arg, "--verify", text) {
        if value.None? { return MissingValue(arg); }
        return Verify(value.value);
      }
      if CstrEq(arg, "--list", text) {
        if value.None? { return MissingValue(arg); }
        return List(value.value);
      }
      if CstrEq(arg, "--argv0", text) {
        if value.None? { return MissingValue(arg); }
        argv0 := value.value;
        index := index + 2;
        continue;
      }
      if ConsumesValue(arg, text) {
        if value.None? { return MissingValue(arg); }
        index := index + 2;
        continue;
      }
      if CstrEq(arg, "--inhibit-cache", text) {
        index := index + 1;
        continue;
      }
      if StartsWithDash(arg, text) { return Unrecognized(arg); }
      return Start(DirectProgram(index, argv0));
    }
    r := Help;
  }

  // ----- What the scan accepts -----

  lemma AtSpelled(argv: seq<usize>, text: Strings, index: nat, argv0: usize, o: Skipped)
    requires |argv| <= MAX && Readable(argv, text) && Spelled(o, text)
    requires index + |OptionWords(o)| <= |argv| && argv[index..index + |OptionWords(o)|] == OptionWords(o)
    ensures At(argv, text, index, argv0) == Skip(o)
  {
    var words := argv[index..index + |OptionWords(o)|];
    assert words[0] == argv[index] == o.option;
    if !o.InhibitCache? { assert words[1] == argv[index + 1] == o.value; }
  }

  lemma SplitSlice(argv: seq<usize>, index: nat, a: seq<usize>, b: seq<usize>)
    requires index + |a + b| <= |argv|
    ensures argv[index..index + |a + b|] == a + b <==>
            argv[index..index + |a|] == a && argv[index + |a|..index + |a| + |b|] == b
  {
    var s := argv[index..index + |a + b|];
    assert s[..|a|] == argv[index..index + |a|];
    assert s[|a|..] == argv[index + |a|..index + |a| + |b|];
    assert s == s[..|a|] + s[|a|..];
  }

  /** The scan steps over any sequence of well-spelled options, whatever their values look like. */
  lemma {:induction false} ScanSkips(argv: seq<usize>, text: Strings, index: nat, argv0: usize, options: seq<Skipped>)
    requires |argv| <= MAX && Readable(argv, text) && AllSpelled(options, text)
    requires index + |Words(options)| <= |argv| && argv[index..index + |Words(options)|] == Words(options)
    ensures Scan(argv, text, index, argv0)
         == Scan(argv, text, index + |Words(options)|, ChosenArgv0(options, argv0))
    decreases |options|
  {
    hide At, Spelled, OptionWords, Readable;
    if options != [] {
      var o, rest := options[0], options[1..];
      var n := |OptionWords(o)|;
      assert Words(options) == OptionWords(o) + Words(rest);
      SplitSlice(argv, index, OptionWords(o), Words(rest));
      assert Spelled(o, text);
      assert forall i :: 0 <= i < |rest| ==> rest[i] == options[i + 1];
      AtSpelled(argv, text, index, argv0, o);
      ScanSkips(argv, text, index + n, if o.Argv0? then o.value else argv0, rest);
    }
  }

  /** The options a successful scan stepped over. */
  lemma {:induction false} ScanStarted(argv: seq<usize>, text: Strings, index: nat, argv0: usize)
    returns (options: seq<Skipped>)
    requires index <= |argv| <= MAX && Readable(argv, text) && Scan(argv, text, index, argv0).Start?
    ensures var p := Scan(argv, text, index, argv0).program;
            && index <= p.argvIndex < |argv| && AllSpelled(options, text)
            && argv[index..p.argvIndex] == Words(options)
            && !StartsWithDash(argv[p.argvIndex], text) && p.argv0 == ChosenArgv0(options, argv0)
    decreases |argv| - index
  {
    hide At, Spelled, OptionWords, StartsWithDash, CstrEq, ConsumesValue;
    match At(argv, text, index, argv0)
    case Stop(_) => options := [];
    case Skip(o) =>
      var n := |OptionWords(o)|;
      var rest := ScanStarted(argv, text, index + n, if o.Argv0? then o.value else argv0);
      options := [o] + rest;
      var p := Scan(argv, text, index, argv0).program;
      assert options[1..] == rest;
      SplitSlice(argv, index, OptionWords(o), Words(rest));
  }

  /** The command line is well-spelled options, then this program with its own arguments. */
  ghost predicate Commands(argv: seq<usize>, text: Strings, p: DirectProgram, options: seq<Skipped>)
    requires Readable(argv, text)
  {
    && 1 <= p.argvIndex < |argv| && AllSpelled(options, text)
    && argv[1..p.argvIndex] == Words(options)
    && !StartsWithDash(argv[p.argvIndex], text) && p.argv0 == ChosenArgv0(options, 0)
  }

  /** A program is started exactly when the command line is options followed by a word that is not an
      option, and it is that word; `--argv0` counts the last time it is given. */
  lemma StartExact(argv: seq<usize>, text: Strings, p: DirectProgram)
    requires 1 <= |argv| <= MAX && Readable(argv, text)
    ensures Scan(argv, text, 1, 0) == Start(p) <==> exists options :: Commands(argv, text, p, options)
  {
    if Scan(argv, text, 1, 0) == Start(p) {
      var options := ScanStarted(argv, text, 1, 0);
      assert Commands(argv, text, p, options);
    }
    if options :| Commands(argv, text, p, options) {
      ScanSkips(argv, text, 1, 0, options);
    }
  }

  // ----- How the scan ends -----

  /** The word at this position is there and spelled so. */
  ghost predicate SaysAt(argv: seq<usize>, text: Strings, at: nat, word: string) {
    at < |argv| && argv[at] != 0 && argv[at] in text && text[argv[at]] == word
  }

  /** What ends a scan at one position, outcome by outcome. */
  ghost predicate EndsWith(argv: seq<usize>, text: Strings, at: nat, argv0: usize, r: Outcome)
    requires |argv| <= MAX && Readable(argv, text)
  {
    match r
    case Help => at == |argv| || SaysAt(argv, text, at, "--help")
    case Version => SaysAt(argv, text, at, "--version")
    case ListDiagnostics => SaysAt(argv, text, at, "--list-diagnostics")
    case ListTunables => SaysAt(argv, text, at, "--list-tunables")
    case Verify(target) => SaysAt(argv, text, at, "--verify") && at + 1 < |argv| && argv[at + 1] == target
    case List(target) => SaysAt(argv, text, at, "--list") && at + 1 < |argv| && argv[at + 1] == target
    case MissingValue(option) =>
      && at + 1 == |argv| && argv[at] == option
      && exists word :: word in VALUED + ["--verify", "--list", "--argv0"] && SaysAt(argv, text, at, word)
    case Unrecognized(option) =>
      && at < |argv| && argv[at] == option && StartsWithDash(option, text)
      && forall word :: SaysAt(argv, text, at, word) ==> word !in KNOWN
    case Start(p) => at < |argv| && p == DirectProgram(at, argv0) && !StartsWithDash(argv[at], text)
  }

  const KNOWN: seq<string> :=
    VALUED + ["--verify", "--list", "--argv0", "--help", "--version", "--list-diagnostics", "--list-tunables",
              "--inhibit-cache"]

  /** Exactly one outcome fits where the scan stops, and none where it steps over an option. */
  lemma StopExactly(argv: seq<usize>, text: Strings, at: nat, argv0: usize, r: Outcome)
    requires at < |argv| <= MAX && Readable(argv, text)
    ensures At(argv, text, at, argv0) == Stop(r) <==> EndsWith(argv, text, at, argv0, r)
  {
    var arg := argv[at];
    if arg != 0 {
      assert forall word :: SaysAt(argv, text, at, word) <==> text[arg] == word;
      if text[arg] in KNOWN { assert SaysAt(argv, text, at, text[arg]); }
    }
  }

  /** The whole scan: options, and then what ends it. */
  ghost predicate Ends(argv: seq<usize>, text: Strings, options: seq<Skipped>, r: Outcome)
    requires |argv| <= MAX && Readable(argv, text)
  {
    && AllSpelled(options, text) && 1 + |Words(options)| <= |argv|
    && argv[1..1 + |Words(options)|] == Words(options)
    && EndsWith(argv, text, 1 + |Words(options)|, ChosenArgv0(options, 0), r)
  }

  lemma NothingMore(argv: seq<usize>, text: Strings, argv0: usize)
    requires |argv| <= MAX && Readable(argv, text)
    ensures EndsWith(argv, text, |argv|, argv0, Help)
  {
  }

  lemma {:induction false} ScanEnds(argv: seq<usize>, text: Strings, index: nat, argv0: usize)
    returns (options: seq<Skipped>)
    requires index <= |argv| <= MAX && Readable(argv, text)
    ensures AllSpelled(options, text) && index + |Words(options)| <= |argv|
    ensures argv[index..index + |Words(options)|] == Words(options)
    ensures EndsWith(argv, text, index + |Words(options)|, ChosenArgv0(options, argv0), Scan(argv, text, index, argv0))
    decreases |argv| - index
  {
    options := [];
    hide At, Spelled, OptionWords, StartsWithDash, CstrEq, ConsumesValue, EndsWith, Readable;
    NothingMore(argv, text, argv0);
    if index < |argv| {
      match At(argv, text, index, argv0)
      case Stop(outcome) => StopExactly(argv, text, index, argv0, outcome);
      case Skip(o) =>
        var n := |OptionWords(o)|;
        var rest := ScanEnds(argv, text, index + n, if o.Argv0? then o.value else argv0);
        options := [o] + rest;
        assert options[1..] == rest;
        SplitSlice(argv, index, OptionWords(o), Words(rest));
    }
  }

  /** Every way the scan can end, exactly: the command line is well-spelled options and then the word that ends it so,
      or nothing more. */
  lemma OutcomeExactly(argv: seq<usize>, text: Strings, r: Outcome)
    requires 1 <= |argv| <= MAX && Readable(argv, text)
    ensures Scan(argv, text, 1, 0) == r <==> exists options :: Ends(argv, text, options, r)
  {
    if Scan(argv, text, 1, 0) == r {
      var options := ScanEnds(argv, text, 1, 0);
      assert Ends(argv, text, options, r);
    }
    if options :| Ends(argv, text, options, r) { EndsIsOutcome(argv, text, options, r); }
  }

  lemma EndsIsOutcome(argv: seq<usize>, text: Strings, options: seq<Skipped>, r: Outcome)
    requires 1 <= |argv| <= MAX && Readable(argv, text) && Ends(argv, text, options, r)
    ensures Scan(argv, text, 1, 0) == r
  {
    hide At, Readable, Spelled, EndsWith;
    var at := 1 + |Words(options)|;
    ScanSkips(argv, text, 1, 0, options);
    if at < |argv| {
      StopExactly(argv, text, at, ChosenArgv0(options, 0), r);
    } else {
      NothingLeft(argv, text, ChosenArgv0(options, 0), r);
    }
  }

  lemma NothingLeft(argv: seq<usize>, text: Strings, argv0: usize, r: Outcome)
    requires |argv| <= MAX && Readable(argv, text) && EndsWith(argv, text, |argv|, argv0, r)
    ensures r == Help
  {
  }

  // ----- From the kernel's stack to the program's -----

  /** A direct start up to the point where the program is loaded: read the stack, scan the options, move the
      arguments down. Reading the stack again finds the program's own view; leaving the process changes
      nothing. */
  method StartDirectly(stack: array<usize>, text: Strings, ghost c: Content)
    returns (r: Outcome, process: Process, again: Process, aux: AuxValues)
    requires Holds(stack[..], c) && |c.argv| <= MAX && Readable(c.argv, text)
    modifies stack
    ensures r == if |c.argv| <= 1 then Help else Scan(c.argv, text, 1, 0)
    ensures !r.Start? ==> stack[..] == old(stack[..])
    ensures r.Start? ==>
              && 1 <= r.program.argvIndex < |c.argv|
              && Holds(stack[..], ForProgram(c, r.program))
              && process == again.(execPath := c.argv[r.program.argvIndex])
              && again == ProcessOf(ForProgram(c, r.program), 0) && aux == AuxOf(c.aux)
  {
    hide Holds;
    var raw, values := Parse(stack, c);
    ReadsArgv(stack[..], c);
    r := HandleDirectInvocation(stack[raw.argv..raw.argv + raw.argc], text);
    process, again, aux := raw, raw, values;
    if r.Start? {
      ghost var options := ScanStarted(c.argv, text, 1, 0);
      process := RewriteForProgram(stack, raw, r.program, c);
      again, aux := Parse(stack, ForProgram(c, r.program));
    }
  }

  lemma ReadsArgv(w: seq<usize>, c: Content)
    requires Holds(w, c)
    ensures 1 + |c.argv| <= |w| && w[1..1 + |c.argv|] == c.argv
  {
  }

  /** What the program sees: its own arguments, after its name or the name chosen for it, and the environment
      and auxiliary vector it was started with. */
  lemma DirectArguments(c: Content, text: Strings, self: usize, options: seq<Skipped>, program: usize, args: seq<usize>)
    requires c.argv == [self] + Words(options) + [program] + args && |c.argv| <= MAX
    requires Readable(c.argv, text) && AllSpelled(options, text)
    requires program != 0 ==> program in text && !StartsWithDash(program, text)
    ensures var p := DirectProgram(1 + |Words(options)|, ChosenArgv0(options, 0));
            && Scan(c.argv, text, 1, 0) == Start(p) && p.argvIndex < |c.argv|
            && ForProgram(c, p) == c.(argv := [if p.argv0 != 0 then p.argv0 else program] + args)
  {
    var p := DirectProgram(1 + |Words(options)|, ChosenArgv0(options, 0));
    assert c.argv[1..p.argvIndex] == Words(options);
    assert c.argv[p.argvIndex] == program;
    assert c.argv[p.argvIndex + 1..] == args;
    assert Commands(c.argv, text, p, options);
    StartExact(c.argv, text, p);
  }
}

/**
 * The `args-<suffix>` file layout: for each argument in order, its length
 * as an eight-byte little-endian `u64`, then its bytes.
 */
module ArgsFile {
  import opened Wrappers
  import opened Bytes

  /** `(arg.len() as u64).to_le_bytes()`; the cast keeps the low 64 bits. */
  function LengthPrefix(arg: seq<byte>): (r: seq<byte>)
    ensures |r| == U64_BYTES
    ensures LittleEndianValue(r) == |arg| % TWO_TO_64
  {
    var n := |arg| % TWO_TO_64;
    Pow256Of8();
    ModOfSplit(n, TWO_TO_64, 0, n);
    LittleEndian(n, U64_BYTES)
  }

  /** The bytes written for one argument. */
  function Entry(arg: seq<byte>): seq<byte> {
    LengthPrefix(arg) + arg
  }

  /** The total size of the encoding: eight bytes plus the argument, per argument. */
  function EncodedSize(args: seq<seq<byte>>): nat {
    if args == [] then 0 else EncodedSize(args[..|args| - 1]) + U64_BYTES + |args[|args| - 1]|
  }

  /** The whole file, as the recording loop appends it entry by entry. */
  function Encode(args: seq<seq<byte>>): (r: seq<byte>)
    ensures |r| == EncodedSize(args)
  {
    if args == [] then [] else Encode(args[..|args| - 1]) + Entry(args[|args| - 1])
  }

  /** Every argument is short enough for its length to survive the cast to `u64`. */
  predicate Fits(args: seq<seq<byte>>) {
    forall i :: 0 <= i < |args| ==> |args[i]| < TWO_TO_64
  }

  /**
   * The reader a replay needs: read an eight-byte length, then that many
   * bytes, until the input is used up; `None` when the input ends inside
   * an entry.
   */
  function Decode(b: seq<byte>): Option<seq<seq<byte>>>
    decreases |b|
  {
    if b == [] then Some([])
    else if |b| < U64_BYTES then None
    else
      var n := LittleEndianValue(b[..U64_BYTES]);
      if |b| - U64_BYTES < n then None
      else
        match Decode(b[U64_BYTES + n..])
        case None => None
        case Some(rest) => Some([b[U64_BYTES..U64_BYTES + n]] + rest)
  }

  /** The length prefix reads back as the argument's length. */
  lemma LengthPrefixRoundTrip(arg: seq<byte>)
    requires |arg| < TWO_TO_64
    ensures LittleEndianValue(LengthPrefix(arg)) == |arg|
  {
    var n := |arg|;
    Pow256Of8();
    assert n % TWO_TO_64 == n;
    LittleEndianRoundTrip(n, U64_BYTES);
  }

  /** The encoding of a concatenation is the concatenation of the encodings. */
  lemma {:induction false} EncodeAppend(xs: seq<seq<byte>>, ys: seq<seq<byte>>)
    ensures Encode(xs + ys) == Encode(xs) + Encode(ys)
    decreases |ys|
  {
    if ys != [] {
      var zs, init, last := xs + ys, ys[..|ys| - 1], ys[|ys| - 1];
      assert zs[..|zs| - 1] == xs + init && zs[|zs| - 1] == last;
      assert Encode(zs) == Encode(xs + init) + Entry(last);
      assert Encode(ys) == Encode(init) + Entry(last);
      EncodeAppend(xs, init);
      AppendAssociates(Encode(xs), Encode(init), Entry(last));
    } else {
      assert xs + ys == xs;
    }
  }

  lemma AppendAssociates<T>(a: seq<T>, b: seq<T>, c: seq<T>)
    ensures (a + b) + c == a + (b + c)
  {
  }

  /** The first entry of the file is the first argument's. */
  lemma EncodeCons(arg: seq<byte>, rest: seq<seq<byte>>)
    ensures Encode([arg] + rest) == Entry(arg) + Encode(rest)
  {
    EncodeAppend([arg], rest);
    assert [arg][..0] == [];
    assert Encode([arg]) == [] + Entry(arg) == Entry(arg);
  }

  /** Reading the file back gives exactly the arguments written, empty ones included. */
  lemma {:induction false} DecodeEncode(args: seq<seq<byte>>)
    requires Fits(args)
    ensures Decode(Encode(args)) == Some(args)
    decreases |args|
  {
    if args != [] {
      var arg, rest := args[0], args[1..];
      assert args == [arg] + rest;
      EncodeCons(arg, rest);
      var b := Encode(args);
      assert b[..U64_BYTES] == LengthPrefix(arg);
      LengthPrefixRoundTrip(arg);
      assert b[U64_BYTES..U64_BYTES + |arg|] == arg;
      assert b[U64_BYTES + |arg|..] == Encode(rest);
      DecodeEncode(rest);
    }
  }

  /** Whatever the reader accepts is the encoding of what it returns. */
  lemma {:induction false} EncodeDecode(b: seq<byte>)
    requires Decode(b).Some?
    ensures Fits(Decode(b).value)
    ensures Encode(Decode(b).value) == b
    decreases |b|
  {
    if b != [] {
      var head, arg, tail, rest := DecodeFirst(b);
      EncodeDecode(tail);
      EntryOfHead(head, arg);
      EncodeCons(arg, rest);
      var args := [arg] + rest;
      forall i | 0 <= i < |args| ensures |args[i]| < TWO_TO_64 {
        if i > 0 { assert args[i] == rest[i - 1]; }
      }
    }
  }

  /** How the reader splits a non-empty input it accepts: first entry, then the rest. */
  lemma DecodeFirst(b: seq<byte>) returns (head: seq<byte>, arg: seq<byte>, tail: seq<byte>, rest: seq<seq<byte>>)
    requires b != [] && Decode(b).Some?
    ensures b == head + arg + tail && |tail| < |b|
    ensures |head| == U64_BYTES && |arg| == LittleEndianValue(head)
    ensures Decode(tail) == Some(rest) && Decode(b) == Some([arg] + rest)
  {
    head := b[..U64_BYTES];
    var n := LittleEndianValue(head);
    arg := b[U64_BYTES..U64_BYTES + n];
    tail := b[U64_BYTES + n..];
    rest := Decode(tail).value;
    assert b == head + arg + tail;
  }

  /** One entry read by the reader is the entry the writer produces for it. */
  lemma EntryOfHead(head: seq<byte>, arg: seq<byte>)
    requires |head| == U64_BYTES && |arg| == LittleEndianValue(head)
    ensures |arg| < TWO_TO_64 && LengthPrefix(arg) == head
  {
    Pow256Of8();
    LittleEndianValueRoundTrip(head);
    assert |arg| % TWO_TO_64 == |arg|;
  }
}

/**
 * The fuzzing loop: up to `n_tries` trials, each generating a payload and
 * extra arguments, running the program and classifying how it ended; the
 * first trial that does not pass is recorded and ends the run.
 */
module Fuzz {
  import opened Wrappers
  import opened Bytes
  import opened NumberRanges
  import opened Generate
  import opened Commands
  import ArgsFile

  /**
   * How the child of one trial ended: `child.wait()?.code()`, or the I/O
   * error from spawning it, writing its stdin or waiting for it.
   */
  datatype ChildRun = Exited(code: Option<int>) | IoFailed(reason: string)

  /** The three ways a finished trial is classified. */
  datatype TrialOutcome = Passed | FailedWithCode(code: int) | FailedBySignal

  /** The `match` on the exit code against the allow-list. */
  function Classify(code: Option<int>, ok: set<int>): (o: TrialOutcome)
    ensures o.Passed? <==> code.Some? && code.value in ok
    ensures o.FailedWithCode? <==> code.Some? && code.value !in ok
    ensures o.FailedWithCode? ==> o.code == code.value
    ensures o.FailedBySignal? <==> code.None?
  {
    match code
    case Some(c) => if c in ok then Passed else FailedWithCode(c)
    case None => FailedBySignal
  }

  /** The trial passes: the loop goes on to the next one. */
  predicate Passes(run: ChildRun, ok: set<int>) {
    run.Exited? && Classify(run.code, ok).Passed?
  }

  /** The first of the first `n` trials that does not pass, if any. */
  function FirstStop(runs: seq<ChildRun>, ok: set<int>, n: nat): (k: Option<nat>)
    requires n <= |runs|
    ensures k.None? <==> forall t :: 0 <= t < n ==> Passes(runs[t], ok)
    ensures k.Some? ==> k.value < n && !Passes(runs[k.value], ok)
    ensures k.Some? ==> forall t :: 0 <= t < k.value ==> Passes(runs[t], ok)
  {
    if n == 0 then None
    else
      match FirstStop(runs, ok, n - 1)
      case Some(k) => Some(k)
      case None => if Passes(runs[n - 1], ok) then None else Some(n - 1)
  }

  /** A trial that does not pass after a run of trials that do is the first stop. */
  lemma {:induction false} FirstStopAt(runs: seq<ChildRun>, ok: set<int>, n: nat, t: nat)
    requires t < n <= |runs|
    requires forall j :: 0 <= j < t ==> Passes(runs[j], ok)
    requires !Passes(runs[t], ok)
    ensures FirstStop(runs, ok, n) == Some(t)
    decreases n
  {
    if n - 1 > t {
      FirstStopAt(runs, ok, n - 1, t);
    } else {
      assert FirstStop(runs, ok, n - 1).None?;
    }
  }

  /** Errors that end the run. */
  datatype FuzzError =
    | Distribution(cause: DistrError)
    | Io(reason: string)
    | AlreadyExists(name: string)

  /** The length of the random suffix shared by the two artifact names. */
  const SUFFIX_LEN: nat := 12

  function InputName(suffix: string): string {
    "input-" + suffix
  }

  function ArgsName(suffix: string): string {
    "args-" + suffix
  }

  /** The two names of one artifact pair differ, and each determines the suffix. */
  lemma ArtifactNames(s: string, s': string)
    ensures InputName(s) != ArgsName(s')
    ensures InputName(s) == InputName(s') ==> s == s'
    ensures ArgsName(s) == ArgsName(s') ==> s == s'
  {
    assert InputName(s)[0] != ArgsName(s')[0];
    if InputName(s) == InputName(s') {
      assert s == InputName(s)[6..] && s' == InputName(s')[6..];
    }
    if ArgsName(s) == ArgsName(s') {
      assert s == ArgsName(s)[5..] && s' == ArgsName(s')[5..];
    }
  }

  /**
   * The file system as the recorder sees it: names and contents. Creating
   * a file fails when the name is taken; writes to a created file succeed.
   */
  class Directory {
    var files: map<string, seq<byte>>

    constructor (files: map<string, seq<byte>>)
      ensures this.files == files
    {
      this.files := files;
    }

    /** `File::create_new`: a new empty file, refused when the name exists. */
    method CreateNew(name: string) returns (created: bool)
      modifies this
      ensures created <==> name !in old(files)
      ensures files == if created then old(files)[name := []] else old(files)
    {
      created := name !in files;
      if created {
        files := files[name := []];
      }
    }

    /** `write_all` to a file already created. */
    method WriteAll(name: string, bytes: seq<byte>)
      requires name in files
      modifies this
      ensures files == old(files)[name := old(files)[name] + bytes]
    {
      files := files[name := files[name] + bytes];
    }
  }

  /** What recording with `suffix` returns, given the files already there. */
  function RecordResult(files: map<string, seq<byte>>, suffix: string): Result<(), FuzzError> {
    if InputName(suffix) in files then Err(AlreadyExists(InputName(suffix)))
    else if ArgsName(suffix) in files then Err(AlreadyExists(ArgsName(suffix)))
    else Ok(())
  }

  /**
   * The files after recording with `suffix`: the input file is written
   * when its name is free, the args file when both names are; a partly
   * written pair is not removed.
   */
  function RecordedFiles(files: map<string, seq<byte>>, suffix: string, input: seq<byte>, args: seq<seq<byte>>)
    : map<string, seq<byte>>
  {
    if InputName(suffix) in files then files
    else if ArgsName(suffix) in files then files[InputName(suffix) := input]
    else files[InputName(suffix) := input][ArgsName(suffix) := ArgsFile.Encode(args)]
  }

  /**
   * A successful recording leaves every other file alone and leaves a pair
   * from which the failing case can be read back exactly.
   */
  lemma RecordedCaseReadsBack(files: map<string, seq<byte>>, suffix: string, input: seq<byte>, args: seq<seq<byte>>)
    requires RecordResult(files, suffix).Ok? && ArgsFile.Fits(args)
    ensures var after := RecordedFiles(files, suffix, input, args);
      && InputName(suffix) in after && ArgsName(suffix) in after
      && after[InputName(suffix)] == input
      && ArgsFile.Decode(after[ArgsName(suffix)]) == Some(args)
      && forall name :: name in files ==> name in after && after[name] == files[name]
  {
    ArtifactNames(suffix, suffix);
    ArgsFile.DecodeEncode(args);
  }

  /**
   * `record_input_and_args`: draw the suffix, write the payload to
   * `input-<suffix>`, then append each argument's entry to `args-<suffix>`.
   */
  method RecordInputAndArgs(rng: Rng, dir: Directory, input: seq<byte>, args: seq<seq<byte>>)
    returns (r: Result<(), FuzzError>, ghost suffix: string)
    modifies rng, dir
    ensures |suffix| == SUFFIX_LEN && forall i :: 0 <= i < |suffix| ==> IsHexDigit(suffix[i])
    ensures rng.trace == old(rng.trace) + Nibbles(suffix)
    ensures r == RecordResult(old(dir.files), suffix)
    ensures dir.files == RecordedFiles(old(dir.files), suffix, input, args)
  {
    ghost var files := dir.files;
    var s := HexString(rng, SUFFIX_LEN);
    suffix := s;
    ArtifactNames(s, s);
    var inputName := "input-" + s;
    var argsName := "args-" + s;
    assert inputName == InputName(s) && argsName == ArgsName(s) && argsName != inputName;
    var created := dir.CreateNew(inputName);
    if !created {
      return Err(AlreadyExists(inputName)), s;
    }
    dir.WriteAll(inputName, input);
    assert [] + input == input;
    Overwrite(files, inputName, [], input);

    created := dir.CreateNew(argsName);
    if !created {
      return Err(AlreadyExists(argsName)), s;
    }
    WriteEntries(dir, argsName, args);
    assert [] + ArgsFile.Encode(args) == ArgsFile.Encode(args);
    Overwrite(files[inputName := input], argsName, [], ArgsFile.Encode(args));
    r := Ok(());
  }

  lemma Overwrite(files: map<string, seq<byte>>, name: string, first: seq<byte>, second: seq<byte>)
    ensures files[name := first][name := second] == files[name := second]
  {
  }

  /** The loop of `record_input_and_args`: each argument's length prefix, then its bytes. */
  method WriteEntries(dir: Directory, name: string, args: seq<seq<byte>>)
    requires name in dir.files
    modifies dir
    ensures dir.files == old(dir.files)[name := old(dir.files)[name] + ArgsFile.Encode(args)]
  {
    var i := 0;
    assert args[..0] == [] && old(dir.files)[name] + [] == old(dir.files)[name];
    assert dir.files == old(dir.files)[name := old(dir.files)[name]];
    while i < |args|
      invariant i <= |args|
      invariant dir.files == old(dir.files)[name := old(dir.files)[name] + ArgsFile.Encode(args[..i])]
    {
      ghost var done := old(dir.files)[name] + ArgsFile.Encode(args[..i]);
      assert args[..i + 1][..i] == args[..i];
      assert ArgsFile.Encode(args[..i + 1]) == ArgsFile.Encode(args[..i]) + ArgsFile.Entry(args[i]);
      ArgsFile.AppendAssociates(old(dir.files)[name], ArgsFile.Encode(args[..i]), ArgsFile.Entry(args[i]));
      ArgsFile.AppendAssociates(done, ArgsFile.LengthPrefix(args[i]), args[i]);
      dir.WriteAll(name, ArgsFile.LengthPrefix(args[i]));
      dir.WriteAll(name, args[i]);
      i := i + 1;
    }
    assert args[..i] == args;
  }

  /** One trial as it was generated: the payload, the command built for it and the texts of its extra arguments. */
  datatype TrialCase = TrialCase(input: seq<byte>, command: ProcessCommand, extraTexts: seq<string>)

  /**
   * What one trial generates: a payload whose length is in
   * `nInputBytes`, and a command for `program` whose arguments are the
   * fixed ones followed by between `nArgs.start` and `nArgs.end` generated
   * ones, each the UTF-8 form of a text of at most `maxArgLen` characters,
   * with stdin piped and stdout and stderr discarded.
   */
  predicate Generated(
    c: TrialCase, program: seq<byte>, fixedArgs: seq<seq<byte>>,
    nArgs: NumberRange, maxArgLen: nat, nInputBytes: NumberRange)
  {
    && nInputBytes.start <= |c.input| <= nInputBytes.end
    && c.command.program == program
    && c.command.stdin == Piped && c.command.stdout == Null && c.command.stderr == Null
    && |c.command.args| == |fixedArgs| + |c.extraTexts|
    && c.command.args[..|fixedArgs|] == fixedArgs
    && nArgs.start <= |c.extraTexts| <= nArgs.end
    && forall i :: 0 <= i < |c.extraTexts| ==>
         |c.extraTexts[i]| <= maxArgLen && c.command.args[|fixedArgs| + i] == Utf8.Encode(c.extraTexts[i])
  }

  /** Every trial of a run was generated within the same bounds. */
  predicate AllGenerated(
    cases: seq<TrialCase>, program: seq<byte>, fixedArgs: seq<seq<byte>>,
    nArgs: NumberRange, maxArgLen: nat, nInputBytes: NumberRange)
  {
    forall j :: 0 <= j < |cases| ==> Generated(cases[j], program, fixedArgs, nArgs, maxArgLen, nInputBytes)
  }

  lemma AllGeneratedSnoc(
    cases: seq<TrialCase>, c: TrialCase, program: seq<byte>, fixedArgs: seq<seq<byte>>,
    nArgs: NumberRange, maxArgLen: nat, nInputBytes: NumberRange)
    requires AllGenerated(cases, program, fixedArgs, nArgs, maxArgLen, nInputBytes)
    requires Generated(c, program, fixedArgs, nArgs, maxArgLen, nInputBytes)
    ensures AllGenerated(cases + [c], program, fixedArgs, nArgs, maxArgLen, nInputBytes)
  {
    forall j | 0 <= j < |cases| + 1
      ensures Generated((cases + [c])[j], program, fixedArgs, nArgs, maxArgLen, nInputBytes)
    {
      if j < |cases| {
        assert (cases + [c])[j] == cases[j];
      }
    }
  }

  /** The draws one trial takes: the payload's length and bytes, then the argument count and each argument. */
  function TrialDraws(c: TrialCase): seq<nat> {
    [|c.input|] + c.input + [|c.extraTexts|] + ArgDraws(c.extraTexts)
  }

  /** The draws of a run of trials, in order. */
  function CasesDraws(cases: seq<TrialCase>): seq<nat> {
    if cases == [] then [] else CasesDraws(cases[..|cases| - 1]) + TrialDraws(cases[|cases| - 1])
  }

  lemma CasesDrawsSnoc(cases: seq<TrialCase>, c: TrialCase)
    ensures CasesDraws(cases + [c]) == CasesDraws(cases) + TrialDraws(c)
  {
    assert (cases + [c])[..|cases|] == cases;
  }

  /** One iteration of `fuzz`'s loop before the child runs: generate the payload and the extra arguments, then build the command. */
  method PrepareTrial(rng: Rng, command: Command, nArgs: NumberRange, maxArgLen: nat, nInputBytes: NumberRange)
    returns (r: Result<(seq<byte>, ProcessCommand), FuzzError>, ghost c: TrialCase)
    requires maxArgLen >= 1
    modifies rng
    ensures r.Ok? <==> nInputBytes.Valid() && nArgs.Valid()
    ensures r.Err? ==> r.error == Distribution(EmptyRange)
    ensures !nInputBytes.Valid() ==> rng.trace == old(rng.trace)
    ensures r.Ok? ==> r.value == (c.input, c.command)
    ensures r.Ok? ==> Generated(c, command.program, command.args, nArgs, maxArgLen, nInputBytes)
    ensures r.Ok? ==> rng.trace == old(rng.trace) + TrialDraws(c)
  {
    c := TrialCase([], NewProcess(command.program), []);
    var inputResult := Stdin(rng, nInputBytes);
    if inputResult.Err? {
      return Err(Distribution(inputResult.error)), c;
    }
    var input := inputResult.value;
    var extraResult;
    ghost var texts;
    extraResult, texts := ExtraArgs(rng, nArgs, maxArgLen);
    if extraResult.Err? {
      return Err(Distribution(extraResult.error)), c;
    }
    var extra := extraResult.value;
    var trialCommand := command.CloneWithArgs(extra);
    var built := trialCommand.Build();
    assert built.args == command.args + extra;
    c := TrialCase(input, built, texts);
    r := Ok((input, built));
  }

  /** The trial that stopped the run, as it was generated, and the suffix it was recorded under. */
  datatype FailingCase = FailingCase(trial: nat, trialCase: TrialCase, suffix: string)

  predicate IsSuffix(s: string) {
    |s| == SUFFIX_LEN && forall i :: 0 <= i < |s| ==> IsHexDigit(s[i])
  }

  /** How the trial loop of `fuzz` ends. */
  datatype LoopEnd =
    | Unprepared(error: FuzzError)
    | AllPassed
    | Broken(reason: string)
    | Failed(input: seq<byte>, command: ProcessCommand)

  /**
   * The `for` loop of `fuzz`: prepare a trial, let its child run as
   * `runs[t]` says, and go on only while it passes. `cases` are the trials
   * generated, in order.
   */
  method RunTrials(
    rng: Rng, command: Command,
    nTries: nat, nArgs: NumberRange, maxArgLen: nat, nInputBytes: NumberRange,
    okCodes: set<int>, runs: seq<ChildRun>)
    returns (end: LoopEnd, ghost cases: seq<TrialCase>)
    requires nTries >= 1 && maxArgLen >= 1
    requires |runs| >= nTries
    modifies rng
    ensures AllGenerated(cases, command.program, command.args, nArgs, maxArgLen, nInputBytes)
    ensures !nInputBytes.Valid() ==> rng.trace == old(rng.trace)
    ensures nInputBytes.Valid() && nArgs.Valid() ==> rng.trace == old(rng.trace) + CasesDraws(cases)
    ensures end.Unprepared? <==> !(nInputBytes.Valid() && nArgs.Valid())
    ensures end.Unprepared? ==> end.error == Distribution(EmptyRange) && cases == []
    ensures !end.Unprepared? && FirstStop(runs, okCodes, nTries).None? ==>
      end == AllPassed && |cases| == nTries
    ensures !end.Unprepared? && FirstStop(runs, okCodes, nTries).Some? ==>
      var k := FirstStop(runs, okCodes, nTries).value;
      && |cases| == k + 1
      && (runs[k].IoFailed? ==> end == Broken(runs[k].reason))
      && (runs[k].Exited? ==> end == Failed(cases[k].input, cases[k].command))
  {
    cases := [];
    ghost var program, fixedArgs := command.program, command.args;
    var t := 0;
    while t < nTries
      invariant t <= nTries && |cases| == t
      invariant t > 0 ==> nInputBytes.Valid() && nArgs.Valid()
      invariant forall j :: 0 <= j < t ==> Passes(runs[j], okCodes)
      invariant AllGenerated(cases, program, fixedArgs, nArgs, maxArgLen, nInputBytes)
      invariant rng.trace == old(rng.trace) + CasesDraws(cases)
    {
      var prepared;
      ghost var c;
      prepared, c := PrepareTrial(rng, command, nArgs, maxArgLen, nInputBytes);
      if prepared.Err? {
        return Unprepared(prepared.error), cases;
      }
      var (input, built) := prepared.value;
      CasesDrawsSnoc(cases, c);
      ArgsFile.AppendAssociates(old(rng.trace), CasesDraws(cases), TrialDraws(c));
      AllGeneratedSnoc(cases, c, program, fixedArgs, nArgs, maxArgLen, nInputBytes);
      cases := cases + [c];

      if !Passes(runs[t], okCodes) {
        FirstStopAt(runs, okCodes, nTries, t);
        if runs[t].IoFailed? {
          return Broken(runs[t].reason), cases;
        }
        return Failed(input, built), cases;
      }
      assert forall j :: 0 <= j < t + 1 ==> Passes(runs[j], okCodes);
      t := t + 1;
    }
    end := AllPassed;
  }

  /**
   * `fuzz`. The randomness source and the directory are parameters; how
   * the child of trial `t` ends is `runs[t]`. The run stops at the first
   * trial that does not pass: an I/O error is returned, an exit code
   * outside `okCodes` or a signal is recorded. If all `nTries` trials pass
   * nothing is written. `cases` are the trials generated, in order, and
   * the generator's draws are theirs followed by the recording suffix.
   */
  method Fuzz(
    rng: Rng, dir: Directory,
    program: seq<byte>, fixedArgs: seq<seq<byte>>,
    nTries: nat, nArgs: NumberRange, maxArgLen: nat, nInputBytes: NumberRange,
    okCodes: set<int>, runs: seq<ChildRun>)
    returns (r: Result<(), FuzzError>, ghost trials: nat, ghost cases: seq<TrialCase>, ghost failure: Option<FailingCase>)
    requires nTries >= 1 && maxArgLen >= 1
    requires |runs| >= nTries
    modifies rng, dir
    ensures 1 <= trials <= nTries
    ensures AllGenerated(cases, program, fixedArgs, nArgs, maxArgLen, nInputBytes)
    ensures !nInputBytes.Valid() ==> rng.trace == old(rng.trace)
    ensures nInputBytes.Valid() && nArgs.Valid() && failure.None? ==> rng.trace == old(rng.trace) + CasesDraws(cases)
    ensures failure.Some? ==>
      IsSuffix(failure.value.suffix) && rng.trace == old(rng.trace) + CasesDraws(cases) + Nibbles(failure.value.suffix)
    ensures !(nInputBytes.Valid() && nArgs.Valid()) ==>
      r == Err(Distribution(EmptyRange)) && trials == 1 && cases == [] && failure.None? && dir.files == old(dir.files)
    ensures nInputBytes.Valid() && nArgs.Valid() ==> |cases| == trials
    ensures nInputBytes.Valid() && nArgs.Valid() && FirstStop(runs, okCodes, nTries).None? ==>
      r == Ok(()) && trials == nTries && failure.None? && dir.files == old(dir.files)
    ensures nInputBytes.Valid() && nArgs.Valid() && FirstStop(runs, okCodes, nTries).Some? ==>
      var k := FirstStop(runs, okCodes, nTries).value;
      && trials == k + 1
      && (runs[k].IoFailed? ==>
            r == Err(Io(runs[k].reason)) && failure.None? && dir.files == old(dir.files))
      && (runs[k].Exited? ==>
            && failure.Some?
            && var f := failure.value;
            && f.trial == k
            && f.trialCase == cases[k]
            && r == RecordResult(old(dir.files), f.suffix)
            && dir.files == RecordedFiles(old(dir.files), f.suffix, f.trialCase.input, f.trialCase.command.args))
  {
    var command := new Command(program);
    command.WithArgs(fixedArgs);
    var end;
    end, cases := RunTrials(rng, command, nTries, nArgs, maxArgLen, nInputBytes, okCodes, runs);
    trials := if end.Unprepared? then 1 else |cases|;
    failure := None;
    match end
    case Unprepared(e) =>
      r := Err(e);
    case AllPassed =>
      r := Ok(());
    case Broken(reason) =>
      r := Err(Io(reason));
    case Failed(input, built) =>
      ghost var suffix;
      r, suffix := RecordInputAndArgs(rng, dir, input, built.args);
      failure := Some(FailingCase(|cases| - 1, cases[|cases| - 1], suffix));
  }
}

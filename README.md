# basic-fuzzer, modelled in Dafny

basic-fuzzer is a black-box command-line fuzzer. It runs a target program up
to `n_tries` times. Each run gets the user's fixed arguments followed by
randomly generated extra arguments, and a random stdin payload. It records
the first run whose exit status is not on an allow-list, so that the failing
case can be replayed. This project models its core and proves properties of
that model:

- **`NumberRange`** (`number_range.dfy`): the inclusive range type that the
  command line reads as `N` or `A..=B`. Its constructor, `From`, `Default`,
  parser and printer are pure functions. The main property is that parsing
  the printed form of any range gives back that range, which clap's
  `default_value_t` relies on.
- **Generators** (`generate.dfy`): the random source is a class `Rng` with a
  single primitive that draws from an inclusive range. Its ghost `trace`
  lists every value drawn, in order, so each generator's contract states
  the shape of its result and exactly which draws it consumed: lengths and
  counts drawn from their ranges, every payload byte a draw, every suffix
  character a nibble written by `from_digit(_, 16)`.
- **Command builder** (`command.dfy`): a class whose `with_args` appends to
  the argument vector. `build` yields a record of the process configuration.
- **Trial loop and recorder** (`fuzz.dfy`):
  - the classification of each exit status against the allow-list;
  - the loop that stops at the first trial that does not pass;
  - the recorder, which writes `input-<suffix>` and `args-<suffix>` into a
    modelled directory.

  The `args-` layout is an eight-byte little-endian length followed by the
  bytes, for each argument. It comes with a reader, proved to invert the
  writer in both directions.
- Supporting modules model the parts of Rust's standard library the core
  depends on. `digits.dfy` covers `char::to_digit`, `char::from_digit`, the
  decimal `Display` of `usize` and `usize::from_str` (64-bit `usize`: the
  optional leading `+` and the overflow error are modelled). `utf8.dfy`
  covers UTF-8, which is the byte form of an `OsString` made from a
  `String`. `bytes.dfy` covers `u64::to_le_bytes`.

Integers are `nat`. `usize` bounds appear where the source depends on them:
parsing fails above `usize::MAX`, and `len() as u64` keeps the low 64 bits.
Randomness, the child process and the file system are parameters:
- an `Rng` object;
- a sequence `runs` with one `ChildRun` per trial, which is either the exit
  code from `child.wait()?.code()` or the I/O error of spawning, writing or
  waiting;
- a `Directory` object mapping file names to contents.

Where the code and the documented design of the system differ, the model follows the code:
- The maximum argument length counts characters (Unicode scalar values),
  not bytes, because `string(rng, n)` takes `n` characters. A generated
  argument therefore has between `len` and `4 * len` bytes
  (`Generate.GeneratedArgsAreText`).
- A file-name collision while recording is returned as the run's error,
  because `fuzz` returns the recorder's result.

## Model

| member | source | states |
|---|---|---|
| `NumberRanges.New` | src/cli/number_range.rs:32-34 | a range is returned exactly when `end >= start`, holding exactly those endpoints |
| `NumberRanges.FromValue` | src/cli/number_range.rs:52-57 | `From(value)` is the valid range with `start == end == value` |
| `NumberRanges.Default` | src/cli/number_range.rs:70-75 | the default is the valid zero-width range `[0, 0]` |
| `NumberRanges.ParseValue` | src/cli/number_range.rs:42-45 | succeeds exactly when `usize::from_str` does, with its value; otherwise fails with that error's message |
| `NumberRanges.FindFrom` | src/cli/number_range.rs:100 | finds the first `..=` at or after an index, and none is skipped; `None` only when there is none |
| `NumberRanges.SplitOnce` | src/cli/number_range.rs:100 | `split_once("..=")` gives the text before and after the first separator, and `None` exactly when there is no separator |
| `NumberRanges.Parse` | src/cli/number_range.rs:99-107 | every range it returns has `start <= end` and fits in `usize` |
| `NumberRanges.ParseWithoutSeparator` | src/cli/number_range.rs:104-105 | text without `..=` parses as the one-value range of its value, or fails with the value parser's error |
| `NumberRanges.ParseWithSeparator` | src/cli/number_range.rs:100-103 | after the split, an endpoint's error is passed on unchanged (the start's first); `B < A` fails with "Cannot construct a backwards range"; otherwise the result is `[A, B]` |
| `NumberRanges.Format` | src/cli/number_range.rs:82-89 | the printed form opens with the printed start value, and is that value alone exactly when `start == end` |
| `NumberRanges.FormatShape` | src/cli/number_range.rs:82-89 | the printed form is `start` alone when `start == end`, otherwise `start..=end`, and it contains `..=` exactly when the endpoints differ |
| `NumberRanges.FormatThenParse` | src/cli/number_range.rs:82-107 | parsing the printed form of any valid `usize` range gives back that range |
| `NumberRanges.DefaultRoundTrip` | src/cli/mod.rs:25 | the default prints as `0` and parses back to the default |
| `NumberRanges.ParseSingleExample` | src/cli/number_range.rs:104-105 | `"5"` parses to the single-value range `[5,5]` |
| `NumberRanges.ParseRangeExample` | src/cli/number_range.rs:100-103 | `"3..=7"` parses to `[3,7]` |
| `NumberRanges.ParseBackwardsExample` | src/cli/number_range.rs:100-103 | `"7..=3"` is refused with the backwards-range message |
| `NumberRanges.ParseInvalidExamples` | src/cli/number_range.rs:104-105 | `"abc"` and `""` are refused with the integer parser's own messages |
| `Digits.ParseUsize` | src/cli/number_range.rs:43 | a successful parse fits in `usize`; the empty-input error happens exactly for empty text |
| `Digits.ParseUsizeOk` | src/cli/number_range.rs:43 | `from_str` succeeds exactly on an optionally `+`-signed string of decimal digits whose value fits, and returns that value |
| `Digits.ParseShowNat` | src/cli/number_range.rs:85-87 | `from_str` reads back what `Display` prints, for every `usize` |
| `Digits.ShowNat` | src/cli/number_range.rs:85 | `Display` prints at least one decimal digit, with no leading zero except for `0` itself |
| `Digits.FromDigit` | src/generate.rs:49 | `from_digit(n, radix)` is defined exactly when `n < radix`, giving a decimal digit below ten and a lower-case letter from ten up |
| `Digits.ToDigit` | src/cli/number_range.rs:43 | `to_digit(c, radix)` gives `c`'s value (digits from `0`, letters of either case from ten) exactly when it is below the radix, and `None` for any other character |
| `Digits.FromDigitThenToDigit` | src/generate.rs:49 | `from_digit(n, radix)` is defined for every `n < radix`, and `to_digit` reads it back as `n` |
| `Generate.Rng.SampleInclusive` | src/generate.rs:28-31 | a sample of `Uniform::new_inclusive(lo, hi)` lies in `[lo, hi]`, and it is appended to the trace |
| `Generate.Rng.SampleBelow` | src/generate.rs:47 | a sample of `Uniform::new(lo, hi)` lies in `[lo, hi)` |
| `Generate.Rng.FillBytes` | src/generate.rs:83 | every byte of the buffer is overwritten, and the bytes are exactly the new draws in order |
| `Generate.Rng.SampleChar` | src/generate.rs:65 | a `char` sample consumes exactly one draw, the one that maps to that character |
| `Generate.DrawOfChar` | src/generate.rs:65 | every character is reached by exactly one draw in the gap-shifted range |
| `Generate.NFromRange` | src/generate.rs:53-59 | succeeds exactly for a valid range, with one draw in `[start, end]`; on failure nothing is drawn |
| `Generate.RandomBytes` | src/generate.rs:77-86 | a new buffer of exactly `n` bytes, all of them draws |
| `Generate.Stdin` | src/generate.rs:36-41 | the payload length is drawn from the range (so `[k,k]` gives exactly `k`), and the bytes are the draws that follow it |
| `Generate.HexString` | src/generate.rs:43-51 | exactly `len` characters, each in `0-9a-f`, each the `from_digit(_, 16)` of one draw in `[0,16)` |
| `Generate.RandomString` | src/generate.rs:61-68 | exactly `n` characters, one draw each |
| `Generate.RandomOsString` | src/generate.rs:70-75 | the argument is the UTF-8 form of an `n`-character generated text |
| `Generate.ExtraArgs` | src/generate.rs:19-34 | succeeds exactly for a valid count range; the number of arguments is the first draw and lies in the range, so `[k,k]` gives `k` items; each argument comes from a text of at most `max_len` characters drawn after its length |
| `Generate.ArgsOfLengthsUpTo` | src/generate.rs:30-33 | yields exactly `count` arguments, each the UTF-8 form of a text of at most `max_len` characters, and the generator sees, per argument, its length draw followed by its character draws |
| `Generate.GeneratedArgsAreText` | src/generate.rs:70-75 | a generated argument decodes back to its text, and has between one and four bytes per character |
| `Utf8.Encode` | src/command_impls/fuzz.rs:54 | the byte form of a string has between one and four bytes per character |
| `Utf8.DecodeEncode` | src/command_impls/fuzz.rs:54 | decoding the byte form of a string gives back the string |
| `Commands.Command.constructor` | src/command.rs:18-23 | the new builder has the given program and no arguments |
| `Commands.Command.WithArgs` | src/command.rs:25-31 | the arguments become the old ones followed by the new ones; the old ones stay a prefix; no new arguments means no change; the program is unchanged |
| `Commands.Command.Clone` | src/command.rs:11 | a new builder with the same program and arguments |
| `Commands.Command.CloneWithArgs` | src/command_impls/fuzz.rs:21-23 | extending a clone gives the fixed arguments followed by the extra ones, and leaves the original untouched |
| `Commands.ProcessCommand.Args` | src/command.rs:36 | `Command::args` appends the given arguments after the existing ones and changes nothing else |
| `Commands.Command.Build` | src/command.rs:33-42 | the process gets exactly this program and these arguments, in order, with stdin piped and stdout and stderr set to null |
| `Bytes.LittleEndian` | src/command_impls/fuzz.rs:56 | `k` bytes, which denote `n` reduced modulo `256^k` |
| `Bytes.LittleEndianRoundTrip` | src/command_impls/fuzz.rs:55-56 | the little-endian bytes of a value that fits read back as that value |
| `Bytes.LittleEndianValueRoundTrip` | src/command_impls/fuzz.rs:55-56 | writing the value of eight bytes gives back those bytes |
| `ArgsFile.LengthPrefix` | src/command_impls/fuzz.rs:55-56 | the length prefix is always eight bytes, and it denotes the length modulo `2^64`, as `as u64` keeps the low 64 bits |
| `ArgsFile.LengthPrefixRoundTrip` | src/command_impls/fuzz.rs:55-56 | the prefix reads back as the argument's length |
| `ArgsFile.Encode` | src/command_impls/fuzz.rs:54-58 | the file's length is the sum of `8 + len` over the arguments |
| `ArgsFile.EncodeAppend` | src/command_impls/fuzz.rs:54-58 | the file is the concatenation of per-argument entries, in order |
| `ArgsFile.DecodeEncode` | src/command_impls/fuzz.rs:54-58 | reading the file back gives exactly the argument list written, empty arguments included |
| `ArgsFile.EncodeDecode` | src/command_impls/fuzz.rs:54-58 | any input the reader accepts is the file written for the list it returns |
| `Fuzz.Classify` | src/command_impls/fuzz.rs:32-36 | a code in the allow-list passes; a code outside it fails with that code; no code (a signal) fails by signal |
| `Fuzz.FirstStop` | src/command_impls/fuzz.rs:18-39 | gives the first of the first `n` trials that does not pass, and `None` exactly when all of them pass |
| `Fuzz.ArtifactNames` | src/command_impls/fuzz.rs:49-53 | `input-s` and `args-s` never clash, and each name determines its suffix |
| `Fuzz.Directory.CreateNew` | src/command_impls/fuzz.rs:51-53 | creation fails exactly when the name exists; otherwise an empty file is added and nothing else changes |
| `Fuzz.Directory.WriteAll` | src/command_impls/fuzz.rs:51-57 | the bytes are appended to that file alone |
| `Fuzz.WriteEntries` | src/command_impls/fuzz.rs:54-58 | the loop appends exactly the encoding of the argument list to the file |
| `Fuzz.RecordInputAndArgs` | src/command_impls/fuzz.rs:45-61 | draws a 12-character hex suffix, then either fails on the first name taken or writes the payload to `input-<s>` and the encoded arguments to `args-<s>` |
| `Fuzz.RecordedCaseReadsBack` | src/command_impls/fuzz.rs:49-58 | after a successful recording both files exist, the input file holds the payload, the args file decodes to the arguments, and no other file changed |
| `Fuzz.FirstStopAt` | src/command_impls/fuzz.rs:18-39 | a trial that does not pass, after trials that all pass, is where the loop stops |
| `Fuzz.PrepareTrial` | src/command_impls/fuzz.rs:19-28 | a trial's payload length is in its range, and its command is the fixed arguments followed by the generated ones; only an invalid range fails; the draws taken are the payload's length and bytes, then the argument count and each argument's length and characters |
| `Fuzz.RunTrials` | src/command_impls/fuzz.rs:18-39 | the loop generates one case per trial, each drawn right after the previous one, and ends after the first trial that does not pass: an I/O failure ends it with that error, a failing code or signal with that trial's own payload and command; all passing ends it after `n_tries` trials |
| `Fuzz.Fuzz` | src/command_impls/fuzz.rs:12-43 | at most `n_tries` trials, stopping at the first that does not pass; if all pass the result is `Ok` and nothing is written; an I/O error is returned; a failing code or a signal records the payload and the fixed-plus-generated arguments of that very trial (the case generated `k`-th, where `k` is the first stop) under one suffix; the generator's draws are those of the trials in order, then the suffix's |

## Left out

- Process lifecycle (`spawn`, writing stdin, `wait`): each trial's result is an abstract `ChildRun` taken from `runs`. These are operating-system operations.
- Standard-error messages (`eprintln!`): they are output only and do not affect control flow.
- Randomness statistics: uniformity, seeding by `rand::rng()` and the real generator are not modelled. `Rng`'s body is a stand-in linear congruential step, and only its range contract is used. `fill_bytes` is modelled as one draw per byte.
- `FuzzArguments` and `ok_exit_codes()` are not part of this model: the allow-list is a given set of codes.
- File system: `create_new` fails only when the name is taken, and writes to a created file always succeed. Other I/O errors are platform behaviour.
- `Fuzz.Fuzz`: does not state that the arguments in a recorded case fit a `u64` length, so reading the file back (`Fuzz.RecordedCaseReadsBack`) takes that as a requirement. Real slices are far shorter than 2^64 bytes.
- `Digits.ParseUsize`: which error (`InvalidDigit` or `PosOverflow`) a bad string gets is computed as Rust does, left to right, but no lemma states it beyond success and the empty-input case.
- `extra_args` returns a lazy iterator, modelled as an eager sequence: `with_args` consumes it before spawning, so the order of draws is the same.
- `with_args` and `build` take the builder by value. They are modelled as in-place updates of a `Command` object, with `Clone` producing a fresh object.
- `From<NumberRange<T>> for RangeInclusive<T>` (src/cli/number_range.rs:60-64) and the accessors `start`/`end`: they are plain conversions, and the datatype's fields play their part.
- Exit codes are unbounded integers rather than `i32`: the allow-list is only tested for membership, so the width does not change any outcome.
- `Fuzz.Fuzz`: when the payload range is valid and the argument-count range is empty, the first trial's payload draws happen before the failure; the contract does not state those draws.
- `NumberRange` is modelled for `T = usize` only, with `usize` 64 bits wide.
- `src/main.rs`, `src/cli.rs`, `src/cli/mod.rs`: clap wiring only, apart from the default round trip cited above.
- `src/command_impls/recreate.rs` is unimplemented (`todo!()`). `ArgsFile.Decode` models the reader it would need.
- `src/command_impls/mod.rs`: re-exports only.

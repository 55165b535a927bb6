# CreateLoad argument parsing, in Dafny

CreateLoad is a small Windows console program. It keeps a number of worker
threads busy for a given time, at normal or real-time priority. This project
models how it reads its command line. The C++ function `ParseArguments`
turns `argv` into an `Args` record. That record has four fields:

- `useRealTime`
- `useHardwareConcurrency`
- `numWorkerThreads`
- `runTimeSeconds`

The project also models `GetMaxThreads`, the upper bound on `--threads`.

The model has three modules:

- `CRuntime` (`crt.dfy`) models the C library calls the parser relies on,
  with the integer widths of a Windows build:
  - `tolower` in the "C" locale;
  - base-10 `strtoul`, where `unsigned long` is 32 bits. A '-' sign negates
    in unsigned arithmetic, and values that are too large clamp to
    `ULONG_MAX`;
  - base-10 `strtoll`, which clamps to `LLONG_MIN`..`LLONG_MAX`.
  It also proves how these read back decimal numbers.
- `CreateLoad` (`create_load.dfy`) has the `Args` record and `MaxThreads`.
  - `MaxThreads(hc)` is `4 * hc` in 32-bit unsigned arithmetic, where `hc`
    stands for `thread::hardware_concurrency()`.
  - `ParseSpec` is a specification of what the parser computes. `Tokenize`
    decides which lower-cased tokens after the program name are options and
    which are the values of `--threads` and `--time`. `Interpret` applies the
    options left to right to a zeroed record and fails at the first
    out-of-range value. `WithDefaults` fills in 1 thread and 15 seconds.
  - The imperative parser has the same shape as the source. `BuildArgList`
    copies and lower-cases every argument and appends the sentinel `""`.
    `ReadOptions` is the option loop, and `ReadOption` is its body: it reads
    the option at index `i` and steps the index past a value.
    `ParseArguments` ties them together and applies the defaults. It is
    proved equal to `ParseSpec`.
- `CreateLoadProperties` (`create_load_properties.dfy`) proves what the
  parser promises, over `ParseSpec`. `Positions(toks)` are the indices the
  parser compares against option names: every token that is not the value
  of a preceding `--threads` or `--time`.

A trailing `--threads` or `--time` reads the sentinel `""` that the code
pushes after the last argument. That converts to 0, so the arguments are
rejected (`DanglingFlagFails`).

`strtoul` wraps negative input, so `--threads -4294967295` is accepted as
1 thread when GetMaxThreads() is at least 1 (`NegativeThreadCountWraps`). This is what the library does, not
a defect of the parser.

## Model

| member | source | states |
|---|---|---|
| CreateLoad.ParseArguments | CreateLoad/CreateLoad.cpp:48-106 | returns true exactly when `ParseSpec` accepts `argv`; the record it then produces is the specification's; on false the caller's `args` is returned unchanged |
| CreateLoad.BuildArgList | CreateLoad/CreateLoad.cpp:50-60 | the list is every argument lower-cased, in order, followed by the sentinel `""` |
| CreateLoad.TransformToLower | CreateLoad/CreateLoad.cpp:56-57 | the in-place `tolower` pass yields the argument with each character lower-cased |
| CreateLoad.ReadOptions | CreateLoad/CreateLoad.cpp:62-93 | the option loop succeeds exactly when interpreting the tokens between the program name and the sentinel succeeds, and then yields the interpreted record |
| CreateLoad.ReadOption | CreateLoad/CreateLoad.cpp:64-92 | one iteration accepts exactly when the option at index `i` (with the next token as its value) applies to the record; it then yields the applied record and moves the index just past the option and its value, leaving the loop's outcome unchanged; a rejection makes that outcome a rejection |
| CreateLoad.MaxThreads | CreateLoad/CreateLoad.cpp:43-46 | `GetMaxThreads()` is four times the hardware concurrency when that does not wrap; it is always a multiple of 4 below `ULONG_MAX` |
| CreateLoad.OptionLoopInterprets | CreateLoad/CreateLoad.cpp:62-93 | reading options by stepping an index over the sentinel-terminated list gives the same result as `Interpret` after `Tokenize` of the remaining tokens |
| CRuntime.StrToULOfDecimal | CreateLoad/CreateLoad.cpp:67 | `strtoul` reads back every 32-bit value from its decimal form |
| CRuntime.StrToULOfNegative | CreateLoad/CreateLoad.cpp:67 | `strtoul("-n")` is 2^32 - n for 0 < n <= ULONG_MAX |
| CRuntime.StrToLLOfDecimal | CreateLoad/CreateLoad.cpp:86 | `strtoll` reads back every n <= LLONG_MAX from "n", and -n from "-n" |
| CRuntime.NoDigitsConvertsToZero | CreateLoad/CreateLoad.cpp:67 | a token without digits, such as the sentinel or an option name, converts to 0 |
| CRuntime.LowerKeepsNumbers | CreateLoad/CreateLoad.cpp:56-67 | lower-casing a value before conversion never changes the number read |
| CreateLoadProperties.ParseAcceptsIff | CreateLoad/CreateLoad.cpp:62-93 | accepted exactly when every `--threads` value at an option position is in 1..GetMaxThreads() and every `--time` value is in 1..86400 |
| CreateLoadProperties.DanglingFlagFails | CreateLoad/CreateLoad.cpp:60-67 | a trailing `--threads` or `--time` reads the sentinel `""` and is rejected |
| CreateLoadProperties.OptionNameAsValueFails | CreateLoad/CreateLoad.cpp:64-67 | an option name given as the value of `--threads` or `--time` is rejected |
| CreateLoadProperties.ThreadsThenRtFails | CreateLoad/CreateLoad.cpp:64-77 | `--threads --rt` is rejected, because "--rt" is read as the value |
| CreateLoadProperties.ValueNeverAnOption | CreateLoad/CreateLoad.cpp:64-67 | the token after `--threads` or `--time` at an option position is never itself an option position |
| CreateLoadProperties.ParseBounds | CreateLoad/CreateLoad.cpp:64-102 | on success the thread count is at least 1, and is 1, the hardware concurrency or at most GetMaxThreads() (at most 4*hc when that does not wrap); the run time is in 1..86400 |
| CreateLoadProperties.ParseTimeIsLast | CreateLoad/CreateLoad.cpp:83-102 | the last `--time` at an option position decides the run time; with none it is 15 seconds |
| CreateLoadProperties.ParseThreadsIsLast | CreateLoad/CreateLoad.cpp:64-98 | the last of `--threads` and `--hc` decides the thread count (`--hc` gives hc, or 1 when hc is 0); with neither it is 1 |
| CreateLoadProperties.ParseFlags | CreateLoad/CreateLoad.cpp:74-82 | `useRealTime` is set exactly when `--rt` is at an option position, `useHardwareConcurrency` exactly when `--hc` is |
| CreateLoadProperties.CaseInsensitive | CreateLoad/CreateLoad.cpp:54-62 | argument lists that agree after lower-casing, from index 1 on, parse alike, whatever `argv[0]` is |
| CreateLoadProperties.IgnoredTokenRemovable | CreateLoad/CreateLoad.cpp:62-93 | removing an unrecognised token at an option position does not change the outcome |
| CreateLoadProperties.InterpretLastWins | CreateLoad/CreateLoad.cpp:62-93 | over the options read, the last one of a kind decides its field, and with none the field keeps its starting value |
| CreateLoadProperties.InterpretSucceedsIff | CreateLoad/CreateLoad.cpp:62-93 | the options are accepted exactly when each one's value is in range |
| CreateLoadProperties.Defaults | CreateLoad/CreateLoad.cpp:95-102 | with no options: 1 thread, normal priority, 15 seconds |
| CreateLoadProperties.ThreadsAndTimeAccepted | CreateLoad/CreateLoad.cpp:62-102 | `--threads t --time s` with both in range gives t threads for s seconds |
| CreateLoadProperties.TooManyThreadsRejected | CreateLoad/CreateLoad.cpp:64-71 | `--threads t` with any t above GetMaxThreads() is rejected, including values that `strtoul` clamps to `ULONG_MAX` |
| CreateLoadProperties.NegativeThreadCountWraps | CreateLoad/CreateLoad.cpp:64-72 | `--threads -n` is accepted as 2^32 - n threads when that is in range |

## Left out

- `thread::hardware_concurrency()` is not called. It is the parameter `hc`, which can be any 32-bit value, 0 included.
- Everything after parsing is left out, because concurrency, timing and Windows priority calls are outside this model: `main`, `PrintUsage`, `DoLoad`, `RunUntilTimeout`, `WaitForStartSignal`, `SignalStart`, `ElevateThreadToHighestPriority` and `ProcessResult`.
- `argc` is the length of `argv`, so a negative or inconsistent `argc` is not modelled.
- `tolower` is modelled for the "C" locale only. Strings are sequences of characters, so the undefined behaviour of `tolower` on negative `char` values does not arise.
- `strtoul` and `strtoll` do not model `errno`, the end-of-number output argument or bases other than 10. The parser uses none of these.
- CreateLoad.ParseArguments returns the new `args` instead of writing through a reference.

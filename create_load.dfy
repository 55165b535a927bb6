/** The command-line parser of CreateLoad: `ParseArguments` and the `Args`
    record it fills in, together with a specification of what it computes.

    The specification reads the lower-cased tokens after the program name
    in two stages: `Tokenize` decides which tokens are options and which are
    the values that follow `--threads` and `--time`, and `Interpret` applies
    the options left to right to a zero-initialised record, failing on the
    first out-of-range value. `WithDefaults` then fills in 1 thread and 15
    seconds where nothing was set. The method `ParseArguments` follows the
    source: a sentinel "" after the last token and an index that the loop
    body advances past each value. */
module CreateLoad {
  import opened CRuntime

  datatype Option<T> = None | Some(value: T)

  /** The `Args` struct. `useHardwareConcurrency` is recorded but never read. */
  datatype Args = Args(
    useRealTime: bool,
    useHardwareConcurrency: bool,
    numWorkerThreads: uint32,
    runTimeSeconds: int64)

  /** The record the parser fills in before copying it to the caller: all
      flags false, no thread count and no run time. */
  const Zero := Args(false, false, 0, 0)

  const MAX_TIME_SECONDS := 86400
  const DEFAULT_TIME_SECONDS := 15

  /** `GetMaxThreads`: four times the hardware concurrency, in 32-bit
      unsigned arithmetic; `hc` stands for `thread::hardware_concurrency()`. */
  function MaxThreads(hc: uint32): (r: uint32)
    ensures hc < 0x4000_0000 ==> r == 4 * hc
    ensures r % 4 == 0 && r < ULONG_MAX
  {
    (hc * 4) % 0x1_0000_0000
  }

  /** An option as the parser sees it, with the token read as its value. */
  datatype Opt =
    | Threads(value: string)
    | RealTime
    | HardwareConcurrency
    | Time(value: string)
    | Ignored(token: string)

  /** The two options that consume the next token as their value. */
  predicate TakesValue(t: string) {
    t == "--threads" || t == "--time"
  }

  predicate Recognized(t: string) {
    t == "--threads" || t == "--rt" || t == "--hc" || t == "--time"
  }

  /** How many tokens the option at the head of toks occupies; a trailing
      `--threads` or `--time` has no value token after it. */
  function Width(toks: seq<string>): nat
    requires |toks| > 0
  {
    if TakesValue(toks[0]) && |toks| > 1 then 2 else 1
  }

  /** The value of an option at the head of toks: the next token, or ""
      when there is none. */
  function ValueAfter(toks: seq<string>): string
    requires |toks| > 0
  {
    if |toks| > 1 then toks[1] else ""
  }

  /** The option at the head of toks. */
  function Classify(toks: seq<string>): Opt
    requires |toks| > 0
  {
    if toks[0] == "--threads" then Threads(ValueAfter(toks))
    else if toks[0] == "--rt" then RealTime
    else if toks[0] == "--hc" then HardwareConcurrency
    else if toks[0] == "--time" then Time(ValueAfter(toks))
    else Ignored(toks[0])
  }

  /** The options of a token list, read left to right. */
  function Tokenize(toks: seq<string>): seq<Opt>
    decreases |toks|
  {
    if toks == [] then [] else [Classify(toks)] + Tokenize(toks[Width(toks)..])
  }

  /** Whether an option with an in-range value is accepted. */
  predicate Accepted(o: Opt, hc: uint32) {
    match o
    case Threads(v) => 1 <= StrToUL(v) <= MaxThreads(hc)
    case Time(v) => 1 <= StrToLL(v) <= MAX_TIME_SECONDS
    case _ => true
  }

  /** One branch of the loop of `ParseArguments`. */
  function Apply(acc: Args, o: Opt, hc: uint32): Option<Args> {
    match o
    case Threads(v) =>
      var value := StrToUL(v);
      if value == 0 || value > MaxThreads(hc) then None
      else Some(acc.(numWorkerThreads := value))
    case RealTime => Some(acc.(useRealTime := true))
    case HardwareConcurrency =>
      Some(acc.(useHardwareConcurrency := true, numWorkerThreads := hc))
    case Time(v) =>
      var value := StrToLL(v);
      if value <= 0 || value > MAX_TIME_SECONDS then None
      else Some(acc.(runTimeSeconds := value))
    case Ignored(_) => Some(acc)
  }

  /** The options applied left to right; None at the first rejected one. */
  function Interpret(opts: seq<Opt>, hc: uint32, acc: Args): Option<Args>
    decreases |opts|
  {
    if opts == [] then Some(acc)
    else match Apply(acc, opts[0], hc)
      case None => None
      case Some(a) => Interpret(opts[1..], hc, a)
  }

  /** The defaults applied after the loop: 1 thread, 15 seconds. */
  function WithDefaults(a: Args): Args {
    a.(numWorkerThreads := if a.numWorkerThreads == 0 then 1 else a.numWorkerThreads,
       runTimeSeconds := if a.runTimeSeconds == 0 then DEFAULT_TIME_SECONDS else a.runTimeSeconds)
  }

  function LowerAll(argv: seq<string>): seq<string> {
    seq(|argv|, k requires 0 <= k < |argv| => LowerString(argv[k]))
  }

  /** The lower-cased tokens after the program name `argv[0]`. */
  function Tokens(argv: seq<string>): seq<string> {
    if argv == [] then [] else LowerAll(argv[1..])
  }

  /** What `ParseArguments` computes: None for `return false`, otherwise
      the record it assigns to `args`. */
  function ParseSpec(argv: seq<string>, hc: uint32): Option<Args> {
    match Interpret(Tokenize(Tokens(argv)), hc, Zero)
    case None => None
    case Some(a) => Some(WithDefaults(a))
  }

  /** The tokens after index i of the sentinel-terminated list, excluding the sentinel. */
  ghost function Remaining(argList: seq<string>, n: nat, i: nat): seq<string>
    requires n <= |argList|
  {
    if i <= n then argList[i..n] else []
  }

  /** How far the loop index moves past the option at index i. */
  function Step(t: string): nat {
    if TakesValue(t) then 2 else 1
  }

  /** The loop of `ParseArguments` from index i of the sentinel-terminated
      list, as a function: read the option there, apply it, and resume
      after its value, if it has one. */
  ghost function OptionLoop(argList: seq<string>, n: nat, i: nat, hc: uint32, acc: Args): Option<Args>
    requires |argList| == n + 1 && 1 <= i <= n + 1
    decreases n + 1 - i
  {
    if i >= n then Some(acc)
    else match Apply(acc, Classify(argList[i..]), hc)
      case None => None
      case Some(a) => OptionLoop(argList, n, i + Step(argList[i]), hc, a)
  }

  lemma OptionLoopStep(argList: seq<string>, n: nat, i: nat, hc: uint32, acc: Args)
    requires |argList| == n + 1 && 1 <= i < n
    ensures Apply(acc, Classify(argList[i..]), hc).None? ==> OptionLoop(argList, n, i, hc, acc) == None
    ensures Apply(acc, Classify(argList[i..]), hc).Some? ==>
              OptionLoop(argList, n, i, hc, acc)
              == OptionLoop(argList, n, i + Step(argList[i]), hc, Apply(acc, Classify(argList[i..]), hc).value)
  {
  }

  /** The options of the tokens from index i of the sentinel-terminated list:
      the one at i, then those after its value. The sentinel makes the value
      of a trailing `--threads` or `--time` read as "". */
  lemma TokenizeRemaining(argList: seq<string>, n: nat, i: nat)
    requires |argList| == n + 1 && argList[n] == "" && 1 <= i < n
    ensures Tokenize(Remaining(argList, n, i))
         == [Classify(argList[i..])] + Tokenize(Remaining(argList, n, i + Step(argList[i])))
  {
    var rest := Remaining(argList, n, i);
    assert rest[0] == argList[i] && argList[i..][0] == argList[i];
    assert ValueAfter(rest) == argList[i + 1] == ValueAfter(argList[i..]);
    assert Classify(rest) == Classify(argList[i..]);
    assert rest[Width(rest)..] == Remaining(argList, n, i + Step(argList[i]));
  }

  lemma InterpretCons(o: Opt, rest: seq<Opt>, hc: uint32, acc: Args)
    ensures Interpret([o] + rest, hc, acc)
         == match Apply(acc, o, hc)
            case None => None
            case Some(a) => Interpret(rest, hc, a)
  {
    assert ([o] + rest)[0] == o && ([o] + rest)[1..] == rest;
  }

  /** The loop computes the specification of the tokens it has not read yet. */
  lemma {:induction false} OptionLoopInterprets(argList: seq<string>, n: nat, i: nat, hc: uint32, acc: Args)
    requires |argList| == n + 1 && argList[n] == "" && 1 <= i <= n + 1
    ensures OptionLoop(argList, n, i, hc, acc) == Interpret(Tokenize(Remaining(argList, n, i)), hc, acc)
    decreases n + 1 - i
  {
    if i < n {
      TokenizeRemaining(argList, n, i);
      InterpretCons(Classify(argList[i..]), Tokenize(Remaining(argList, n, i + Step(argList[i]))), hc, acc);
      match Apply(acc, Classify(argList[i..]), hc)
      case None =>
      case Some(a) => OptionLoopInterprets(argList, n, i + Step(argList[i]), hc, a);
    } else {
      assert Remaining(argList, n, i) == [];
    }
  }

  /** Lower-casing one argument: a copy of it has each character replaced
      by its lower-case form, one position at a time. */
  method TransformToLower(arg: string) returns (s: string)
    ensures s == LowerString(arg)
  {
    s := arg;
    var j := 0;
    while j < |s|
      invariant 0 <= j <= |s| == |arg|
      invariant forall m :: 0 <= m < j ==> s[m] == ToLower(arg[m])
      invariant forall m :: j <= m < |s| ==> s[m] == arg[m]
    {
      s := s[j := ToLower(s[j])];
      j := j + 1;
    }
  }

  /** The first half of `ParseArguments`: every argument is copied,
      lower-cased and pushed onto `argList`, then the sentinel "" is pushed. */
  method BuildArgList(argv: seq<string>) returns (argList: seq<string>)
    ensures argList == LowerAll(argv) + [""]
  {
    argList := [];
    var i := 0;
    while i < |argv|
      invariant 0 <= i <= |argv|
      invariant |argList| == i
      invariant forall k :: 0 <= k < i ==> argList[k] == LowerString(argv[k])
    {
      var s := TransformToLower(argv[i]);
      argList := argList + [s];
      i := i + 1;
    }
    assert argList == LowerAll(argv);
    argList := argList + [""];
  }

  /** The tokens between the program name and the sentinel. */
  function Between(argList: seq<string>): seq<string> {
    if |argList| < 2 then [] else argList[1..|argList| - 1]
  }

  /** One iteration of the second loop of `ParseArguments`: the option at
      index i is applied to acc, and the index moves past it and its value.
      accepted is false when the value is out of range. */
  method ReadOption(argList: seq<string>, n: nat, i: nat, hc: uint32, acc: Args)
    returns (accepted: bool, next: nat, argsTemp: Args)
    requires |argList| == n + 1 && 1 <= i < n
    ensures i < next <= n + 1
    ensures accepted <==> Apply(acc, Classify(argList[i..]), hc).Some?
    ensures accepted ==> next == i + Step(argList[i])
    ensures accepted ==> argsTemp == Apply(acc, Classify(argList[i..]), hc).value
    ensures !accepted ==> OptionLoop(argList, n, i, hc, acc) == None
    ensures accepted ==> OptionLoop(argList, n, i, hc, acc) == OptionLoop(argList, n, next, hc, argsTemp)
  {
    next := i;
    argsTemp := acc;
    OptionLoopStep(argList, n, i, hc, acc);
    ghost var result := Apply(acc, Classify(argList[i..]), hc);
    assert argList[i..][0] == argList[i] && argList[i..][1] == argList[i + 1];
    if argList[next] == "--threads" {
      assert Classify(argList[i..]) == Threads(argList[i + 1]);
      next := next + 1;
      var value := StrToUL(argList[next]);
      if value == 0 || value > MaxThreads(hc) {
        assert result == None;
        return false, next, argsTemp;
      }
      argsTemp := argsTemp.(numWorkerThreads := value);
    } else if argList[next] == "--rt" {
      assert Classify(argList[i..]) == RealTime;
      argsTemp := argsTemp.(useRealTime := true);
    } else if argList[next] == "--hc" {
      assert Classify(argList[i..]) == HardwareConcurrency;
      argsTemp := argsTemp.(useHardwareConcurrency := true, numWorkerThreads := hc);
    } else if argList[next] == "--time" {
      assert Classify(argList[i..]) == Time(argList[i + 1]);
      next := next + 1;
      var value := StrToLL(argList[next]);
      if value <= 0 || value > MAX_TIME_SECONDS {
        assert result == None;
        return false, next, argsTemp;
      }
      argsTemp := argsTemp.(runTimeSeconds := value);
    } else {
      assert Classify(argList[i..]) == Ignored(argList[i]);
    }
    assert result == Some(argsTemp);
    return true, next + 1, argsTemp;
  }

  /** The second loop of `ParseArguments`: the options after the program
      name are applied in turn to a zero-initialised record, the index
      stepping over the value of `--threads` and `--time`. The list ends in
      the sentinel "", which a trailing `--threads` or `--time` reads as its
      value. ok is false at the first out-of-range value. */
  method ReadOptions(argList: seq<string>, hc: uint32) returns (ok: bool, argsTemp: Args)
    requires |argList| > 0 && argList[|argList| - 1] == ""
    ensures ok <==> Interpret(Tokenize(Between(argList)), hc, Zero).Some?
    ensures ok ==> argsTemp == Interpret(Tokenize(Between(argList)), hc, Zero).value
  {
    var n := |argList| - 1;
    argsTemp := Zero;
    ghost var outcome := OptionLoop(argList, n, 1, hc, Zero);
    OptionLoopInterprets(argList, n, 1, hc, Zero);
    assert Remaining(argList, n, 1) == Between(argList);

    var i := 1;
    while i < n
      invariant 1 <= i <= n + 1
      invariant OptionLoop(argList, n, i, hc, argsTemp) == outcome
      decreases n + 1 - i
    {
      var accepted;
      accepted, i, argsTemp := ReadOption(argList, n, i, hc, argsTemp);
      if !accepted {
        return false, argsTemp;
      }
    }
    return true, argsTemp;
  }

  /** The parser, with the argument count taken as the length of argv. It returns
      whether the arguments are valid and the new value of `args`, which is
      the old one when they are not. */
  method ParseArguments(argv: seq<string>, hc: uint32, args: Args) returns (ok: bool, argsOut: Args)
    ensures ok <==> ParseSpec(argv, hc).Some?
    ensures ok ==> argsOut == ParseSpec(argv, hc).value
    ensures !ok ==> argsOut == args
  {
    var argList := BuildArgList(argv);
    assert Between(argList) == Tokens(argv);
    var valid, argsTemp := ReadOptions(argList, hc);
    if !valid {
      return false, args;
    }

    if argsTemp.numWorkerThreads == 0 {
      argsTemp := argsTemp.(numWorkerThreads := 1);
    }
    if argsTemp.runTimeSeconds == 0 {
      argsTemp := argsTemp.(runTimeSeconds := DEFAULT_TIME_SECONDS);
    }

    return true, argsTemp;
  }
}

/** What `ParseArguments` promises, stated over its specification `ParseSpec`
    and the lower-cased tokens that follow the program name.

    An index k of those tokens is an option position when the parser
    compares it against the option names; the positions are `Positions`,
    in increasing order, one per element of `Tokenize`. A token right after
    `--threads` or `--time` is that option's value and is never an option
    position. */
module CreateLoadProperties {
  import opened CRuntime
  import opened CreateLoad

  /** The option read at index k of toks. */
  function OptAt(toks: seq<string>, k: nat): Opt
    requires k < |toks|
  {
    Classify(toks[k..])
  }

  function ShiftAll(ps: seq<nat>, w: nat): (r: seq<nat>)
    ensures |r| == |ps| && forall i :: 0 <= i < |ps| ==> r[i] == ps[i] + w
  {
    seq(|ps|, i requires 0 <= i < |ps| => ps[i] + w)
  }

  /** The option positions of toks, left to right: the first token, and
      after each option the token following it and its value. */
  function Positions(toks: seq<string>): (ps: seq<nat>)
    ensures |ps| == |Tokenize(toks)|
    ensures forall i :: 0 <= i < |ps| ==> ps[i] < |toks|
    decreases |toks|
  {
    if toks == [] then [] else [0] + ShiftAll(Positions(toks[Width(toks)..]), Width(toks))
  }

  lemma PositionsTail(toks: seq<string>, i: nat)
    requires |toks| > 0 && 1 <= i < |Positions(toks)|
    ensures Positions(toks)[i] == Positions(toks[Width(toks)..])[i - 1] + Width(toks)
  {
    var w := Width(toks);
    var shifted := ShiftAll(Positions(toks[w..]), w);
    assert Positions(toks) == [0] + shifted;
    assert Positions(toks)[i] == shifted[i - 1];
  }

  lemma PositionsHead(toks: seq<string>)
    requires |Positions(toks)| > 0
    ensures Positions(toks)[0] == 0
  {
    assert toks != [];
    assert Positions(toks) == [0] + ShiftAll(Positions(toks[Width(toks)..]), Width(toks));
  }

  /** Each position is followed by the next after the width of its option;
      so the positions increase. */
  lemma {:induction false} PositionsStep(toks: seq<string>, i: nat)
    requires i + 1 < |Positions(toks)|
    ensures Positions(toks)[i + 1] == Positions(toks)[i] + Width(toks[Positions(toks)[i]..])
    decreases |toks|
  {
    var w := Width(toks);
    var rest := toks[w..];
    var ps := Positions(toks);
    var qs := Positions(rest);
    PositionsTail(toks, i + 1);
    assert ps[i + 1] == qs[i] + w;
    if i > 0 {
      PositionsTail(toks, i);
      PositionsStep(rest, i - 1);
      assert rest[qs[i - 1]..] == toks[ps[i]..];
    } else {
      PositionsHead(toks);
      PositionsHead(rest);
      assert toks[ps[0]..] == toks;
    }
  }

  lemma {:induction false} PositionsIncrease(toks: seq<string>, i: nat, j: nat)
    requires i < j < |Positions(toks)|
    ensures Positions(toks)[i] < Positions(toks)[j]
    decreases j - i
  {
    PositionsStep(toks, j - 1);
    if i < j - 1 {
      PositionsIncrease(toks, i, j - 1);
    }
  }

  /** The option read at each position is the matching element of `Tokenize`. */
  lemma {:induction false} PositionsRead(toks: seq<string>, i: nat)
    requires i < |Positions(toks)|
    ensures Tokenize(toks)[i] == OptAt(toks, Positions(toks)[i])
    decreases |toks|
  {
    var w := Width(toks);
    var rest := toks[w..];
    if i > 0 {
      PositionsTail(toks, i);
      PositionsRead(rest, i - 1);
      assert rest[Positions(rest)[i - 1]..] == toks[Positions(toks)[i]..];
    } else {
      assert toks[0..] == toks;
    }
  }

  /** The positions are increasing indices of toks, and the option read at
      each is the matching element of `Tokenize`. */
  lemma PositionsFacts(toks: seq<string>)
    ensures forall i :: 0 <= i < |Positions(toks)| ==> Tokenize(toks)[i] == OptAt(toks, Positions(toks)[i])
    ensures forall i, j :: 0 <= i < j < |Positions(toks)| ==> Positions(toks)[i] < Positions(toks)[j]
  {
    forall i | 0 <= i < |Positions(toks)| ensures Tokenize(toks)[i] == OptAt(toks, Positions(toks)[i]) {
      PositionsRead(toks, i);
    }
    forall i, j | 0 <= i < j < |Positions(toks)| ensures Positions(toks)[i] < Positions(toks)[j] {
      PositionsIncrease(toks, i, j);
    }
  }

  /** A token list whose last option has its value: reading it never looks
      past its end. */
  predicate Closed(toks: seq<string>)
    decreases |toks|
  {
    toks == [] || ((TakesValue(toks[0]) ==> |toks| > 1) && Closed(toks[Width(toks)..]))
  }

  /** The options an option kind sets: the thread count (`--threads`,
      `--hc`) or the run time (`--time`). */
  predicate SetsTime(o: Opt, time: bool) {
    if time then o.Time? else o.Threads? || o.HardwareConcurrency?
  }

  /** Element i of opts is the last one of its kind. */
  predicate IsLast(opts: seq<Opt>, i: int, time: bool) {
    0 <= i < |opts| && SetsTime(opts[i], time)
    && forall j :: i < j < |opts| ==> !SetsTime(opts[j], time)
  }

  /** Token k of toks is the last option position of its kind. */
  predicate IsLastAt(toks: seq<string>, k: nat, time: bool) {
    k in Positions(toks) && SetsTime(OptAt(toks, k), time)
    && forall j :: j in Positions(toks) && k < j ==> !SetsTime(OptAt(toks, j), time)
  }

  /** The thread count and run time are either unset or in range. */
  predicate InRange(a: Args, hc: uint32) {
    (a.numWorkerThreads == 0 || a.numWorkerThreads == hc || 1 <= a.numWorkerThreads <= MaxThreads(hc))
    && (a.runTimeSeconds == 0 || 1 <= a.runTimeSeconds <= MAX_TIME_SECONDS)
  }

  // ---------------------------------------------------------------------
  // Option positions

  lemma ShiftAllToPositions(toks: seq<string>, k: nat)
    requires k in Positions(toks) && k > 0
    ensures k >= Width(toks) && k - Width(toks) in Positions(toks[Width(toks)..])
  {
    var w := Width(toks);
    var rest := Positions(toks[w..]);
    var i :| 0 <= i < |Positions(toks)| && Positions(toks)[i] == k;
    assert i > 0;
    assert k == rest[i - 1] + w;
  }

  /** Reading the tokens before an option position ends exactly there. */
  lemma {:induction false} PositionPrefixClosed(toks: seq<string>, k: nat)
    requires k in Positions(toks)
    ensures Closed(toks[..k])
  {
    if k > 0 {
      var w := Width(toks);
      ShiftAllToPositions(toks, k);
      PositionPrefixClosed(toks[w..], k - w);
      assert toks[..k][0] == toks[0];
      assert toks[..k][w..] == toks[w..][..k - w];
    } else {
      assert toks[..k] == [];
    }
  }

  /** The options of a closed prefix are followed by those of the rest. */
  lemma {:induction false} ClosedAppend(p: seq<string>, u: seq<string>)
    requires Closed(p)
    ensures Tokenize(p + u) == Tokenize(p) + Tokenize(u)
    decreases |p|
  {
    if p == [] {
      assert p + u == u;
    } else {
      var w := Width(p);
      assert (p + u)[0] == p[0];
      assert |p| > 1 ==> (p + u)[1] == p[1];
      assert Width(p + u) == w;
      assert Classify(p + u) == Classify(p);
      assert (p + u)[w..] == p[w..] + u;
      ClosedAppend(p[w..], u);
    }
  }

  lemma PositionSplit(toks: seq<string>, k: nat)
    requires k in Positions(toks)
    ensures Tokenize(toks) == Tokenize(toks[..k]) + Tokenize(toks[k..])
  {
    var p, u := toks[..k], toks[k..];
    PositionPrefixClosed(toks, k);
    ClosedAppend(p, u);
    assert p + u == toks;
  }

  /** The token after `--threads` or `--time` is consumed as its value and
      is never read as an option. */
  lemma ValueNeverAnOption(toks: seq<string>, k: nat)
    requires k in Positions(toks) && TakesValue(toks[k])
    ensures k + 1 !in Positions(toks)
  {
    var ps := Positions(toks);
    var i :| 0 <= i < |ps| && ps[i] == k;
    if k + 1 < |toks| {
      assert toks[k..][0] == toks[k];
      assert Width(toks[k..]) == 2;
      forall j | 0 <= j < |ps| ensures ps[j] != k + 1 {
        if j < i {
          PositionsIncrease(toks, j, i);
        } else if j > i {
          PositionsStep(toks, i);
          if j > i + 1 {
            PositionsIncrease(toks, i + 1, j);
          }
        }
      }
    }
  }

  // ---------------------------------------------------------------------
  // Interpreting options

  lemma {:induction false} InterpretAppend(x: seq<Opt>, y: seq<Opt>, hc: uint32, acc: Args)
    ensures Interpret(x + y, hc, acc)
         == match Interpret(x, hc, acc) case None => None case Some(a) => Interpret(y, hc, a)
    decreases |x|
  {
    if x == [] {
      assert x + y == y;
    } else {
      assert (x + y)[0] == x[0];
      assert (x + y)[1..] == x[1..] + y;
      match Apply(acc, x[0], hc)
      case None =>
      case Some(a) => InterpretAppend(x[1..], y, hc, a);
    }
  }

  /** The options are accepted exactly when each one's value is in range. */
  lemma {:induction false} InterpretSucceedsIff(opts: seq<Opt>, hc: uint32, acc: Args)
    ensures Interpret(opts, hc, acc).Some? <==> forall k :: 0 <= k < |opts| ==> Accepted(opts[k], hc)
    decreases |opts|
  {
    if opts != [] {
      assert forall k :: 0 < k < |opts| ==> opts[k] == opts[1..][k - 1];
      match Apply(acc, opts[0], hc)
      case None =>
      case Some(a) => InterpretSucceedsIff(opts[1..], hc, a);
    }
  }

  lemma {:induction false} InterpretKeepsRanges(opts: seq<Opt>, hc: uint32, acc: Args, r: Args)
    requires InRange(acc, hc) && Interpret(opts, hc, acc) == Some(r)
    ensures InRange(r, hc)
    decreases |opts|
  {
    if opts != [] {
      var a := Apply(acc, opts[0], hc).value;
      InterpretKeepsRanges(opts[1..], hc, a, r);
    }
  }

  lemma {:induction false} InterpretFlags(opts: seq<Opt>, hc: uint32, acc: Args, r: Args)
    requires Interpret(opts, hc, acc) == Some(r)
    ensures r.useRealTime <==> acc.useRealTime || exists k :: 0 <= k < |opts| && opts[k] == RealTime
    ensures r.useHardwareConcurrency
        <==> acc.useHardwareConcurrency || exists k :: 0 <= k < |opts| && opts[k] == HardwareConcurrency
    decreases |opts|
  {
    if opts != [] {
      var a := Apply(acc, opts[0], hc).value;
      InterpretFlags(opts[1..], hc, a, r);
      assert forall k :: 0 < k < |opts| ==> opts[k] == opts[1..][k - 1];
      assert forall k :: 0 <= k < |opts| - 1 ==> opts[1..][k] == opts[k + 1];
    }
  }

  /** The last option of a kind decides its field; with none, the field
      keeps its starting value. */
  lemma {:induction false} InterpretLastWins(opts: seq<Opt>, hc: uint32, acc: Args, r: Args, time: bool)
    requires Interpret(opts, hc, acc) == Some(r)
    ensures (forall k :: 0 <= k < |opts| ==> !SetsTime(opts[k], time)) ==>
              (if time then r.runTimeSeconds == acc.runTimeSeconds
               else r.numWorkerThreads == acc.numWorkerThreads)
    ensures forall k :: IsLast(opts, k, time) ==>
              (match opts[k]
               case Time(v) => r.runTimeSeconds == StrToLL(v)
               case Threads(v) => r.numWorkerThreads == StrToUL(v)
               case _ => r.numWorkerThreads == hc)
    decreases |opts|
  {
    if opts != [] {
      var a := Apply(acc, opts[0], hc).value;
      InterpretLastWins(opts[1..], hc, a, r, time);
      assert forall k :: 0 < k < |opts| ==> opts[k] == opts[1..][k - 1];
      forall k | IsLast(opts, k, time) && k > 0
        ensures IsLast(opts[1..], k - 1, time)
      {
      }
    }
  }

  // ---------------------------------------------------------------------
  // Properties of ParseArguments

  /** The arguments are accepted exactly when every `--threads` value in an
      option position is in 1..GetMaxThreads() and every `--time` value is
      in 1..86400. */
  lemma ParseAcceptsIff(argv: seq<string>, hc: uint32)
    ensures ParseSpec(argv, hc).Some?
        <==> forall k :: k in Positions(Tokens(argv)) ==> Accepted(OptAt(Tokens(argv), k), hc)
  {
    var toks := Tokens(argv);
    var opts := Tokenize(toks);
    var ps := Positions(toks);
    PositionsFacts(toks);
    InterpretSucceedsIff(opts, hc, Zero);
    if forall k :: k in ps ==> Accepted(OptAt(toks, k), hc) {
      assert forall i :: 0 <= i < |opts| ==> ps[i] in ps;
    } else {
      var k :| k in ps && !Accepted(OptAt(toks, k), hc);
      var i :| 0 <= i < |ps| && ps[i] == k;
      assert !Accepted(opts[i], hc);
    }
  }

  /** A trailing `--threads` or `--time` reads the sentinel "", which
      converts to 0, so the arguments are rejected. */
  lemma DanglingFlagFails(argv: seq<string>, hc: uint32)
    requires |Tokens(argv)| > 0
    requires |Tokens(argv)| - 1 in Positions(Tokens(argv))
    requires TakesValue(Tokens(argv)[|Tokens(argv)| - 1])
    ensures ParseSpec(argv, hc) == None
  {
    var toks := Tokens(argv);
    var k := |toks| - 1;
    NoDigitsConvertsToZero("");
    assert toks[k..] == [toks[k]];
    assert !Accepted(OptAt(toks, k), hc);
    ParseAcceptsIff(argv, hc);
  }

  /** A value that is itself an option name, as in `--threads --rt`,
      converts to 0, so the arguments are rejected. */
  lemma OptionNameAsValueFails(argv: seq<string>, hc: uint32, k: nat)
    requires k in Positions(Tokens(argv)) && TakesValue(Tokens(argv)[k])
    requires k + 1 < |Tokens(argv)| && Recognized(Tokens(argv)[k + 1])
    ensures ParseSpec(argv, hc) == None
  {
    var toks := Tokens(argv);
    var v := toks[k + 1];
    assert forall m :: 0 <= m < |v| ==> !IsDigit(v[m]);
    NoDigitsConvertsToZero(v);
    assert ValueAfter(toks[k..]) == v;
    assert !Accepted(OptAt(toks, k), hc);
    ParseAcceptsIff(argv, hc);
  }

  /** `--threads --rt` is rejected: "--rt" is the value, not an option. */
  lemma ThreadsThenRtFails(program: string, hc: uint32)
    ensures ParseSpec([program, "--threads", "--rt"], hc) == None
  {
    var argv := [program, "--threads", "--rt"];
    assert argv[1..] == ["--threads", "--rt"];
    assert LowerString("--threads") == "--threads";
    assert LowerString("--rt") == "--rt";
    assert Tokens(argv) == ["--threads", "--rt"];
    OptionNameAsValueFails(argv, hc, 0);
  }

  /** On success the thread count is at least 1 and is the default 1, the
      hardware concurrency (`--hc`) or at most GetMaxThreads(); the run time
      is in 1..86400. */
  lemma ParseBounds(argv: seq<string>, hc: uint32, a: Args)
    requires ParseSpec(argv, hc) == Some(a)
    ensures 1 <= a.numWorkerThreads
    ensures a.numWorkerThreads == 1 || a.numWorkerThreads == hc || a.numWorkerThreads <= MaxThreads(hc)
    ensures hc < 0x4000_0000 ==> a.numWorkerThreads == 1 || a.numWorkerThreads <= 4 * hc
    ensures 1 <= a.runTimeSeconds <= MAX_TIME_SECONDS
  {
    var r := Interpret(Tokenize(Tokens(argv)), hc, Zero).value;
    InterpretKeepsRanges(Tokenize(Tokens(argv)), hc, Zero, r);
  }

  /** The last option of a kind among the tokens is the last of that kind
      among the options read from them. */
  lemma LastAtIsLast(toks: seq<string>, k: nat, time: bool) returns (i: nat)
    requires IsLastAt(toks, k, time)
    ensures IsLast(Tokenize(toks), i, time) && Tokenize(toks)[i] == OptAt(toks, k)
  {
    var ps := Positions(toks);
    var opts := Tokenize(toks);
    PositionsFacts(toks);
    i :| 0 <= i < |ps| && ps[i] == k;
    forall j | i < j < |opts| ensures !SetsTime(opts[j], time) {
      assert ps[j] in ps && k < ps[j];
    }
  }

  lemma NoneAtIsNone(toks: seq<string>, time: bool)
    requires forall k :: k in Positions(toks) ==> !SetsTime(OptAt(toks, k), time)
    ensures forall i :: 0 <= i < |Tokenize(toks)| ==> !SetsTime(Tokenize(toks)[i], time)
  {
    var ps := Positions(toks);
    PositionsFacts(toks);
    assert forall i :: 0 <= i < |ps| ==> ps[i] in ps;
  }

  /** The option read at an option position is named by its token. */
  lemma OptAtNamed(toks: seq<string>, k: nat)
    requires k < |toks|
    ensures OptAt(toks, k).Threads? <==> toks[k] == "--threads"
    ensures OptAt(toks, k).Time? <==> toks[k] == "--time"
    ensures OptAt(toks, k) == RealTime <==> toks[k] == "--rt"
    ensures OptAt(toks, k) == HardwareConcurrency <==> toks[k] == "--hc"
    ensures OptAt(toks, k).Threads? || OptAt(toks, k).Time? ==> OptAt(toks, k).value == ValueAfter(toks[k..])
  {
    assert toks[k..][0] == toks[k];
  }

  /** The last `--time` in an option position decides the run time; with
      none, it is the default 15 seconds. */
  lemma ParseTimeIsLast(argv: seq<string>, hc: uint32, a: Args)
    requires ParseSpec(argv, hc) == Some(a)
    ensures (forall k :: k in Positions(Tokens(argv)) ==> Tokens(argv)[k] != "--time") ==>
              a.runTimeSeconds == DEFAULT_TIME_SECONDS
    ensures forall k: nat :: IsLastAt(Tokens(argv), k, true) ==>
              a.runTimeSeconds == StrToLL(ValueAfter(Tokens(argv)[k..]))
  {
    var toks := Tokens(argv);
    var opts := Tokenize(toks);
    var r := Interpret(opts, hc, Zero).value;
    assert a == WithDefaults(r);
    InterpretLastWins(opts, hc, Zero, r, true);
    InterpretSucceedsIff(opts, hc, Zero);
    if forall k :: k in Positions(toks) ==> toks[k] != "--time" {
      forall k | k in Positions(toks) ensures !SetsTime(OptAt(toks, k), true) {
        OptAtNamed(toks, k);
      }
      NoneAtIsNone(toks, true);
      assert r.runTimeSeconds == 0;
    }
    forall k: nat | IsLastAt(toks, k, true)
      ensures a.runTimeSeconds == StrToLL(ValueAfter(toks[k..]))
    {
      var i := LastAtIsLast(toks, k, true);
      OptAtNamed(toks, k);
      assert Accepted(opts[i], hc);
      assert r.runTimeSeconds == StrToLL(opts[i].value);
    }
  }

  /** Among `--threads` and `--hc` in option positions the last one decides
      the thread count; with neither, it is the default 1. `--hc` gives the
      hardware concurrency, or 1 when that is reported as 0. */
  lemma ParseThreadsIsLast(argv: seq<string>, hc: uint32, a: Args)
    requires ParseSpec(argv, hc) == Some(a)
    ensures (forall k :: k in Positions(Tokens(argv)) ==>
               Tokens(argv)[k] != "--threads" && Tokens(argv)[k] != "--hc") ==>
              a.numWorkerThreads == 1
    ensures forall k: nat :: IsLastAt(Tokens(argv), k, false) ==>
              a.numWorkerThreads
              == if Tokens(argv)[k] == "--threads" then StrToUL(ValueAfter(Tokens(argv)[k..]))
                 else if hc == 0 then 1 else hc
  {
    var toks := Tokens(argv);
    var opts := Tokenize(toks);
    var r := Interpret(opts, hc, Zero).value;
    assert a == WithDefaults(r);
    InterpretLastWins(opts, hc, Zero, r, false);
    InterpretSucceedsIff(opts, hc, Zero);
    if forall k :: k in Positions(toks) ==> toks[k] != "--threads" && toks[k] != "--hc" {
      forall k | k in Positions(toks) ensures !SetsTime(OptAt(toks, k), false) {
        OptAtNamed(toks, k);
      }
      NoneAtIsNone(toks, false);
      assert r.numWorkerThreads == 0;
    }
    forall k: nat | IsLastAt(toks, k, false)
      ensures a.numWorkerThreads
              == if toks[k] == "--threads" then StrToUL(ValueAfter(toks[k..]))
                 else if hc == 0 then 1 else hc
    {
      var i := LastAtIsLast(toks, k, false);
      OptAtNamed(toks, k);
      if toks[k] == "--threads" {
        assert Accepted(opts[i], hc);
        assert r.numWorkerThreads == StrToUL(opts[i].value);
      } else {
        assert r.numWorkerThreads == hc;
      }
    }
  }

  /** An option occurs among the options read exactly when its name is at
      an option position. */
  lemma OptionPresent(toks: seq<string>, o: Opt, name: string)
    requires (o == RealTime && name == "--rt") || (o == HardwareConcurrency && name == "--hc")
    ensures (exists i :: 0 <= i < |Tokenize(toks)| && Tokenize(toks)[i] == o)
        <==> (exists k :: k in Positions(toks) && toks[k] == name)
  {
    var ps := Positions(toks);
    var opts := Tokenize(toks);
    if i :| 0 <= i < |opts| && opts[i] == o {
      PositionsRead(toks, i);
      OptAtNamed(toks, ps[i]);
      assert ps[i] in ps && toks[ps[i]] == name;
    }
    if k :| k in ps && toks[k] == name {
      var i :| 0 <= i < |ps| && ps[i] == k;
      PositionsRead(toks, i);
      OptAtNamed(toks, k);
      assert opts[i] == o;
    }
  }

  /** `useRealTime` is set exactly when `--rt` is in an option position,
      and `useHardwareConcurrency` exactly when `--hc` is. */
  lemma ParseFlags(argv: seq<string>, hc: uint32, a: Args)
    requires ParseSpec(argv, hc) == Some(a)
    ensures a.useRealTime <==> exists k :: k in Positions(Tokens(argv)) && Tokens(argv)[k] == "--rt"
    ensures a.useHardwareConcurrency <==> exists k :: k in Positions(Tokens(argv)) && Tokens(argv)[k] == "--hc"
  {
    var toks := Tokens(argv);
    var opts := Tokenize(toks);
    var r := Interpret(opts, hc, Zero).value;
    assert a == WithDefaults(r);
    InterpretFlags(opts, hc, Zero, r);
    OptionPresent(toks, RealTime, "--rt");
    OptionPresent(toks, HardwareConcurrency, "--hc");
  }

  /** Option names are matched without regard to case, and `argv[0]` is
      never looked at: argument lists that agree after lower-casing, from
      index 1 on, parse alike. */
  lemma CaseInsensitive(argv: seq<string>, argv': seq<string>, hc: uint32)
    requires |argv| == |argv'|
    requires forall k :: 1 <= k < |argv| ==> LowerString(argv[k]) == LowerString(argv'[k])
    ensures ParseSpec(argv, hc) == ParseSpec(argv', hc)
  {
    assert Tokens(argv) == Tokens(argv');
  }

  /** Dropping an unrecognised token at an option position leaves the
      options read from the tokens the same, apart from that one. */
  lemma DropIgnored(toks: seq<string>, j: nat)
    requires j in Positions(toks) && !Recognized(toks[j])
    ensures Tokenize(toks) == Tokenize(toks[..j]) + ([Ignored(toks[j])] + Tokenize(toks[j + 1..]))
    ensures Tokenize(toks[..j] + toks[j + 1..]) == Tokenize(toks[..j]) + Tokenize(toks[j + 1..])
  {
    PositionSplit(toks, j);
    var tail := toks[j..];
    assert tail[0] == toks[j];
    assert Width(tail) == 1;
    assert tail[1..] == toks[j + 1..];
    assert Classify(tail) == Ignored(toks[j]);
    PositionPrefixClosed(toks, j);
    ClosedAppend(toks[..j], toks[j + 1..]);
  }

  lemma TokensWithout(argv: seq<string>, k: nat)
    requires 1 <= k < |argv|
    ensures Tokens(argv[..k] + argv[k + 1..]) == Tokens(argv)[..k - 1] + Tokens(argv)[k..]
  {
    var shorter := argv[..k] + argv[k + 1..];
    assert shorter[1..] == argv[1..k] + argv[k + 1..];
  }

  /** An ignored option in the middle of the options changes nothing. */
  lemma InterpretSkipsIgnored(x: seq<Opt>, y: seq<Opt>, t: string, hc: uint32)
    ensures Interpret(x + ([Ignored(t)] + y), hc, Zero) == Interpret(x + y, hc, Zero)
  {
    InterpretAppend(x, [Ignored(t)] + y, hc, Zero);
    InterpretAppend(x, y, hc, Zero);
    assert ([Ignored(t)] + y)[0] == Ignored(t);
    assert ([Ignored(t)] + y)[1..] == y;
  }

  /** Removing an unrecognised token from an option position changes nothing. */
  lemma IgnoredTokenRemovable(argv: seq<string>, hc: uint32, k: nat)
    requires 1 <= k < |argv| && k - 1 in Positions(Tokens(argv))
    requires !Recognized(LowerString(argv[k]))
    ensures ParseSpec(argv[..k] + argv[k + 1..], hc) == ParseSpec(argv, hc)
  {
    var toks := Tokens(argv);
    var j := k - 1;
    TokensWithout(argv, k);
    assert toks[j] == LowerString(argv[k]);
    DropIgnored(toks, j);
    var x := Tokenize(toks[..j]);
    var y := Tokenize(toks[j + 1..]);
    assert Tokenize(toks) == x + ([Ignored(toks[j])] + y);
    assert Tokenize(Tokens(argv[..k] + argv[k + 1..])) == x + y;
    InterpretSkipsIgnored(x, y, toks[j], hc);
  }

  // ---------------------------------------------------------------------
  // Examples

  /** With no options: 1 thread, normal priority, 15 seconds. */
  lemma Defaults(program: string, hc: uint32)
    ensures ParseSpec([program], hc) == Some(Args(false, false, 1, DEFAULT_TIME_SECONDS))
  {
    assert Tokens([program]) == [];
  }

  /** Lower-casing leaves a decimal number, signed or not, as it is. */
  lemma LowerDecimal(n: nat, sign: string)
    requires sign == [] || sign == "-"
    ensures LowerString(sign + Decimal(n)) == sign + Decimal(n)
  {
  }

  /** Tokens that are already lower case are the tokens read. */
  lemma TokensOfLower(program: string, rest: seq<string>)
    requires forall k :: 0 <= k < |rest| ==> LowerString(rest[k]) == rest[k]
    ensures Tokens([program] + rest) == rest
  {
    assert ([program] + rest)[1..] == rest;
  }

  lemma OptionNamesAreLower()
    ensures LowerString("--threads") == "--threads" && LowerString("--time") == "--time"
    ensures LowerString("--rt") == "--rt" && LowerString("--hc") == "--hc"
  {
  }

  /** An option that takes a value and has one is read together with it. */
  lemma TokenizeWithValue(toks: seq<string>)
    requires |toks| >= 2 && TakesValue(toks[0])
    ensures Tokenize(toks)
         == [if toks[0] == "--threads" then Threads(toks[1]) else Time(toks[1])] + Tokenize(toks[2..])
  {
  }

  lemma ThreadsAndTimeTokens(program: string, t: nat, secs: nat)
    ensures Tokens([program, "--threads", Decimal(t), "--time", Decimal(secs)])
         == ["--threads", Decimal(t), "--time", Decimal(secs)]
  {
    var toks := ["--threads", Decimal(t), "--time", Decimal(secs)];
    LowerDecimal(t, []);
    LowerDecimal(secs, []);
    assert [] + Decimal(t) == Decimal(t) && [] + Decimal(secs) == Decimal(secs);
    OptionNamesAreLower();
    assert [program, "--threads", Decimal(t), "--time", Decimal(secs)] == [program] + toks;
    TokensOfLower(program, toks);
  }

  lemma ThreadsAndTimeOptions(t: nat, secs: nat)
    ensures Tokenize(["--threads", Decimal(t), "--time", Decimal(secs)])
         == [Threads(Decimal(t)), Time(Decimal(secs))]
  {
    var toks := ["--threads", Decimal(t), "--time", Decimal(secs)];
    var rest := ["--time", Decimal(secs)];
    assert toks[2..] == rest && rest[2..] == [];
    TokenizeWithValue(toks);
    TokenizeWithValue(rest);
  }

  /** `--threads t --time s` with both values in range gives t threads for
      s seconds at normal priority. */
  lemma ThreadsAndTimeAccepted(program: string, hc: uint32, t: nat, secs: nat)
    requires 1 <= t <= MaxThreads(hc) && 1 <= secs <= MAX_TIME_SECONDS
    ensures ParseSpec([program, "--threads", Decimal(t), "--time", Decimal(secs)], hc)
         == Some(Args(false, false, t, secs))
  {
    ThreadsAndTimeTokens(program, t, secs);
    ThreadsAndTimeOptions(t, secs);
    StrToULOfDecimal(t);
    StrToLLOfDecimal(secs);
    var opts := [Threads(Decimal(t)), Time(Decimal(secs))];
    var a1 := Zero.(numWorkerThreads := t);
    assert opts[0] == Threads(Decimal(t)) && opts[1..] == [Time(Decimal(secs))];
    assert Apply(Zero, opts[0], hc) == Some(a1);
    assert opts[1..][1..] == [];
    assert Interpret(opts[1..], hc, a1) == Some(a1.(runTimeSeconds := secs));
  }

  /** `--threads t` with t above GetMaxThreads() is rejected. */
  lemma TooManyThreadsRejected(program: string, hc: uint32, t: nat)
    requires t > MaxThreads(hc)
    ensures ParseSpec([program, "--threads", Decimal(t)], hc) == None
  {
    var argv := [program, "--threads", Decimal(t)];
    var toks := ["--threads", Decimal(t)];
    LowerDecimal(t, []);
    assert [] + Decimal(t) == Decimal(t);
    OptionNamesAreLower();
    assert argv == [program] + toks;
    TokensOfLower(program, toks);
    SubjectOfDecimal(t, []);
    assert StrToUL(Decimal(t)) > MaxThreads(hc);
    assert Classify(toks) == Threads(Decimal(t)) && Width(toks) == 2;
    assert toks[2..] == [];
    assert Tokenize(toks) == [Threads(Decimal(t))];
  }

  /** strtoul turns "-n" into 2^32 - n, so `--threads -4294967295` is
      accepted as one thread, and any "-n" whose wrapped value is in range
      is accepted as that many threads. */
  lemma NegativeThreadCountWraps(program: string, hc: uint32, n: nat)
    requires 0 < n <= ULONG_MAX && 0x1_0000_0000 - n <= MaxThreads(hc)
    ensures ParseSpec([program, "--threads", "-" + Decimal(n)], hc)
         == Some(Args(false, false, 0x1_0000_0000 - n, DEFAULT_TIME_SECONDS))
  {
    var v := "-" + Decimal(n);
    var argv := [program, "--threads", v];
    var toks := ["--threads", v];
    LowerDecimal(n, "-");
    OptionNamesAreLower();
    assert argv == [program] + toks;
    TokensOfLower(program, toks);
    StrToULOfNegative(n);
    assert Classify(toks) == Threads(v) && Width(toks) == 2;
    assert toks[2..] == [];
    var opts := [Threads(v)];
    assert Tokenize(toks) == opts;
    assert opts[0] == Threads(v) && opts[1..] == [];
    assert Interpret(opts, hc, Zero) == Some(Zero.(numWorkerThreads := 0x1_0000_0000 - n));
  }
}

/**
  The command line of the historical-errors scheduler: `main` refuses fewer
  than five argv entries, then `parseArguments` scans the tokens into a
  key/value map and checks that `--input`, `--n` and `--queue` are all there,
  in that order, before converting `--n` with `stoi`.
 */
module Arguments {
  import opened Wrappers
  import opened Decimal

  const MUTE := "--mute"
  const INPUT := "--input"
  const JOBS := "--n"
  const QUEUE := "--queue"

  /** `main` prints the usage line and stops when argc is below this. */
  const MIN_ARGC := 5

  /** Every way the command line is refused; `MissingValue` carries the flag it names. */
  datatype ParseError =
    | Usage
    | MissingValue(key: string)
    | MissingInput
    | MissingJobs
    | MissingQueue
    | InvalidJobs
    | JobsOutOfRange

  /** What `parseArguments` returns, plus the global `muted` it sets. */
  datatype Config = Config(inputFile: string, numJobs: int, queueName: string, muted: bool)

  /** The state of the token loop: the `args` map and the `muted` flag. */
  datatype Scan = Scan(args: map<string, string>, muted: bool)

  const EmptyScan := Scan(map[], false)

  predicate IsValueFlag(t: string) {
    t == INPUT || t == JOBS || t == QUEUE
  }

  /** The tokens after the program name. */
  function Tokens(argv: seq<string>): seq<string> {
    if |argv| == 0 then [] else argv[1..]
  }

  /**
    The token loop: `--mute` sets the flag, a value flag takes the next token
    whatever it is (and fails when there is none), anything else is skipped.
   */
  function ScanTokens(toks: seq<string>, acc: Scan): Result<Scan, ParseError>
    decreases |toks|
  {
    if toks == [] then Success(acc)
    else if toks[0] == MUTE then ScanTokens(toks[1..], acc.(muted := true))
    else if IsValueFlag(toks[0]) then
      if |toks| < 2 then Failure(MissingValue(toks[0]))
      else ScanTokens(toks[2..], acc.(args := acc.args[toks[0] := toks[1]]))
    else ScanTokens(toks[1..], acc)
  }

  /** The checks after the loop, in the source's order, then the conversion of `--n`. */
  function Validate(s: Scan): (r: Result<Config, ParseError>)
    ensures r == Failure(MissingInput) <==> INPUT !in s.args
    ensures r == Failure(MissingJobs) <==> INPUT in s.args && JOBS !in s.args
    ensures r == Failure(MissingQueue) <==> INPUT in s.args && JOBS in s.args && QUEUE !in s.args
    ensures r == Failure(InvalidJobs) <==>
      INPUT in s.args && JOBS in s.args && QUEUE in s.args && Stoi(s.args[JOBS]) == Failure(InvalidArgument)
    ensures r == Failure(JobsOutOfRange) <==>
      INPUT in s.args && JOBS in s.args && QUEUE in s.args && Stoi(s.args[JOBS]) == Failure(OutOfRange)
    ensures r.Success? <==>
      INPUT in s.args && JOBS in s.args && QUEUE in s.args && Stoi(s.args[JOBS]).Success?
    ensures r.Success? ==>
      && r.value.inputFile == s.args[INPUT]
      && r.value.queueName == s.args[QUEUE]
      && Stoi(s.args[JOBS]) == Success(r.value.numJobs)
      && INT_MIN <= r.value.numJobs <= INT_MAX
      && r.value.muted == s.muted
  {
    if INPUT !in s.args then Failure(MissingInput)
    else if JOBS !in s.args then Failure(MissingJobs)
    else if QUEUE !in s.args then Failure(MissingQueue)
    else
      match Stoi(s.args[JOBS])
      case Failure(InvalidArgument) => Failure(InvalidJobs)
      case Failure(OutOfRange) => Failure(JobsOutOfRange)
      case Success(n) => Success(Config(s.args[INPUT], n, s.args[QUEUE], s.muted))
  }

  /** `parseArguments(argc, argv)`, with a thrown `runtime_error` as `Failure`. */
  function Parse(argv: seq<string>): Result<Config, ParseError> {
    match ScanTokens(Tokens(argv), EmptyScan)
    case Failure(e) => Failure(e)
    case Success(s) => Validate(s)
  }

  /** `main` up to the call of `parseArguments`: the argc guard first. */
  function CommandLine(argv: seq<string>): Result<Config, ParseError> {
    if |argv| < MIN_ARGC then Failure(Usage) else Parse(argv)
  }

  function Rest(argv: seq<string>, i: nat): seq<string> {
    if i <= |argv| then argv[i..] else []
  }

  method ParseArguments(argv: seq<string>) returns (r: Result<Config, ParseError>)
    ensures r == Parse(argv)
  {
    var args: map<string, string> := map[];
    var muted := false;
    var i := 1;
    while i < |argv|
      invariant 1 <= i
      invariant i > |argv| ==> |argv| == 0
      invariant ScanTokens(Tokens(argv), EmptyScan) == ScanTokens(Rest(argv, i), Scan(args, muted))
      decreases |argv| - i
    {
      var key := argv[i];
      assert Rest(argv, i)[1..] == Rest(argv, i + 1);
      if key == MUTE {
        muted := true;
      } else if IsValueFlag(key) {
        if i + 1 >= |argv| {
          return Failure(MissingValue(key));
        }
        assert Rest(argv, i)[2..] == Rest(argv, i + 2);
        args := args[key := argv[i + 1]];
        i := i + 1;
      }
      i := i + 1;
    }
    assert Rest(argv, i) == [];
    if INPUT !in args {
      return Failure(MissingInput);
    }
    if JOBS !in args {
      return Failure(MissingJobs);
    }
    if QUEUE !in args {
      return Failure(MissingQueue);
    }
    var n := Stoi(args[JOBS]);
    match n {
      case Failure(InvalidArgument) => r := Failure(InvalidJobs);
      case Failure(OutOfRange) => r := Failure(JobsOutOfRange);
      case Success(v) => r := Success(Config(args[INPUT], v, args[QUEUE], muted));
    }
  }

  /** `main`'s handling of argv: the usage check, then `parseArguments`. */
  method ParseCommandLine(argv: seq<string>) returns (r: Result<Config, ParseError>)
    ensures r == CommandLine(argv)
    ensures |argv| < MIN_ARGC ==> r == Failure(Usage)
  {
    if |argv| < MIN_ARGC {
      return Failure(Usage);
    }
    r := ParseArguments(argv);
  }

  // Properties of the token loop.

  /** Scanning a concatenation scans the second part from where the first left off. */
  lemma {:induction false} ScanAppend(a: seq<string>, b: seq<string>, acc: Scan)
    requires ScanTokens(a, acc).Success?
    ensures ScanTokens(a + b, acc) == ScanTokens(b, ScanTokens(a, acc).value)
    decreases |a|
  {
    if a == [] {
      assert a + b == b;
    } else if a[0] == MUTE {
      assert (a + b)[1..] == a[1..] + b;
      ScanAppend(a[1..], b, acc.(muted := true));
    } else if IsValueFlag(a[0]) {
      assert (a + b)[2..] == a[2..] + b;
      ScanAppend(a[2..], b, acc.(args := acc.args[a[0] := a[1]]));
    } else {
      assert (a + b)[1..] == a[1..] + b;
      ScanAppend(a[1..], b, acc);
    }
  }

  /**
    A value flag met where a key is expected takes the following token as its
    value, even a token that is itself a flag.
   */
  lemma ValueFlagTakesNextToken(a: seq<string>, key: string, value: string, b: seq<string>, acc: Scan)
    requires ScanTokens(a, acc).Success? && IsValueFlag(key)
    ensures ScanTokens(a + [key, value] + b, acc) ==
      var s := ScanTokens(a, acc).value;
      ScanTokens(b, s.(args := s.args[key := value]))
  {
    assert a + [key, value] + b == a + ([key, value] + b);
    ScanAppend(a, [key, value] + b, acc);
    assert ([key, value] + b)[2..] == b;
  }

  /** A value flag as the very last token is refused with "Missing value for <key>". */
  lemma MissingValueAtEnd(a: seq<string>, key: string, acc: Scan)
    requires ScanTokens(a, acc).Success? && IsValueFlag(key)
    ensures ScanTokens(a + [key], acc) == Failure(MissingValue(key))
  {
    ScanAppend(a, [key], acc);
  }

  /** Tokens that are not flags are skipped without effect. */
  lemma UnknownTokenIgnored(a: seq<string>, t: string, b: seq<string>, acc: Scan)
    requires ScanTokens(a, acc).Success?
    requires t != MUTE && !IsValueFlag(t)
    ensures ScanTokens(a + [t] + b, acc) == ScanTokens(a + b, acc)
  {
    assert a + [t] + b == a + ([t] + b);
    ScanAppend(a, [t] + b, acc);
    ScanAppend(a, b, acc);
    assert ([t] + b)[1..] == b;
  }

  function SetMuted(r: Result<Scan, ParseError>): Result<Scan, ParseError> {
    if r.Success? then Success(r.value.(muted := true)) else r
  }

  lemma {:induction false} MutedDoesNotSteer(toks: seq<string>, acc: Scan)
    ensures ScanTokens(toks, acc.(muted := true)) == SetMuted(ScanTokens(toks, acc))
    decreases |toks|
  {
    if toks == [] {
    } else if toks[0] == MUTE {
      assert acc.(muted := true).(muted := true) == acc.(muted := true);
      MutedDoesNotSteer(toks[1..], acc.(muted := true));
    } else if IsValueFlag(toks[0]) {
      if |toks| >= 2 {
        MutedDoesNotSteer(toks[2..], acc.(args := acc.args[toks[0] := toks[1]]));
      }
    } else {
      MutedDoesNotSteer(toks[1..], acc);
    }
  }

  /** `--mute` consumes no value: removing it only clears `muted`, never changes the map or an error. */
  lemma MuteConsumesNothing(a: seq<string>, b: seq<string>, acc: Scan)
    requires ScanTokens(a, acc).Success?
    ensures ScanTokens(a + [MUTE] + b, acc) == SetMuted(ScanTokens(a + b, acc))
  {
    var s := ScanTokens(a, acc).value;
    assert a + [MUTE] + b == a + ([MUTE] + b);
    ScanAppend(a, [MUTE] + b, acc);
    ScanAppend(a, b, acc);
    assert ([MUTE] + b)[1..] == b;
    MutedDoesNotSteer(b, s);
  }

  /**
    Whether the token loop, reading `toks` from a flag position, meets `key`
    as a value flag (and not as the value of another flag).
   */
  predicate ReadsAsFlag(toks: seq<string>, key: string)
    decreases |toks|
  {
    if toks == [] then false
    else if toks[0] == MUTE then ReadsAsFlag(toks[1..], key)
    else if IsValueFlag(toks[0]) then toks[0] == key || (|toks| >= 2 && ReadsAsFlag(toks[2..], key))
    else ReadsAsFlag(toks[1..], key)
  }

  /** Whatever the later tokens do, a key they never read as a flag keeps the value it had. */
  lemma {:induction false} UnnamedKeyKeepsValue(toks: seq<string>, acc: Scan, key: string)
    requires ScanTokens(toks, acc).Success?
    requires key in acc.args && !ReadsAsFlag(toks, key)
    ensures key in ScanTokens(toks, acc).value.args
    ensures ScanTokens(toks, acc).value.args[key] == acc.args[key]
    decreases |toks|
  {
    if toks == [] {
    } else if toks[0] == MUTE {
      UnnamedKeyKeepsValue(toks[1..], acc.(muted := true), key);
    } else if IsValueFlag(toks[0]) {
      assert toks[0] != key;
      UnnamedKeyKeepsValue(toks[2..], acc.(args := acc.args[toks[0] := toks[1]]), key);
    } else {
      UnnamedKeyKeepsValue(toks[1..], acc, key);
    }
  }

  /** A flag given more than once keeps the value of its last occurrence. */
  lemma RepeatedFlagKeepsLastValue(a: seq<string>, key: string, value: string, b: seq<string>, acc: Scan)
    requires ScanTokens(a, acc).Success? && IsValueFlag(key)
    requires !ReadsAsFlag(b, key)
    requires ScanTokens(a + [key, value] + b, acc).Success?
    ensures key in ScanTokens(a + [key, value] + b, acc).value.args
    ensures ScanTokens(a + [key, value] + b, acc).value.args[key] == value
  {
    var s := ScanTokens(a, acc).value;
    ValueFlagTakesNextToken(a, key, value, b, acc);
    UnnamedKeyKeepsValue(b, s.(args := s.args[key := value]), key);
  }

  // The argc guard.

  lemma {:induction false} ScanAddsAtMostOneKeyPerTwoTokens(toks: seq<string>, acc: Scan)
    requires ScanTokens(toks, acc).Success?
    ensures 2 * |ScanTokens(toks, acc).value.args.Keys| <= 2 * |acc.args.Keys| + |toks|
    decreases |toks|
  {
    if toks == [] {
    } else if toks[0] == MUTE {
      ScanAddsAtMostOneKeyPerTwoTokens(toks[1..], acc.(muted := true));
    } else if IsValueFlag(toks[0]) {
      var next := acc.(args := acc.args[toks[0] := toks[1]]);
      assert next.args.Keys == acc.args.Keys + {toks[0]};
      assert |next.args.Keys| <= |acc.args.Keys| + 1;
      ScanAddsAtMostOneKeyPerTwoTokens(toks[2..], next);
    } else {
      ScanAddsAtMostOneKeyPerTwoTokens(toks[1..], acc);
    }
  }

  /**
    Three flags with three values need seven argv entries, so no command line
    shorter than that is accepted; in particular the argc guard in `main`
    refuses only command lines that `parseArguments` would refuse too.
   */
  lemma ShortCommandLinesFail(argv: seq<string>)
    requires |argv| < 7
    ensures Parse(argv).Failure?
    ensures CommandLine(argv).Success? <==> Parse(argv).Success?
  {
    var scan := ScanTokens(Tokens(argv), EmptyScan);
    if scan.Success? && Validate(scan.value).Success? {
      var keys := scan.value.args.Keys;
      ScanAddsAtMostOneKeyPerTwoTokens(Tokens(argv), EmptyScan);
      assert {INPUT, JOBS, QUEUE} <= keys;
      assert |{INPUT, JOBS, QUEUE}| == 3;
      SubsetCardinality({INPUT, JOBS, QUEUE}, keys);
      assert false;
    }
  }

  lemma {:induction false} SubsetCardinality<T>(a: set<T>, b: set<T>)
    requires a <= b
    ensures |a| <= |b|
    decreases |a|
  {
    if a != {} {
      var x :| x in a;
      SubsetCardinality(a - {x}, b - {x});
    }
  }
}

/**
 * `BackupConfig::from_args`: the backup directory is the first argument
 * after the source, then options until the arguments run out. Every error
 * is a message, as the source returns it.
 */
module Config {
  import opened Wrappers

  datatype BackupConfig = BackupConfig(
    source: string,
    destination: string,
    threads: Option<nat>,
    verify: bool,
    includes: seq<string>,
    excludes: seq<string>,
    dryRun: bool)

  /** `usize::MAX + 1` on a 64-bit target. */
  const UsizeLimit: nat := 0x1_0000_0000_0000_0000

  predicate IsDigit(c: char)
  {
    '0' <= c <= '9'
  }

  predicate AllDigits(s: string)
  {
    forall i :: 0 <= i < |s| ==> IsDigit(s[i])
  }

  /** The number the decimal digits `s` spell, most significant first. */
  function DigitsValue(s: string): nat
    requires AllDigits(s)
  {
    if |s| == 0 then 0 else 10 * DigitsValue(s[..|s| - 1]) + (s[|s| - 1] as int - '0' as int)
  }

  /**
   * `str::parse::<usize>`: an optional `+`, then at least one decimal digit,
   * and a value that fits in 64 bits. Leading zeros are allowed; a sign alone,
   * a `-`, spaces and any other character are not.
   */
  function ParseUsize(s: string): (r: Option<nat>)
    ensures r.Some? ==> r.value < UsizeLimit
  {
    var d := if |s| > 0 && s[0] == '+' then s[1..] else s;
    if |d| == 0 || !AllDigits(d) || DigitsValue(d) >= UsizeLimit then None
    else Some(DigitsValue(d))
  }

  /** The shortest decimal spelling of `n`. */
  function Decimal(n: nat): (s: string)
    ensures |s| > 0 && AllDigits(s)
  {
    if n < 10 then [('0' as int + n) as char] else Decimal(n / 10) + [('0' as int + n % 10) as char]
  }

  lemma {:induction false} DecimalValue(n: nat)
    ensures DigitsValue(Decimal(n)) == n
  {
    if n >= 10 {
      var s := Decimal(n);
      DecimalValue(n / 10);
      assert s[..|s| - 1] == Decimal(n / 10);
    }
  }

  /**
   * Every `usize` reads back from its decimal spelling, with or without a
   * `+`; a number of 2^64 or more is rejected.
   */
  lemma ParseDecimal(n: nat)
    ensures ParseUsize(Decimal(n)) == if n < UsizeLimit then Some(n) else None
    ensures ParseUsize("+" + Decimal(n)) == if n < UsizeLimit then Some(n) else None
  {
    DecimalValue(n);
    assert ("+" + Decimal(n))[1..] == Decimal(n);
  }

  /** Leading zeros do not change the value. */
  lemma {:induction false} LeadingZero(s: string)
    requires AllDigits(s)
    ensures AllDigits("0" + s) && DigitsValue("0" + s) == DigitsValue(s)
    decreases |s|
  {
    var z := "0" + s;
    if |s| > 0 {
      assert z[..|z| - 1] == "0" + s[..|s| - 1];
      LeadingZero(s[..|s| - 1]);
    }
  }

  /** An empty value, a lone sign and a negative number are rejected. */
  lemma ParseUsizeRejects(s: string)
    ensures ParseUsize("") == None && ParseUsize("+") == None && ParseUsize("-" + s) == None
  {
    assert ("-" + s)[0] == '-' && !IsDigit(("-" + s)[0]);
  }

  /** One recognised option, as the loop applies it. */
  datatype Opt = Threads(n: nat) | Verify | Include(pattern: string) | Exclude(pattern: string) | DryRun

  /**
   * The option words alone, read without applying them: the sequence of
   * options the arguments spell, or the message of the first argument the
   * loop rejects.
   */
  function Options(args: seq<string>): (r: Result<seq<Opt>, string>)
    decreases |args|
  {
    if |args| == 0 then Ok([])
    else
      var a := args[0];
      var (opt, used) :=
        if a == "--threads" || a == "-j" then
          if |args| < 2 then (Err("missing value for --threads"), 1)
          else if ParseUsize(args[1]).None? then (Err("invalid value for --threads"), 2)
          else (Ok(Threads(ParseUsize(args[1]).value)), 2)
        else if a == "--verify" then (Ok(Verify), 1)
        else if a == "--include" then
          if |args| < 2 then (Err("missing value for --include"), 1) else (Ok(Include(args[1])), 2)
        else if a == "--exclude" then
          if |args| < 2 then (Err("missing value for --exclude"), 1) else (Ok(Exclude(args[1])), 2)
        else if a == "--dry-run" then (Ok(DryRun), 1)
        else (Err("unknown argument: " + a), 1);
      if opt.Err? then Err(opt.error)
      else
        match Options(args[used..])
        case Err(e) => Err(e)
        case Ok(rest) => Ok([opt.value] + rest)
  }

  /**
   * The `while let Some(arg) = args.next()` loop: each option updates the
   * configuration being built; the first bad argument ends it with its message.
   */
  function ParseOptions(c: BackupConfig, args: seq<string>): (r: Result<BackupConfig, string>)
    ensures r.Ok? ==> r.value.source == c.source && r.value.destination == c.destination
    ensures r.Ok? ==> c.includes <= r.value.includes && c.excludes <= r.value.excludes
    decreases |args|
  {
    if |args| == 0 then Ok(c)
    else
      var a := args[0];
      if a == "--threads" || a == "-j" then
        if |args| < 2 then Err("missing value for --threads")
        else
          match ParseUsize(args[1])
          case None => Err("invalid value for --threads")
          case Some(n) => ParseOptions(c.(threads := Some(n)), args[2..])
      else if a == "--verify" then ParseOptions(c.(verify := true), args[1..])
      else if a == "--include" then
        if |args| < 2 then Err("missing value for --include")
        else ParseOptions(c.(includes := c.includes + [args[1]]), args[2..])
      else if a == "--exclude" then
        if |args| < 2 then Err("missing value for --exclude")
        else ParseOptions(c.(excludes := c.excludes + [args[1]]), args[2..])
      else if a == "--dry-run" then ParseOptions(c.(dryRun := true), args[1..])
      else Err("unknown argument: " + a)
  }

  /** `from_args(first_source, args)`. */
  function FromArgs(firstSource: string, args: seq<string>): (r: Result<BackupConfig, string>)
    ensures |args| == 0 <==> r == Err("missing <backup-dir> path")
    ensures r.Ok? ==> r.value.source == firstSource && r.value.destination == args[0]
  {
    if |args| == 0 then Err("missing <backup-dir> path")
    else
      var c := BackupConfig(firstSource, args[0], None, false, [], [], false);
      ParseOptionsErrors(c, args[1..]);
      ParseOptions(c, args[1..])
  }

  /** The loop's messages: the option whose value is missing or bad, or the argument it does not know. */
  lemma {:induction false} ParseOptionsErrors(c: BackupConfig, args: seq<string>)
    ensures var r := ParseOptions(c, args);
      r.Err? ==>
        || r.error == "missing value for --threads" || r.error == "invalid value for --threads"
        || r.error == "missing value for --include" || r.error == "missing value for --exclude"
        || (exists a :: a in args && r.error == "unknown argument: " + a)
    ensures ParseOptions(c, args) != Err("missing <backup-dir> path")
    decreases |args|
  {
    if |args| > 0 {
      var a := args[0];
      if a == "--threads" || a == "-j" || a == "--include" || a == "--exclude" {
        if |args| >= 2 {
          ParseOptionsErrors(if a == "--include" then c.(includes := c.includes + [args[1]])
                             else if a == "--exclude" then c.(excludes := c.excludes + [args[1]])
                             else if ParseUsize(args[1]).Some? then c.(threads := ParseUsize(args[1]))
                             else c, args[2..]);
          assert forall x :: x in args[2..] ==> x in args;
        }
      } else if a == "--verify" || a == "--dry-run" {
        ParseOptionsErrors(if a == "--verify" then c.(verify := true) else c.(dryRun := true), args[1..]);
        assert forall x :: x in args[1..] ==> x in args;
      } else {
        assert a in args;
        assert ("unknown argument: " + a)[0] == 'u';
      }
    }
  }

  /** The last `Threads` option, if any. */
  function LastThreads(opts: seq<Opt>): Option<nat>
  {
    if |opts| == 0 then None
    else if opts[|opts| - 1].Threads? then Some(opts[|opts| - 1].n)
    else LastThreads(opts[..|opts| - 1])
  }

  /** The `Include` patterns, in order. */
  function IncludesOf(opts: seq<Opt>): seq<string>
  {
    if |opts| == 0 then [] else (if opts[0].Include? then [opts[0].pattern] else []) + IncludesOf(opts[1..])
  }

  /** The `Exclude` patterns, in order. */
  function ExcludesOf(opts: seq<Opt>): seq<string>
  {
    if |opts| == 0 then [] else (if opts[0].Exclude? then [opts[0].pattern] else []) + ExcludesOf(opts[1..])
  }

  /** What a run of options leaves in a configuration: the last thread count wins, flags stay set, patterns accumulate in order. */
  function Applied(c: BackupConfig, opts: seq<Opt>): BackupConfig
  {
    c.(threads := if LastThreads(opts).Some? then LastThreads(opts) else c.threads,
       verify := c.verify || Verify in opts,
       includes := c.includes + IncludesOf(opts),
       excludes := c.excludes + ExcludesOf(opts),
       dryRun := c.dryRun || DryRun in opts)
  }

  lemma LastThreadsCons(o: Opt, opts: seq<Opt>)
    ensures LastThreads([o] + opts) == if LastThreads(opts).Some? then LastThreads(opts) else if o.Threads? then Some(o.n) else None
    decreases |opts|
  {
    var all := [o] + opts;
    if |opts| > 0 {
      assert all[..|all| - 1] == [o] + opts[..|opts| - 1];
      LastThreadsCons(o, opts[..|opts| - 1]);
    } else {
      assert all[..|all| - 1] == [];
    }
  }

  /** One option's effect. */
  lemma AppliedOne(c: BackupConfig, o: Opt)
    ensures Applied(c, [o]) == match o
      case Threads(n) => c.(threads := Some(n))
      case Verify => c.(verify := true)
      case Include(p) => c.(includes := c.includes + [p])
      case Exclude(p) => c.(excludes := c.excludes + [p])
      case DryRun => c.(dryRun := true)
  {
    var one := [o];
    assert one[..0] == [] && one[1..] == [];
    assert LastThreads(one) == if o.Threads? then Some(o.n) else None;
    assert (Verify in one) == (o == Verify) && (DryRun in one) == (o == DryRun);
    assert IncludesOf(one) == (if o.Include? then [o.pattern] else []);
    assert ExcludesOf(one) == (if o.Exclude? then [o.pattern] else []);
    assert c.includes + [] == c.includes && c.excludes + [] == c.excludes;
  }

  /** Applying options one at a time is applying them all at once. */
  lemma AppliedCons(c: BackupConfig, o: Opt, opts: seq<Opt>)
    ensures Applied(c, [o] + opts) == Applied(Applied(c, [o]), opts)
  {
    var all := [o] + opts;
    var one := [o];
    var c1 := Applied(c, one);
    assert all[0] == o && all[1..] == opts && one[1..] == [];
    LastThreadsCons(o, opts);
    LastThreadsCons(o, []);
    assert Applied(c, all).threads == Applied(c1, opts).threads;
    assert IncludesOf(all) == IncludesOf(one) + IncludesOf(opts);
    assert Applied(c, all).includes == Applied(c1, opts).includes;
    assert ExcludesOf(all) == ExcludesOf(one) + ExcludesOf(opts);
    assert Applied(c, all).excludes == Applied(c1, opts).excludes;
    assert (Verify in all) == (Verify in one || Verify in opts);
    assert (DryRun in all) == (DryRun in one || DryRun in opts);
  }

  /**
   * The loop's meaning: it succeeds exactly when the arguments spell a
   * sequence of options, and then leaves the configuration those options
   * describe; otherwise its message is that of the first bad argument.
   */
  lemma {:induction false} ParseOptionsMeaning(c: BackupConfig, args: seq<string>)
    ensures ParseOptions(c, args) == match Options(args) case Err(e) => Err(e) case Ok(opts) => Ok(Applied(c, opts))
    decreases |args|
  {
    if |args| == 0 {
      assert Applied(c, []) == c;
    } else {
      var a := args[0];
      if (a == "--threads" || a == "-j") && |args| >= 2 && ParseUsize(args[1]).Some? {
        var o := Threads(ParseUsize(args[1]).value);
        AppliedOne(c, o);
        ParseOptionsMeaning(Applied(c, [o]), args[2..]);
        StepApplied(c, o, args[2..]);
      } else if a == "--verify" {
        AppliedOne(c, Verify);
        ParseOptionsMeaning(Applied(c, [Verify]), args[1..]);
        StepApplied(c, Verify, args[1..]);
      } else if a == "--include" && |args| >= 2 {
        AppliedOne(c, Include(args[1]));
        ParseOptionsMeaning(Applied(c, [Include(args[1])]), args[2..]);
        StepApplied(c, Include(args[1]), args[2..]);
      } else if a == "--exclude" && |args| >= 2 {
        AppliedOne(c, Exclude(args[1]));
        ParseOptionsMeaning(Applied(c, [Exclude(args[1])]), args[2..]);
        StepApplied(c, Exclude(args[1]), args[2..]);
      } else if a == "--dry-run" {
        AppliedOne(c, DryRun);
        ParseOptionsMeaning(Applied(c, [DryRun]), args[1..]);
        StepApplied(c, DryRun, args[1..]);
      }
    }
  }

  /** One option applied before the rest, in the shape `ParseOptionsMeaning` needs. */
  lemma StepApplied(c: BackupConfig, o: Opt, rest: seq<string>)
    ensures match Options(rest) case Err(e) => true case Ok(opts) => Applied(c, [o] + opts) == Applied(Applied(c, [o]), opts)
  {
    if Options(rest).Ok? {
      AppliedCons(c, o, Options(rest).value);
    }
  }

  /** The last `Threads` option is the one that counts: no later option sets the thread count. */
  lemma {:induction false} LastThreadsIsLast(opts: seq<Opt>)
    ensures LastThreads(opts).None? <==> forall i :: 0 <= i < |opts| ==> !opts[i].Threads?
    ensures LastThreads(opts).Some? ==>
      exists i :: 0 <= i < |opts| && opts[i] == Threads(LastThreads(opts).value) && forall j :: i < j < |opts| ==> !opts[j].Threads?
    decreases |opts|
  {
    if |opts| > 0 {
      var last := |opts| - 1;
      var init := opts[..last];
      if opts[last].Threads? {
        assert opts[last] == Threads(LastThreads(opts).value);
      } else {
        LastThreadsIsLast(init);
        assert forall i :: 0 <= i < |init| ==> init[i] == opts[i];
        if LastThreads(init).Some? {
          var i :| 0 <= i < |init| && init[i] == Threads(LastThreads(init).value) && forall j :: i < j < |init| ==> !init[j].Threads?;
          assert opts[i] == Threads(LastThreads(opts).value);
        }
      }
    }
  }

  /**
   * `from_args` as a whole: the backup directory, then the options the
   * remaining arguments spell applied to the defaults (no thread count, no
   * flags, no patterns), or the message of the first bad argument.
   */
  lemma FromArgsMeaning(firstSource: string, args: seq<string>)
    requires |args| > 0
    ensures FromArgs(firstSource, args) == match Options(args[1..])
      case Err(e) => Err(e)
      case Ok(opts) => Ok(Applied(BackupConfig(firstSource, args[0], None, false, [], [], false), opts))
  {
    ParseOptionsMeaning(BackupConfig(firstSource, args[0], None, false, [], [], false), args[1..]);
  }

  /** A word after the backup directory that is not an option, a second positional argument included, is rejected by name. */
  lemma UnknownArgument(firstSource: string, destination: string, x: string, rest: seq<string>)
    requires x !in {"--threads", "-j", "--verify", "--include", "--exclude", "--dry-run"}
    ensures FromArgs(firstSource, [destination, x] + rest) == Err("unknown argument: " + x)
  {
    var args := [destination, x] + rest;
    assert args[0] == destination && args[1..] == [x] + rest && args[1..][0] == x;
  }

  /** The value after `--include` or `--exclude` is taken as it is, even when it looks like an option. */
  lemma PatternTakenVerbatim(c: BackupConfig, flag: string, v: string, rest: seq<string>)
    requires flag == "--include" || flag == "--exclude"
    ensures ParseOptions(c, [flag, v] + rest) ==
      if flag == "--include" then ParseOptions(c.(includes := c.includes + [v]), rest)
      else ParseOptions(c.(excludes := c.excludes + [v]), rest)
  {
    var args := [flag, v] + rest;
    assert args[0] == flag && args[1] == v && args[2..] == rest;
  }
}

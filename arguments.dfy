// The argument loop of main in pthreads-timing.c. The command line is
// taken already split into words; each word carries its text and the
// integer atoi gives for it, so neither atoi nor strcmp is modelled beyond
// string equality. Pairs of words are read left to right, each flag
// overwriting one configuration variable or ending the program with its
// own exit code.
module Arguments {

  datatype Option<T> = None | Some(value: T)

  /** One word of argv: its text and atoi(text). */
  datatype Arg = Arg(text: string, asInt: int)

  /** One flag word and the integer value of the word after it. */
  datatype Pair = Pair(flag: string, value: int)

  /**
   * The variables the loop sets: arraySize, mode, numBlocks, stepSize, and
   * the seed last passed to srand (None when -r never appears).
   */
  datatype Config = Config(arraySize: int, mode: int, numBlocks: int, stepSize: int, seed: Option<int>)

  /** Either main goes on with a configuration, or it returns an exit code. */
  datatype Outcome = Proceed(cfg: Config) | Exit(code: int)

  /** The initial values of main's variables. */
  const Defaults: Config := Config(10000, 0, 1, 1, None)

  /** The flags main understands. */
  const KnownFlags: set<string> := {"-s", "-b", "-m", "-p", "-r"}

  /** The word count argc makes main stop with code 1: an even count other than 1. */
  predicate BadCount(argc: nat)
  {
    argc % 2 == 0 && argc != 1
  }

  /** The flag/value pairs argv[1], argv[2]; argv[3], argv[4]; ... of a well-sized command line. */
  function Pairs(argv: seq<Arg>): (r: seq<Pair>)
    requires !BadCount(|argv|)
    ensures |r| == (|argv| - 1) / 2
  {
    seq((|argv| - 1) / 2, k requires 0 <= k < (|argv| - 1) / 2 => Pair(argv[2 * k + 1].text, argv[2 * k + 2].asInt))
  }

  /** Pair k is made of the words at positions 2k + 1 and 2k + 2. */
  lemma PairsAt(argv: seq<Arg>, k: nat)
    requires !BadCount(|argv|) && k < (|argv| - 1) / 2
    ensures 2 * k + 2 < |argv|
    ensures Pairs(argv)[k] == Pair(argv[2 * k + 1].text, argv[2 * k + 2].asInt)
  {
  }

  /** One pass of the loop body: the if-chain over the flag. */
  function ApplyFlag(cfg: Config, p: Pair): (r: Outcome)
  {
    if p.flag == "-s" then Proceed(cfg.(arraySize := p.value))
    else if p.flag == "-b" then
      if p.value < 0 then Exit(2) else Proceed(cfg.(numBlocks := p.value))
    else if p.flag == "-m" then
      if p.value != 0 && p.value != 1 then Exit(3) else Proceed(cfg.(mode := p.value))
    else if p.flag == "-p" then
      if p.value < 0 then Exit(4) else Proceed(cfg.(stepSize := p.value))
    else if p.flag == "-r" then Proceed(cfg.(seed := Some(p.value)))
    else Exit(5)
  }

  /**
   * The rest of the loop from configuration cfg: the remaining pairs are
   * applied in order, and the first exit ends the loop with its code.
   */
  function Resume(cfg: Config, pairs: seq<Pair>): (r: Outcome)
    decreases |pairs|
  {
    if pairs == [] then Proceed(cfg)
    else match ApplyFlag(cfg, pairs[0])
      case Exit(c) => Exit(c)
      case Proceed(next) => Resume(next, pairs[1..])
  }

  /** What main decides from its command line. */
  function ParseArgs(argv: seq<Arg>): (r: Outcome)
  {
    if BadCount(|argv|) then Exit(1) else Resume(Defaults, Pairs(argv))
  }

  /** Resuming at pair k applies pair k, then resumes at pair k + 1. */
  lemma ResumeAt(cfg: Config, pairs: seq<Pair>, k: nat)
    requires k < |pairs|
    ensures Resume(cfg, pairs[k..]) == match ApplyFlag(cfg, pairs[k])
      case Exit(c) => Exit(c)
      case Proceed(next) => Resume(next, pairs[k + 1..])
  {
    assert pairs[k..][1..] == pairs[k + 1..];
  }

  /**
   * The argument loop of main. Each pair overwrites one variable or returns
   * its exit code at once; the outcome is exactly ParseArgs(argv).
   */
  method ProcessArguments(argv: seq<Arg>) returns (outcome: Outcome)
    ensures outcome == ParseArgs(argv)
  {
    if |argv| % 2 == 0 && |argv| != 1 {
      return Exit(1);
    }
    ghost var pairs := Pairs(argv);
    var arraySize, mode, numBlocks, stepSize, seed := 10000, 0, 1, 1, None;
    var i := 1;
    ghost var k := 0;
    while i < |argv|
      invariant i == 2 * k + 1 && k <= |pairs|
      invariant Resume(Config(arraySize, mode, numBlocks, stepSize, seed), pairs[k..]) == ParseArgs(argv)
    {
      PairsAt(argv, k);
      var flag := argv[i].text;
      var flagValue := argv[i + 1].asInt;
      ResumeAt(Config(arraySize, mode, numBlocks, stepSize, seed), pairs, k);
      if flag == "-s" {
        arraySize := flagValue;
      } else if flag == "-b" {
        if flagValue < 0 {
          return Exit(2);
        }
        numBlocks := flagValue;
      } else if flag == "-m" {
        if flagValue != 0 && flagValue != 1 {
          return Exit(3);
        }
        mode := flagValue;
      } else if flag == "-p" {
        if flagValue < 0 {
          return Exit(4);
        }
        stepSize := flagValue;
      } else if flag == "-r" {
        seed := Some(flagValue);
      } else {
        return Exit(5);
      }
      i := i + 2;
      k := k + 1;
    }
    assert pairs[k..] == [];
    outcome := Proceed(Config(arraySize, mode, numBlocks, stepSize, seed));
  }

  /**
   * The exit code a single pair causes, as a table: 2 for a negative -b,
   * 3 for a -m other than 0 or 1, 4 for a negative -p, 5 for a flag main
   * does not know, and 0 for a pair main accepts (-s and -r are never
   * rejected).
   */
  function Rejection(p: Pair): (code: nat)
    ensures code == 0 || 2 <= code <= 5
  {
    if p.flag !in KnownFlags then 5
    else if p.flag == "-b" && p.value < 0 then 2
    else if p.flag == "-m" && p.value !in {0, 1} then 3
    else if p.flag == "-p" && p.value < 0 then 4
    else 0
  }

  /** The code of the first rejected pair, reading from the left; 0 when every pair is accepted. */
  function FirstRejection(pairs: seq<Pair>): (code: nat)
    ensures code == 0 || 2 <= code <= 5
  {
    if pairs == [] then 0
    else if Rejection(pairs[0]) != 0 then Rejection(pairs[0])
    else FirstRejection(pairs[1..])
  }

  /** The value of the last pair with the given flag, None when there is none. */
  function LastOf(pairs: seq<Pair>, flag: string): (r: Option<int>)
  {
    if pairs == [] then None
    else match LastOf(pairs[1..], flag)
      case Some(v) => Some(v)
      case None => if pairs[0].flag == flag then Some(pairs[0].value) else None
  }

  function Resolve<T>(o: Option<T>, default: T): (r: T)
  {
    if o.Some? then o.value else default
  }

  /**
   * The configuration in which every variable holds the value of the last
   * pair naming it, or its value in cfg when no pair names it.
   */
  function Chosen(cfg: Config, pairs: seq<Pair>): (r: Config)
  {
    Config(
      Resolve(LastOf(pairs, "-s"), cfg.arraySize),
      Resolve(LastOf(pairs, "-m"), cfg.mode),
      Resolve(LastOf(pairs, "-b"), cfg.numBlocks),
      Resolve(LastOf(pairs, "-p"), cfg.stepSize),
      if LastOf(pairs, "-r").Some? then LastOf(pairs, "-r") else cfg.seed)
  }

  /** A single pass of the loop body agrees with the table and sets exactly its flag's variable. */
  lemma ApplyFlagAgrees(cfg: Config, p: Pair)
    ensures Rejection(p) != 0 ==> ApplyFlag(cfg, p) == Exit(Rejection(p))
    ensures Rejection(p) == 0 ==> ApplyFlag(cfg, p) == Proceed(Chosen(cfg, [p]))
  {
    assert [p][1..] == [];
    forall f: string
      ensures LastOf([p], f) == if p.flag == f then Some(p.value) else None
    {
      assert LastOf([p][1..], f) == None;
    }
  }

  /**
   * The loop, characterised: it exits with the code of the first rejected
   * pair if there is one, and otherwise proceeds with every variable set by
   * the last pair naming it (a later flag overrides an earlier one) or left
   * as it was.
   */
  lemma {:induction false} ResumeCharacterised(cfg: Config, pairs: seq<Pair>)
    ensures Resume(cfg, pairs)
         == if FirstRejection(pairs) != 0 then Exit(FirstRejection(pairs)) else Proceed(Chosen(cfg, pairs))
    decreases |pairs|
  {
    if pairs != [] {
      var p := pairs[0];
      ApplyFlagAgrees(cfg, p);
      if Rejection(p) == 0 {
        ResumeCharacterised(Chosen(cfg, [p]), pairs[1..]);
      }
    }
  }

  /** No rejection means every pair is accepted, and conversely. */
  lemma {:induction false} NoRejectionMeansAllAccepted(pairs: seq<Pair>)
    ensures FirstRejection(pairs) == 0 <==> forall j :: 0 <= j < |pairs| ==> Rejection(pairs[j]) == 0
  {
    if pairs != [] {
      NoRejectionMeansAllAccepted(pairs[1..]);
      assert forall j :: 1 <= j < |pairs| ==> pairs[1..][j - 1] == pairs[j];
    }
  }

  /** The pairs are accepted exactly when none of them is rejected by the table. */
  lemma AcceptedIffNoRejection(pairs: seq<Pair>)
    ensures Resume(Defaults, pairs).Proceed? <==> forall j :: 0 <= j < |pairs| ==> Rejection(pairs[j]) == 0
  {
    ResumeCharacterised(Defaults, pairs);
    NoRejectionMeansAllAccepted(pairs);
  }

  /** The code of the first rejected pair is the code of the first rejected position. */
  lemma {:induction false} FirstRejectionAt(pairs: seq<Pair>, j: nat)
    requires j < |pairs| && Rejection(pairs[j]) != 0
    requires forall m :: 0 <= m < j ==> Rejection(pairs[m]) == 0
    ensures FirstRejection(pairs) == Rejection(pairs[j])
  {
    if j > 0 {
      assert Rejection(pairs[0]) == 0;
      FirstRejectionAt(pairs[1..], j - 1);
    }
  }

  /** The first violation decides the exit code, whatever follows it. */
  lemma FirstViolationDecides(pairs: seq<Pair>, j: nat)
    requires j < |pairs| && Rejection(pairs[j]) != 0
    requires forall m :: 0 <= m < j ==> Rejection(pairs[m]) == 0
    ensures Resume(Defaults, pairs) == Exit(Rejection(pairs[j]))
  {
    ResumeCharacterised(Defaults, pairs);
    FirstRejectionAt(pairs, j);
  }

  /** The value of the last pair with a flag is the value of some pair with that flag. */
  lemma {:induction false} LastOfOccurs(pairs: seq<Pair>, flag: string)
    requires LastOf(pairs, flag).Some?
    ensures exists j :: 0 <= j < |pairs| && pairs[j] == Pair(flag, LastOf(pairs, flag).value)
  {
    if LastOf(pairs[1..], flag).Some? {
      LastOfOccurs(pairs[1..], flag);
      var j :| 0 <= j < |pairs| - 1 && pairs[1..][j] == Pair(flag, LastOf(pairs, flag).value);
      assert pairs[j + 1] == pairs[1..][j];
    } else {
      assert pairs[0] == Pair(flag, LastOf(pairs, flag).value);
    }
  }

  /** A configuration main goes on with has a non-negative block count and step and a mode of 0 or 1. */
  predicate ValidConfig(cfg: Config)
  {
    cfg.numBlocks >= 0 && cfg.stepSize >= 0 && cfg.mode in {0, 1}
  }

  /** Every accepted command line yields a valid configuration. */
  lemma AcceptedIsValid(argv: seq<Arg>)
    requires ParseArgs(argv).Proceed?
    ensures ValidConfig(ParseArgs(argv).cfg)
  {
    var pairs := Pairs(argv);
    ResumeCharacterised(Defaults, pairs);
    NoRejectionMeansAllAccepted(pairs);
    if LastOf(pairs, "-b").Some? {
      LastOfOccurs(pairs, "-b");
    }
    if LastOf(pairs, "-p").Some? {
      LastOfOccurs(pairs, "-p");
    }
    if LastOf(pairs, "-m").Some? {
      LastOfOccurs(pairs, "-m");
    }
  }

  /** main returns 1 exactly when the word count is even; the other codes need an odd count. */
  lemma ExitOneIffEvenCount(argv: seq<Arg>)
    ensures ParseArgs(argv) == Exit(1) <==> |argv| % 2 == 0
  {
    if !BadCount(|argv|) {
      ResumeCharacterised(Defaults, Pairs(argv));
    }
  }
}

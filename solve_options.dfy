/** The option logic of the ibexsolve command: the early exits, the output
    and backup file names, the boundary-test option, the splitting of the
    forced parameters on '+', the solver settings taken from the options or
    from the solver's defaults, and the choice of the starting point.
    Argument parsing, the loading of the system, the file copy, console
    output and the solving itself are outside the model; whether the
    default output file already exists and the solver's default constants
    are parameters. */
module SolveOptions {
  import opened Wrappers
  import opened Boxes

  // ----------------------------------------------------------------------
  // File names

  /** find_last_of(c): the last position holding c, if any. */
  function LastIndexOf(s: string, c: char): (r: Option<nat>)
    ensures r.Some? ==> r.value < |s| && s[r.value] == c && forall j :: r.value < j < |s| ==> s[j] != c
    ensures r.None? ==> forall j :: 0 <= j < |s| ==> s[j] != c
  {
    if |s| == 0 then None
    else if s[|s| - 1] == c then Some(|s| - 1)
    else LastIndexOf(s[..|s| - 1], c)
  }

  /** filename.substr(0, find_last_of('.')): the name up to its last '.',
      or the whole name when it has none (npos keeps everything). */
  function StripExtension(filename: string): (r: string) {
    match LastIndexOf(filename, '.')
    case Some(p) => filename[..p]
    case None => filename
  }

  /** The default output file: the name without its extension, then ".cov". */
  function DefaultOutputPath(filename: string): (r: string) {
    StripExtension(filename) + ".cov"
  }

  /** --output if given, the default output file otherwise. */
  function OutputPath(output: Option<string>, filename: string): (r: string) {
    if output.Some? then output.value else DefaultOutputPath(filename)
  }

  /** The copy of an existing default output file: its name followed by '~'. */
  function BackupPath(path: string): (r: string) {
    path + "~"
  }

  /** The default output name ends in ".cov" and replaces exactly the last
      extension: base + "." + ext with no '.' in ext becomes base + ".cov",
      and a name without '.' just gains ".cov". */
  lemma {:induction false} DefaultOutputPathShape(base: string, ext: string)
    requires forall j :: 0 <= j < |ext| ==> ext[j] != '.'
    ensures DefaultOutputPath(base + "." + ext) == base + ".cov"
    ensures (forall j :: 0 <= j < |base| ==> base[j] != '.') ==> DefaultOutputPath(base) == base + ".cov"
  {
    var f := base + "." + ext;
    LastIndexOfSuffix(base, ext);
    assert f[..|base|] == base;
  }

  /** The last '.' of base + "." + ext, when ext has none, is the one
      between them. */
  lemma {:induction false} LastIndexOfSuffix(base: string, ext: string)
    requires forall j :: 0 <= j < |ext| ==> ext[j] != '.'
    ensures LastIndexOf(base + "." + ext, '.') == Some(|base|)
    decreases |ext|
  {
    var f := base + "." + ext;
    if |ext| == 0 {
      assert f[|f| - 1] == '.';
    } else {
      var ext' := ext[..|ext| - 1];
      assert f[|f| - 1] == ext[|ext| - 1];
      assert f[..|f| - 1] == base + "." + ext';
      LastIndexOfSuffix(base, ext');
    }
  }

  /** The backup name is never the output name itself. */
  lemma {:induction false} BackupDiffersFromOutput(path: string)
    ensures BackupPath(path) != path && BackupPath(path)[..|path|] == path
  {
    assert |BackupPath(path)| == |path| + 1;
  }

  // ----------------------------------------------------------------------
  // Boundary test

  /** Solver::boundary_test: how validated boxes on the boundary are
      recognised. */
  datatype BoundaryTest = AllTrue | FullRank | HalfBall | AllFalse

  /** The value --boundary accepts for each test. */
  function BoundaryName(t: BoundaryTest): (r: string) {
    match t
    case AllTrue => "true"
    case FullRank => "full-rank"
    case HalfBall => "half-ball"
    case AllFalse => "false"
  }

  /** The --boundary string, mapped as the if-chain of the command does;
      any other string is rejected. */
  function ParseBoundary(s: string): (r: Option<BoundaryTest>) {
    if s == "true" then Some(AllTrue)
    else if s == "full-rank" then Some(FullRank)
    else if s == "half-ball" then Some(HalfBall)
    else if s == "false" then Some(AllFalse)
    else None
  }

  /** A string is accepted exactly when it is the name of a test, and then
      it denotes that test. */
  lemma {:induction false} ParseBoundaryNames(s: string, t: BoundaryTest)
    ensures ParseBoundary(s) == Some(t) <==> s == BoundaryName(t)
    ensures ParseBoundary(BoundaryName(t)) == Some(t)
  {
    match t
    case AllTrue =>
      assert "true" != "full-rank" && "true" != "half-ball" && "true" != "false";
    case FullRank =>
      assert "full-rank" != "true" && "full-rank" != "half-ball" && "full-rank" != "false";
    case HalfBall =>
      assert "half-ball" != "true" && "half-ball" != "full-rank" && "half-ball" != "false";
    case AllFalse =>
      assert "false" != "true" && "false" != "full-rank" && "false" != "half-ball";
  }

  // ----------------------------------------------------------------------
  // Forced parameters

  /** find("+"): the first position holding c, if any. */
  function FirstIndexOf(s: string, c: char): (r: Option<nat>)
    ensures r.Some? ==> r.value < |s| && s[r.value] == c && forall j :: 0 <= j < r.value ==> s[j] != c
    ensures r.None? ==> forall j :: 0 <= j < |s| ==> s[j] != c
  {
    if |s| == 0 then None
    else if s[0] == c then Some(0)
    else match FirstIndexOf(s[1..], c)
      case Some(j) => Some(j + 1)
      case None => None
  }

  /** The pieces of s between its '+' signs, in order. */
  function SplitPlus(s: string): (r: seq<string>)
    decreases |s|
  {
    match FirstIndexOf(s, '+')
    case None => [s]
    case Some(j) => [s[..j]] + SplitPlus(s[j + 1..])
  }

  /** The pieces joined back with '+'. */
  function JoinPlus(pieces: seq<string>): (r: string)
    requires |pieces| >= 1
  {
    if |pieces| == 1 then pieces[0] else pieces[0] + "+" + JoinPlus(pieces[1..])
  }

  function CountChar(s: string, c: char): (r: nat) {
    if |s| == 0 then 0 else (if s[0] == c then 1 else 0) + CountChar(s[1..], c)
  }

  lemma {:induction false} CountCharConcat(a: string, b: string, c: char)
    ensures CountChar(a + b, c) == CountChar(a, c) + CountChar(b, c)
    decreases |a|
  {
    if |a| > 0 {
      assert (a + b)[1..] == a[1..] + b;
      CountCharConcat(a[1..], b, c);
    } else {
      assert a + b == b;
    }
  }

  lemma {:induction false} CountCharNone(s: string, c: char)
    requires forall j :: 0 <= j < |s| ==> s[j] != c
    ensures CountChar(s, c) == 0
    decreases |s|
  {
    if |s| > 0 {
      CountCharNone(s[1..], c);
    }
  }

  /** SplitPlus at a first '+' in position j. */
  lemma {:induction false} SplitPlusUnfold(s: string, j: nat)
    requires FirstIndexOf(s, '+') == Some(j)
    ensures SplitPlus(s) == [s[..j]] + SplitPlus(s[j + 1..])
  {
  }

  lemma {:induction false} JoinPlusCons(a: string, rest: seq<string>)
    requires |rest| >= 1
    ensures JoinPlus([a] + rest) == a + "+" + JoinPlus(rest)
  {
    var pieces := [a] + rest;
    assert pieces[0] == a && pieces[1..] == rest;
  }

  lemma {:induction false} AroundPlus(s: string, j: nat)
    requires j < |s| && s[j] == '+'
    ensures s == s[..j] + "+" + s[j + 1..]
  {
    assert s == s[..j] + s[j..];
    assert s[j..] == "+" + s[j + 1..];
  }

  /** Splitting on '+' loses nothing: joining the pieces with '+' gives s
      back. */
  lemma {:induction false} SplitPlusJoin(s: string)
    ensures |SplitPlus(s)| >= 1 && JoinPlus(SplitPlus(s)) == s
    decreases |s|
  {
    var f := FirstIndexOf(s, '+');
    if f.None? {
      assert SplitPlus(s) == [s];
    } else {
      var j := f.value;
      var rest := s[j + 1..];
      SplitPlusJoin(rest);
      SplitPlusUnfold(s, j);
      JoinPlusCons(s[..j], SplitPlus(rest));
      AroundPlus(s, j);
    }
  }

  /** There is one piece more than s has '+' signs. */
  lemma {:induction false} SplitPlusCount(s: string)
    ensures |SplitPlus(s)| == CountChar(s, '+') + 1
    decreases |s|
  {
    match FirstIndexOf(s, '+')
    case None =>
      CountCharNone(s, '+');
    case Some(j) =>
      var rest := s[j + 1..];
      SplitPlusCount(rest);
      assert s == s[..j] + ("+" + rest);
      CountCharConcat(s[..j], "+" + rest, '+');
      CountCharConcat("+", rest, '+');
      CountCharNone(s[..j], '+');
  }

  /** No piece contains '+'. */
  lemma {:induction false} SplitPlusNoPlus(s: string)
    ensures forall k, j :: 0 <= k < |SplitPlus(s)| && 0 <= j < |SplitPlus(s)[k]| ==> SplitPlus(s)[k][j] != '+'
    decreases |s|
  {
    match FirstIndexOf(s, '+')
    case None =>
    case Some(j) =>
      var rest := s[j + 1..];
      SplitPlusNoPlus(rest);
      var pieces := SplitPlus(s);
      forall k, i | 0 <= k < |pieces| && 0 <= i < |pieces[k]|
        ensures pieces[k][i] != '+'
      {
        if k > 0 {
          assert pieces[k] == SplitPlus(rest)[k - 1];
        } else {
          assert pieces[0] == s[..j];
        }
      }
  }

  /** The do/while loop over --forced-params: take the text before the
      first '+' as a parameter and continue after it, until no '+' is left;
      the remaining text is the last parameter. */
  method SplitForcedParams(vars0: string) returns (params: seq<string>)
    ensures params == SplitPlus(vars0)
  {
    var vars := vars0;
    params := [];
    var found := true;
    while found
      invariant params + (if found then SplitPlus(vars) else []) == SplitPlus(vars0)
      decreases |vars| + (if found then 1 else 0)
    {
      var j := FirstIndexOf(vars, '+');
      ghost var pieces := SplitPlus(vars);
      if j.Some? {
        assert pieces == [vars[..j.value]] + SplitPlus(vars[j.value + 1..]);
        params := params + [vars[..j.value]];
        vars := vars[j.value + 1..];
      } else {
        assert pieces == [vars];
        params := params + [vars];
      }
      found := j.Some?;
    }
    assert params + [] == params;
  }

  // ----------------------------------------------------------------------
  // Setup

  /** The options the command line may set: a flag, or a value that may be
      absent. */
  datatype Options = Options(
    version: bool,
    format: bool,
    filename: string,
    epsMin: Option<real>,
    epsMax: Option<real>,
    timeout: Option<real>,
    simplLevel: Option<int>,
    input: Option<string>,
    output: Option<string>,
    bfs: bool,
    trace: bool,
    stopAtFirst: bool,
    boundary: Option<string>,
    randomSeed: Option<real>,
    forcedParams: Option<string>)

  /** DefaultSolver::default_eps_x_min, default_eps_x_max,
      default_random_seed and ExprNode::default_simpl_level. */
  datatype Defaults = Defaults(epsMin: real, epsMax: real, randomSeed: real, simplLevel: int)

  /** The settings given to the solver. An absent boundary test leaves the
      solver's own choice in place; an absent time limit means none. */
  datatype SolverConfig = SolverConfig(
    epsMin: real,
    epsMax: real,
    depthFirst: bool,
    randomSeed: real,
    boundary: Option<BoundaryTest>,
    params: seq<string>,
    timeLimit: Option<real>,
    trace: bool)

  /** Where solving starts: a covering file, or the system's own box. */
  datatype Start = FromCovFile(path: string) | FromSystemBox(box: Box)

  datatype Plan = Plan(
    simplLevel: int,
    outputPath: string,
    backup: Option<string>,
    config: SolverConfig,
    start: Start,
    stopAtFirst: bool)

  /** What the command does: print the version or the format and exit with
      status 0; report a missing input file through ibex_error (status -1);
      reject an unknown --boundary value (status 0, after the output file
      was chosen and any backup made); or solve. */
  datatype Outcome =
    | ShowVersion
    | ShowFormat
    | NoInputFile
    | InvalidBoundary(value: string, backup: Option<string>)
    | Solve(plan: Plan)

  function GetOr<T>(o: Option<T>, d: T): (r: T) {
    if o.Some? then o.value else d
  }

  /** The body of main between argument parsing and solving.
      defaultOutputExists says whether the default output file can be
      opened, sysBox is the initial box of the loaded system. */
  method Setup(opts: Options, defaults: Defaults, defaultOutputExists: bool, sysBox: Box) returns (out: Outcome)
    ensures opts.version ==> out == ShowVersion
    ensures !opts.version && opts.format ==> out == ShowFormat
    ensures !opts.version && !opts.format && opts.filename == "" ==> out == NoInputFile
    ensures out.InvalidBoundary? <==>
              !opts.version && !opts.format && opts.filename != "" &&
              opts.boundary.Some? && ParseBoundary(opts.boundary.value).None?
    ensures out.Solve? <==>
              !opts.version && !opts.format && opts.filename != "" &&
              (opts.boundary.None? || ParseBoundary(opts.boundary.value).Some?)
    ensures out.Solve? || out.InvalidBoundary? ==>
              var backup := if out.Solve? then out.plan.backup else out.backup;
              backup == if opts.output.None? && defaultOutputExists
                        then Some(BackupPath(DefaultOutputPath(opts.filename))) else None
    ensures out.Solve? ==>
              && out.plan.simplLevel == GetOr(opts.simplLevel, defaults.simplLevel)
              && out.plan.outputPath == OutputPath(opts.output, opts.filename)
              && out.plan.config.epsMin == GetOr(opts.epsMin, defaults.epsMin)
              && out.plan.config.epsMax == GetOr(opts.epsMax, defaults.epsMax)
              && out.plan.config.depthFirst == !opts.bfs
              && out.plan.config.randomSeed == GetOr(opts.randomSeed, defaults.randomSeed)
              && out.plan.config.boundary == (if opts.boundary.Some? then ParseBoundary(opts.boundary.value) else None)
              && out.plan.config.params == (if opts.forcedParams.Some? then SplitPlus(opts.forcedParams.value) else [])
              && out.plan.config.timeLimit == opts.timeout
              && out.plan.config.trace == opts.trace
              && out.plan.start == (if opts.input.Some? then FromCovFile(opts.input.value) else FromSystemBox(sysBox))
              && out.plan.stopAtFirst == opts.stopAtFirst
  {
    if opts.version {
      return ShowVersion;
    }
    if opts.format {
      return ShowFormat;
    }
    if opts.filename == "" {
      return NoInputFile;
    }
    var simpl := if opts.simplLevel.Some? then opts.simplLevel.value else defaults.simplLevel;
    var outputPath: string;
    var backup: Option<string> := None;
    if opts.output.Some? {
      outputPath := opts.output.value;
    } else {
      outputPath := DefaultOutputPath(opts.filename);
      if defaultOutputExists {
        backup := Some(BackupPath(outputPath));
      }
    }
    var config := SolverConfig(
      GetOr(opts.epsMin, defaults.epsMin),
      GetOr(opts.epsMax, defaults.epsMax),
      !opts.bfs,
      GetOr(opts.randomSeed, defaults.randomSeed),
      None, [], None, false);
    if opts.boundary.Some? {
      var t := ParseBoundary(opts.boundary.value);
      if t.None? {
        return InvalidBoundary(opts.boundary.value, backup);
      }
      config := config.(boundary := t);
    }
    if opts.forcedParams.Some? {
      var params := SplitForcedParams(opts.forcedParams.value);
      config := config.(params := params);
    }
    config := config.(timeLimit := opts.timeout, trace := opts.trace);
    var start := if opts.input.Some? then FromCovFile(opts.input.value) else FromSystemBox(sysBox);
    return Solve(Plan(simpl, outputPath, backup, config, start, opts.stopAtFirst));
  }
}

# A verified model of parts of IBEX

IBEX is a C++ library for constraint processing over real numbers with
interval arithmetic. This project models five of its pieces in Dafny and
proves their properties:

- **Bisector base class** (`Bsc`). The default split ratio. The precision
  checks of its two constructors. The no-op property hook. The box-level
  `bisect`, which wraps the cell-level split. The cell-level split is
  virtual in the library. Here the caller passes it in as a function.
- **Interval and box set operations**, as the documentation examples use
  them:
  - the interval and box constructors;
  - `complementary` and `diff`, which return a count plus pieces;
  - ratio bisection of one component;
  - the two-piece intersecting division `div2_inter`;
  - the backward projection of a sum, `bwd_add`.

  Bounds are exact reals or ±∞.
- **The depth-first contract-and-bisect loop** of the `CtcExist` and
  `CtcForAll` tests. The stack is a sequence whose last element is the top.
  The contractor is a function the caller passes in.
- **The option logic of `ibexsolve`**:
  - the default `.cov` output name and the `~` backup name;
  - the `--boundary` keywords;
  - the `+`-split of `--forced-params`;
  - the solver defaults;
  - the start mode.

Modules:

- `Wrappers` is `Option` and `Result`.
- `ExtReals` is the extended reals: bounds and their order.
- `Intervals` has:
  - the interval type (the empty set or a range with `lo <= hi`, no infinite point);
  - intersection, negation, sum, difference and diameter;
  - `complementary` and `diff` as a `Parts` value (count, first, second);
  - ratio bisection.
- `IntervalDivision` is `div2` and `div2_inter`.
- `BackwardArithmetic` is `bwd_add`.
- `Boxes` has:
  - boxes as sequences of intervals;
  - the box constructors, intersection and `max_diam`;
  - `bisect(i, ratio)`;
  - box `diff` and `complementary`.
- `Bisectors` is `Bsc` (a class with the field `prec`) and cells.
- `CtcSearch` is the search loop: the spec function `Run` and the while-loop method `Search`.
- `SolveOptions` is the option logic of `ibexsolve`.
- `DocExamples` holds the worked examples of the documentation, evaluated on the model, and the `print_compl` loop.

Design points:

- **Interval semantics.** IBEX's `Interval` and `IntervalVector` are library classes outside this model. Their set semantics are modelled from the documented behaviour:
  - `complementary` and `diff` work on closures: a piece may share an end point with the interval removed;
  - a degenerate piece is dropped, unless the interval it comes from is itself a single point;
  - `div2` is exact on the extended reals: a point v of a piece is a quotient in the relational sense, p = v·q for some p in x and q in y, so a divisor point 0 pairs with the dividend point 0 and any v; the one other point a piece may hold is 0 as a limit, when the divisor is unbounded.

  Three further library behaviours are taken as assumptions; they are listed under "Left out".
- **Precision checks.** The scalar `Bsc` constructor accepts a precision of 0. The vector constructor rejects an entry of 0. Both report "precision must be a nonnegative number". The model keeps this disagreement as written, and `PrecisionChecksDisagreeOnZero` states it.
- **Errors.** `ibex_error` ends the process. The model turns it into two forms:
  - a `requires` on the `Bsc` constructors, and a `Result` failure on their checked forms `NewScalar` and `NewVector`;
  - an `Outcome` value in `Setup`.

  `Setup`'s exits: `--version` and `--format` print and exit with status 0. An empty file name goes to `ibex_error`, which asserts false and then exits with status -1 (src/tools/ibex_Exception.cpp:19-24), so the `exit(1)` after it is never reached. An invalid `--boundary` value exits with status 0.
- **Loop guard when the contraction empties `sol`.** An empty contracted `sol` has `max_diam() == 0`. So the guard `sol.max_diam() > 1e-03` fails and the loop ends, even when boxes remain on the stack. `Run` and `Search` keep this behaviour, which is why `CtcForAll`'s exit assertion can only be `!Continues` plus the width bound.

## Model

| member | source | states |
|---|---|---|
| Bisectors.Bsc.DefaultRatio | src/bisector/ibex_Bsc.cpp:18-20 | the default ratio is 0.45, strictly between 0 and 1 |
| Bisectors.Bsc.Scalar | src/bisector/ibex_Bsc.cpp:22-25 | the scalar constructor stores the one-entry vector [prec]; callers must give prec >= 0 |
| Bisectors.Bsc.NewScalar | src/bisector/ibex_Bsc.cpp:22-25 | fails with the precision message iff prec < 0 (0 is accepted); on success a fresh bisector with prec vector [prec] |
| Bisectors.Bsc.FromVector | src/bisector/ibex_Bsc.cpp:27-30 | the vector constructor stores the vector unchanged; callers must give positive entries |
| Bisectors.Bsc.CheckPrecisions | src/bisector/ibex_Bsc.cpp:28-29 | the loop over the entries reports true iff every entry is > 0 |
| Bisectors.Bsc.NewVector | src/bisector/ibex_Bsc.cpp:27-30 | fails with the precision message iff some entry is <= 0; on success a fresh bisector holding the vector unchanged |
| Bisectors.PrecisionChecksDisagreeOnZero | src/bisector/ibex_Bsc.cpp:22-29 | [p] passes the vector check iff p passes the scalar check and p != 0: the two constructors disagree exactly on 0 |
| Bisectors.Bsc.AddProperty | src/bisector/ibex_Bsc.cpp:32-34 | the property map comes back unchanged |
| Bisectors.NewCell | src/bisector/ibex_Bsc.cpp:37 | a cell over the box with no properties |
| Bisectors.Bsc.Bisect | src/bisector/ibex_Bsc.cpp:36-43 | returns exactly the boxes of the first and second children of the cell split of Cell(box), in that order |
| Intervals.AllReals | examples/doc-arithmetic.cpp:40 | Interval() contains every real and is not degenerate |
| Intervals.Point | examples/doc-arithmetic.cpp:41 | Interval(a) is degenerate and contains exactly a |
| Intervals.Make | examples/doc-arithmetic.cpp:44-47 | Interval(lo,hi) contains exactly the reals between the bounds, and keeps the bounds when non-empty |
| Intervals.EmptyInterval | examples/doc-arithmetic.cpp:48 | empty_set() contains no real |
| Intervals.Meet | examples/doc-arithmetic.cpp:76 | the intersection contains exactly the common points |
| Intervals.Add | examples/doc-arithmetic.cpp:296 | x+y is empty iff an operand is, and contains every sum of a point of x and a point of y (the converse is AddExact) |
| Intervals.AddPoint | examples/doc-arithmetic.cpp:296 | every point of x+y splits as a sum of a point of x and a point of y, returned as the witnesses |
| Intervals.AddExact | examples/doc-arithmetic.cpp:296 | v is in x+y iff v is a sum of a point of x and a point of y |
| Intervals.Sub | examples/doc-arithmetic.cpp:303 | z-y is empty iff an operand is, and contains every difference of their points (the converse is SubExact) |
| Intervals.SubPoint | examples/doc-arithmetic.cpp:303 | every point of z-y is a difference of a point of z and a point of y, returned as the witnesses |
| Intervals.SubExact | examples/doc-arithmetic.cpp:303 | v is in z-y iff v is a difference of a point of z and a point of y |
| Intervals.Complementary | examples/doc-arithmetic.cpp:204-210 | at most two pieces, present in order; every point outside x is in a piece; no piece meets the interior of x |
| Intervals.DiffIsDifference | examples/doc-arithmetic.cpp:233-240 | x\y has at most two pieces, present in order; they lie in x, avoid the interior of y, and cover every point of x not in y |
| Intervals.Bisect | examples/doc-arithmetic.cpp:270-275 | the two halves [lo,p] and [p,hi] cover the interval, share no interior point, and meet at the split point lo+ratio·(hi-lo) |
| IntervalDivision.Div2Sound | examples/doc-arithmetic.cpp:74-78 | every quotient p/q with p in x and q != 0 in y is in one of the pieces of div2(x,y) (the converse is Div2Tight) |
| IntervalDivision.Div2Witness | examples/doc-arithmetic.cpp:74-78 | for a point v of a piece of div2(x,y), returns p in x and q in y with p = v·q, unless v is 0 and y is unbounded |
| IntervalDivision.Div2Tight | examples/doc-arithmetic.cpp:74-78 | every point v of a piece of div2(x,y) is a quotient, p = v·q for some p in x and q in y, or is 0 as the limit over an unbounded divisor |
| IntervalDivision.Div2Inter | examples/doc-arithmetic.cpp:74-78 | the left and right parts together are exactly intv ∩ div2(x,y); the result is true iff the left part is non-empty; an empty left part means an empty right part; the left part lies below the right; no quotient in intv is lost |
| BackwardArithmetic.BwdAdd | examples/doc-arithmetic.cpp:303-327 | x and y only shrink; every a in x, b in y with a+b in z is kept; every a kept in x has some b in y with a+b in z, and every b kept in y has some a kept in x with a+b in z; x is empty iff y is; true iff they are non-empty; an empty z (or x or y) empties both x and y |
| Boxes.Universe | examples/doc-arithmetic.cpp:86 | IntervalVector(n) has n components and contains every point of dimension n |
| Boxes.FromBounds | examples/doc-arithmetic.cpp:92-93 | IntervalVector(n,bounds) has one component per bound pair, component i holding exactly the reals between bounds[i].0 and bounds[i].1 |
| Boxes.Filled | examples/doc-arithmetic.cpp:115-116 | IntervalVector(n,I) has n components all equal to I, and is empty iff I is |
| Boxes.EmptyBox | examples/doc-arithmetic.cpp:126 | IntervalVector::empty(n) has n empty components |
| Boxes.FromPoint | examples/doc-arithmetic.cpp:128-129 | IntervalVector(x) is a non-empty box containing exactly the point x |
| Boxes.MeetBox | examples/doc-arithmetic.cpp:254 | the box intersection contains exactly the common points; an empty result has all components empty |
| Boxes.MaxDiam | tests/TestCtcExist.cpp:39 | max_diam is 0 for an empty box, and otherwise the largest component diameter, attained by some component |
| Boxes.BisectAt | examples/doc-arithmetic.cpp:270-275 | bisect(i,ratio) gives two boxes equal to x off component i and with component i split into the two halves |
| Boxes.BisectAtPartition | examples/doc-arithmetic.cpp:270-275 | the two boxes of bisect cover x exactly and share no interior point |
| Boxes.BoxDiffIsDifference | examples/doc-arithmetic.cpp:254-258 | x.diff(y) gives at most 2n boxes, each non-empty, inside x and outside the interior of y, together covering every point of x not in y; no two of them share an interior point |
| Boxes.BoxComplementaryIsComplement | examples/doc-arithmetic.cpp:20-26 | complementary gives at most 2n non-empty boxes, outside the interior of x, covering every point not in x, no two sharing an interior point |
| DocExamples.ListComplement | examples/doc-arithmetic.cpp:20-26 | the print_compl loop emits exactly the n boxes of complementary, in order; they cover the complement and no two share an interior point |
| DocExamples.IntervalConstructors | examples/doc-arithmetic.cpp:40-48 | the documented values of the interval constructors |
| DocExamples.Div2InterExample | examples/doc-arithmetic.cpp:74-78 | [2,3]/[-1,2] is (-oo,-2] and [1,+oo); met with [-10,10] they give [-10,-2] and [1,10] |
| DocExamples.ComplementaryExample | examples/doc-arithmetic.cpp:204-210 | the complement of [0,1] is (-oo,0] and [1,+oo) |
| DocExamples.BoxComplementaryExamples | examples/doc-arithmetic.cpp:219-221 | the complement of empty(3) is the single box (-oo,+oo)^3; that of (-oo,+oo)^3 has no box |
| DocExamples.DiffExample | examples/doc-arithmetic.cpp:233-240 | [0,3]\[1,2] is [0,1] and [2,3] |
| DocExamples.BoxDiffExample | examples/doc-arithmetic.cpp:250-258 | [0,3]^2\[1,2]^2 is the four documented boxes, in order |
| DocExamples.BisectExample | examples/doc-arithmetic.cpp:270-275 | bisect(1,0.4) of [0,1]^3 splits component 1 into [0,0.4] and [0.4,1] |
| CtcSearch.StepStack | tests/TestCtcExist.cpp:40-47 | one iteration makes sol the contraction of the old top; an empty sol leaves the stack popped, one shorter; otherwise the stack below the old top is unchanged and the first then second half of bisect(0) are pushed, one longer |
| CtcSearch.StepHalvesPartition | tests/TestCtcExist.cpp:43-47 | the two halves pushed cover exactly the contracted sol and agree with it on every component other than 0 |
| CtcSearch.PopContractPush | tests/TestCtcExist.cpp:40-47 | the loop body (top, pop, contract, bisect and two pushes) leaves exactly the state of one Step |
| CtcSearch.RightHalfExaminedNext | tests/TestCtcForAll.cpp:50-51 | after a non-empty contraction, the next box contracted is the second (right) half |
| CtcSearch.RunKeepsSolutions | tests/TestCtcExist.cpp:39-48 | with a contractor that never removes a solution, the stack at exit still covers every solution in the initial box |
| CtcSearch.FirstRunKeepsSolutions | tests/TestCtcExist.cpp:36-48 | a run started from stack [box] with sol = box and a contractor that never removes a solution, ends with a stack covering every solution in box |
| CtcSearch.RunKeepsPoint | tests/TestCtcExist.cpp:39-48 | with a contractor that never removes a solution, a solution in some box of the stack is still in some box of the stack when the loop stops |
| CtcSearch.Search | tests/TestCtcForAll.cpp:44-57 | the while loop ends in the state of Run; stopping before the fuel is spent means the guard is false, and a non-empty stack then means max_diam(sol) <= 1e-03 |
| CtcSearch.Drain | tests/TestCtcForAll.cpp:60 | the drain loop leaves the stack empty |
| CtcSearch.TwoRuns | tests/TestCtcExist.cpp:36-68 | both runs start from stack [box] with sol = box; the second after the drain |
| SolveOptions.LastIndexOf | src/bin/ibexsolve.cpp:134 | find_last_of: the last index holding c, or none when c does not occur |
| SolveOptions.DefaultOutputPathShape | src/bin/ibexsolve.cpp:134-139 | base.ext with no '.' in ext gives base.cov; a name with no '.' just gains .cov |
| SolveOptions.BackupDiffersFromOutput | src/bin/ibexsolve.cpp:144-148 | the backup name is the output name with "~" appended, so never the output name itself |
| SolveOptions.ParseBoundaryNames | src/bin/ibexsolve.cpp:171-184 | exactly the four keywords are accepted, each to its boundary test, and each test's keyword parses back to it |
| SolveOptions.FirstIndexOf | src/bin/ibexsolve.cpp:202 | find("+"): the first index holding c, or none |
| SolveOptions.SplitPlusJoin | src/bin/ibexsolve.cpp:197-210 | joining the pieces with '+' gives back the option string |
| SolveOptions.SplitPlusCount | src/bin/ibexsolve.cpp:197-210 | there is one piece more than there are '+' |
| SolveOptions.SplitPlusNoPlus | src/bin/ibexsolve.cpp:197-210 | no piece contains '+' |
| SolveOptions.SplitForcedParams | src/bin/ibexsolve.cpp:197-210 | the do/while loop yields exactly the '+'-split of the option string |
| SolveOptions.Setup | src/bin/ibexsolve.cpp:85-252 | --version, then --format, then an empty file name end the run before anything else; an unknown --boundary value stops it, and a known one sets the boundary test; the output path is --output if given, else the name up to its last '.' plus ".cov"; a backup name ending in "~" exactly when the default output is used and exists; the simplification level, eps-min, eps-max and random seed are the options or their defaults; depth-first iff --bfs is unset; the forced parameters are the '+'-split of the option; timeout, trace and stop-at-first are passed through; solving starts from the --input covering file if given, otherwise from the system's box |

## Left out

- Floating point. Bounds are exact reals, so outward rounding and every rounding effect of interval arithmetic are not modelled.
- `bwd_sin`, the transcendental constants and the matrix examples (`Matrix`, `IntervalMatrix`, `bwd_mul`). They depend on floating-point library code that is not part of this model.
- `Interval` and `IntervalVector` internals. They are library classes outside this model. The interval operations follow their documented set semantics (see the design points above).
- Boxes.MaxDiam: an empty box is taken to have `max_diam() == 0`. This is an assumption about the library, whose code is not part of this model.
- Boxes.BisectAt: a component unbounded on one side is taken to split at ±`MAX_DOUBLE`. This is an assumption about the library's bisection.
- CtcSearch.HalfRatio: `IntervalVector::bisect(i)` is taken to use the ratio 1/2. This is an assumption about the library's default argument.
- Writing results into arguments. `complementary(c1,c2)`, `diff(y,c1,c2)`, `div2_inter` and `bwd_add` write their results into their arguments in place. The model returns the new values instead, so aliasing between arguments is not modelled.
- The unused result slots. When a count is below 2, the library leaves the unused slots with placeholder contents. The model states that they are empty.
- CtcSearch.Run: the loop of the tests has no iteration bound. `Run` and `Search` take a `fuel` bound, so termination of the unbounded loop is not modelled, only what holds when it stops.
- CtcSearch.Step: the library asserts that `sol` is bisectable. The model lets `bisect(0)` split any non-empty component, including a degenerate one.
- The internals of `CtcExist` and `CtcForAll` and the constraint of the tests. They are abstracted as a caller-supplied contractor that keeps the dimension.
- The `right_bound` containment assertions of the tests. They depend on that concrete constraint, not on the loop.
- Box dimension. `IntervalVector` needs at least one component. This is a `requires` of the box constructors and of box `diff`.
- Bisectors.Bsc.Bisect: the cells are values. Their heap allocation and deletion are not modelled, and the cell split is a function parameter.
- BackwardArithmetic.BwdAdd: the second emptiness branch (y empty after x has been narrowed) is kept, but exact arithmetic never reaches it.
- `ibex_error` ends the process. Its message printing and exit are modelled as a failed precondition or an error value.
- The `args` command-line parser. `Setup` receives the parsed options.
- Reading the `System` file. The system's initial box is a parameter of `Setup`.
- File system and console:
  - whether the default output file exists is a parameter of `Setup`;
  - the byte copy into the backup file is not modelled;
  - console reporting, `save` of the covering and the LP-library warning are not modelled.
- Forced parameters: `parse_indexed_symbol` and the `VarSet` construction are not modelled. The model keeps the symbol strings.
- The exception handlers of `ibexsolve`.
- The `DefaultSolver` default constants are library code outside this model. They are a `Defaults` parameter of `Setup`.
- `examples/slam/slam2.cpp` only wires library contractors whose code is not part of this model.
- `src/tools/ibex_Exception.cpp` only prints and exits (see `ibex_error` above).

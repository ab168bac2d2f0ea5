/**
 * The coverage report of cov/src/report.rs: per file, the covered lines (each
 * with its count, block attributes and branches) and the functions with their
 * summaries; and `File::summary`, which totals a file.
 */
module Report {
  import opened Raw
  import Utils

  /**
   * A branch leaving a line: the arc's count and attributes, and where it
   * goes. Line numbers (`u32` in the report) are kept as their values.
   */
  datatype Branch = Branch(count: nat, attr: ArcAttr, filename: Symbol, line: nat, column: nat)

  /** A source line: the largest count of the blocks on it, their attributes, and its branches. */
  datatype Line = Line(count: nat, attr: BlockAttr, branches: seq<Branch>)

  const DEFAULT_LINE := Line(0, 0, [])

  datatype FunctionSummary = FunctionSummary(
    blocksCount: nat, blocksExecuted: nat, entryCount: nat, exitCount: nat,
    branchesCount: nat, branchesExecuted: nat, branchesTaken: nat)

  datatype Function = Function(name: Symbol, line: nat, column: nat, summary: FunctionSummary)

  datatype FileSummary = FileSummary(
    linesCount: nat, linesCovered: nat, branchesCount: nat, branchesExecuted: nat,
    branchesTaken: nat, functionsCount: nat, functionsCalled: nat)

  /** The lines of one source file (keyed by line number) and the functions defined in it. */
  datatype File = File(lines: map<nat, Line>, functions: seq<Function>)

  const DEFAULT_FILE := File(map[], [])

  datatype Report = Report(files: map<Symbol, File>)

  /** The line numbers of a file whose count is positive. */
  function CoveredLines(f: File): set<nat>
  {
    set l | l in f.lines && f.lines[l].count > 0
  }

  /** The per-function tuple `File::summary` folds: branch totals, and 1 when the function was entered. */
  function FunctionTuple(fn: Function): (nat, nat, nat, nat)
  {
    var s := fn.summary;
    (s.branchesCount, s.branchesExecuted, s.branchesTaken, if s.entryCount > 0 then 1 else 0)
  }

  function Tuples(fs: seq<Function>): (t: seq<(nat, nat, nat, nat)>)
    ensures |t| == |fs|
    ensures forall i :: 0 <= i < |fs| ==> t[i] == FunctionTuple(fs[i])
  {
    seq(|fs|, i requires 0 <= i < |fs| => FunctionTuple(fs[i]))
  }

  /** The branch totals a function summary carries. */
  datatype BranchField = BranchesCount | BranchesExecuted | BranchesTaken

  function FieldOf(s: FunctionSummary, field: BranchField): nat
  {
    match field
    case BranchesCount => s.branchesCount
    case BranchesExecuted => s.branchesExecuted
    case BranchesTaken => s.branchesTaken
  }

  /** The total of one branch field over the functions. */
  function SumOf(fs: seq<Function>, field: BranchField): nat
  {
    Utils.Sum(seq(|fs|, i requires 0 <= i < |fs| => FieldOf(fs[i].summary, field)))
  }

  /** The number of functions entered at least once. */
  function CalledCount(fs: seq<Function>): nat
  {
    Utils.Sum(seq(|fs|, i requires 0 <= i < |fs| => if fs[i].summary.entryCount > 0 then 1 else 0))
  }

  /**
   * `File::summary`: the line count and the covered lines, the branch totals
   * summed over the functions, and how many functions there are and how many
   * were called.
   */
  function Summary(f: File): (s: FileSummary)
    ensures s.linesCount == |f.lines|
    ensures s.linesCovered == |CoveredLines(f)| <= s.linesCount
    ensures s.functionsCount == |f.functions|
    ensures s.functionsCalled == CalledCount(f.functions) <= s.functionsCount
    ensures s.branchesCount == SumOf(f.functions, BranchesCount)
    ensures s.branchesExecuted == SumOf(f.functions, BranchesExecuted)
    ensures s.branchesTaken == SumOf(f.functions, BranchesTaken)
  {
    var covered := CoveredLines(f);
    CoveredWithinLines(f);
    var ts := Tuples(f.functions);
    var totals := Utils.Fold4(ts);
    SummaryTotals(f.functions);
    FileSummary(|f.lines|, |covered|, totals.0, totals.1, totals.2, |f.functions|, totals.3)
  }

  lemma CoveredWithinLines(f: File)
    ensures |CoveredLines(f)| <= |f.lines|
  {
    assert CoveredLines(f) <= f.lines.Keys;
    SubsetCard(CoveredLines(f), f.lines.Keys);
  }

  lemma {:induction false} SubsetCard<T>(a: set<T>, b: set<T>)
    requires a <= b
    ensures |a| <= |b|
    decreases |b|
  {
    if a != {} {
      var x :| x in a;
      SubsetCard(a - {x}, b - {x});
    }
  }

  /** The fold of `File::summary` gives the four per-field totals. */
  lemma SummaryTotals(fs: seq<Function>)
    ensures var t := Utils.Fold4(Tuples(fs));
            t.0 == SumOf(fs, BranchesCount) &&
            t.1 == SumOf(fs, BranchesExecuted) &&
            t.2 == SumOf(fs, BranchesTaken) &&
            t.3 == CalledCount(fs) && t.3 <= |fs|
  {
    var ts := Tuples(fs);
    Utils.Fold4Componentwise(ts);
    assert seq(|ts|, i requires 0 <= i < |ts| => ts[i].0)
        == seq(|fs|, i requires 0 <= i < |fs| => FieldOf(fs[i].summary, BranchesCount));
    assert seq(|ts|, i requires 0 <= i < |ts| => ts[i].1)
        == seq(|fs|, i requires 0 <= i < |fs| => FieldOf(fs[i].summary, BranchesExecuted));
    assert seq(|ts|, i requires 0 <= i < |ts| => ts[i].2)
        == seq(|fs|, i requires 0 <= i < |fs| => FieldOf(fs[i].summary, BranchesTaken));
    var called := seq(|fs|, i requires 0 <= i < |fs| => if fs[i].summary.entryCount > 0 then 1 else 0);
    assert seq(|ts|, i requires 0 <= i < |ts| => ts[i].3) == called;
    Utils.SumOfBitsBounded(called);
  }
}

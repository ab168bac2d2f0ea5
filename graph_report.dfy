/**
 * The projection of the analysed graph onto the coverage report
 * (`Graph::report` of cov/src/graph.rs): a summary per function, then the
 * lines every block claims, with the branches leaving a block attached to
 * the last line it claims. The functions here specify the report; the
 * loops that build it are the methods at the end of this module, which
 * `Graph.Report` in `CovGraph` runs.
 */
module GraphReport {
  import opened Options
  import opened Raw
  import opened GraphModel
  import Intern
  import F = GraphFlow
  import R = Report

  function Max(a: nat, b: nat): nat
  {
    if a < b then b else a
  }

  /** `count > Some(0)`: the count is known and positive. */
  predicate Positive(c: Option<nat>)
  {
    c.Some? && c.value > 0
  }

  /** Pairs with their line numbers as values. */
  function Valued(ps: seq<(Symbol, bv32)>): (r: seq<(Symbol, nat)>)
    ensures |r| == |ps|
    ensures forall k :: 0 <= k < |ps| ==> r[k] == (ps[k].0, ps[k].1 as nat)
  {
    if ps == [] then [] else [(ps[0].0, ps[0].1 as nat)] + Valued(ps[1..])
  }

  /** The (file, line) pairs `BlockInfo::iter_lines` yields for a block. */
  function Pairs(b: BlockInfo): seq<(Symbol, nat)>
  {
    Valued(LinePairs(b.lines, Intern.UNKNOWN_SYMBOL))
  }

  /** The last pair a block claims, which `report_block` returns. */
  function LastLine(b: BlockInfo): (p: Option<(Symbol, nat)>)
    ensures p.Some? ==> p.value in Pairs(b)
    ensures p.None? <==> Pairs(b) == []
  {
    var ps := Pairs(b);
    if ps == [] then None else Some(ps[|ps| - 1])
  }

  //----------------------------------------------------------------------------
  // Arcs

  /**
   * `Graph::report_arc`: no branch for an unconditional arc unless it is a
   * call that does not return; otherwise a branch with the arc's count (0
   * when unknown) and attributes, pointing at the first line the target
   * block claims, or at line 0 of the unknown file when it claims none.
   */
  function ReportArc(nodes: seq<BlockInfo>, e: Edge): (r: Option<R.Branch>)
    requires e.target < |nodes|
    ensures r.None? <==> Has(e.weight.attr, ARC_ATTR_UNCONDITIONAL) && !Has(e.weight.attr, ARC_ATTR_CALL_NON_RETURN)
    ensures r.Some? ==> r.value.count == e.weight.count.UnwrapOr(0) && r.value.attr == e.weight.attr && r.value.column == 0
    ensures r.Some? && Pairs(nodes[e.target]) != [] ==> (r.value.filename, r.value.line) == Pairs(nodes[e.target])[0]
    ensures r.Some? && Pairs(nodes[e.target]) == [] ==> r.value.filename == Intern.UNKNOWN_SYMBOL && r.value.line == 0
  {
    var attr := e.weight.attr;
    if Has(attr, ARC_ATTR_UNCONDITIONAL) && !Has(attr, ARC_ATTR_CALL_NON_RETURN) then None
    else
      var ps := Pairs(nodes[e.target]);
      var at := if ps == [] then (Intern.UNKNOWN_SYMBOL, 0) else ps[0];
      Some(R.Branch(e.weight.count.UnwrapOr(0), attr, at.0, at.1, 0))
  }

  /** `report` skips an arc into the exit block whose count is known to be zero. */
  predicate SkippedArc(e: Edge, exit: nat)
  {
    e.target == exit && e.weight.count == Some(0)
  }

  /** What `report` adds to the branches for one arc. */
  function ArcBranch(nodes: seq<BlockInfo>, e: Edge, exit: nat): seq<R.Branch>
    requires e.target < |nodes|
  {
    if SkippedArc(e, exit) then []
    else match ReportArc(nodes, e)
      case None => []
      case Some(b) => [b]
  }

  /** The arcs `arcs` exist and lead to existing blocks. */
  predicate ArcsInRange(nodes: seq<BlockInfo>, edges: seq<Edge>, arcs: seq<nat>)
  {
    forall k :: 0 <= k < |arcs| ==> arcs[k] < |edges| && edges[arcs[k]].target < |nodes|
  }

  /** The branches `report` adds for the arcs `arcs`, in order. */
  function ArcBranches(nodes: seq<BlockInfo>, edges: seq<Edge>, arcs: seq<nat>, exit: nat): seq<R.Branch>
    requires ArcsInRange(nodes, edges, arcs)
  {
    if arcs == [] then []
    else ArcBranches(nodes, edges, arcs[..|arcs| - 1], exit) + ArcBranch(nodes, edges[arcs[|arcs| - 1]], exit)
  }

  /** The exit block of the function owning block `n`. */
  function ExitOf(s: GraphState, n: nat): nat
    requires WellFormed(s) && F.AllHaveExit(s) && n < |s.nodes|
  {
    ExitBlock(s.functions[s.nodes[n].index], s.version)
  }

  /** The out-arcs of block `n`, newest first, are in range. */
  lemma OutArcsInRange(s: GraphState, n: nat)
    requires WellFormed(s)
    ensures ArcsInRange(s.nodes, s.edges, OutEdges(s.edges, n, |s.edges|))
  {
  }

  /** The branches `report` attaches for block `n`: over its out-arcs, newest first. */
  function BlockBranches(s: GraphState, n: nat): seq<R.Branch>
    requires WellFormed(s) && F.AllHaveExit(s) && n < |s.nodes|
  {
    OutArcsInRange(s, n);
    ArcBranches(s.nodes, s.edges, OutEdges(s.edges, n, |s.edges|), ExitOf(s, n))
  }

  /** The branch one arc adds is the one `report_arc` makes, unless the arc is skipped. */
  lemma ArcBranchIs(nodes: seq<BlockInfo>, e: Edge, exit: nat, b: R.Branch)
    requires e.target < |nodes|
    ensures b in ArcBranch(nodes, e, exit) <==> !SkippedArc(e, exit) && ReportArc(nodes, e) == Some(b)
  {
  }

  /** A branch is among those of the arcs `arcs` exactly when one of them adds it. */
  lemma ArcBranchesSkip(nodes: seq<BlockInfo>, edges: seq<Edge>, arcs: seq<nat>, exit: nat, b: R.Branch)
    requires ArcsInRange(nodes, edges, arcs)
    ensures b in ArcBranches(nodes, edges, arcs, exit) <==>
      exists k :: 0 <= k < |arcs| && b in ArcBranch(nodes, edges[arcs[k]], exit)
  {
    if b in ArcBranches(nodes, edges, arcs, exit) {
      var k := ArcBranchesWitness(nodes, edges, arcs, exit, b);
    }
    if exists k :: 0 <= k < |arcs| && b in ArcBranch(nodes, edges[arcs[k]], exit) {
      var k :| 0 <= k < |arcs| && b in ArcBranch(nodes, edges[arcs[k]], exit);
      ArcBranchesHas(nodes, edges, arcs, exit, b, k);
    }
  }

  /** A branch among those of the arcs `arcs` is added by one of them. */
  lemma {:induction false} ArcBranchesWitness(nodes: seq<BlockInfo>, edges: seq<Edge>, arcs: seq<nat>, exit: nat, b: R.Branch)
    returns (k: nat)
    requires ArcsInRange(nodes, edges, arcs) && b in ArcBranches(nodes, edges, arcs, exit)
    ensures k < |arcs| && b in ArcBranch(nodes, edges[arcs[k]], exit)
  {
    var init := arcs[..|arcs| - 1];
    if b in ArcBranches(nodes, edges, init, exit) {
      k := ArcBranchesWitness(nodes, edges, init, exit, b);
      assert arcs[k] == init[k];
    } else {
      k := |arcs| - 1;
    }
  }

  /** The branch an arc adds is among those of any list holding the arc. */
  lemma {:induction false} ArcBranchesHas(nodes: seq<BlockInfo>, edges: seq<Edge>, arcs: seq<nat>, exit: nat, b: R.Branch, k: nat)
    requires ArcsInRange(nodes, edges, arcs) && k < |arcs| && b in ArcBranch(nodes, edges[arcs[k]], exit)
    ensures b in ArcBranches(nodes, edges, arcs, exit)
  {
    var init := arcs[..|arcs| - 1];
    if k < |init| {
      assert arcs[k] == init[k];
      ArcBranchesHas(nodes, edges, init, exit, b, k);
    }
  }

  /**
   * The branch rules of `report` for block `n`: a branch is attached for
   * exactly the out-arcs that `report_arc` reports, less the zero arcs
   * into the exit block.
   */
  lemma BlockBranchesSkip(s: GraphState, n: nat, b: R.Branch)
    requires WellFormed(s) && F.AllHaveExit(s) && n < |s.nodes|
    ensures b in BlockBranches(s, n) <==>
      exists e :: 0 <= e < |s.edges| && s.edges[e].source == n &&
        !SkippedArc(s.edges[e], ExitOf(s, n)) && ReportArc(s.nodes, s.edges[e]) == Some(b)
  {
    if b in BlockBranches(s, n) {
      var e := BlockBranchWitness(s, n, b);
    }
    if exists e :: 0 <= e < |s.edges| && s.edges[e].source == n &&
        !SkippedArc(s.edges[e], ExitOf(s, n)) && ReportArc(s.nodes, s.edges[e]) == Some(b) {
      var e :| 0 <= e < |s.edges| && s.edges[e].source == n &&
        !SkippedArc(s.edges[e], ExitOf(s, n)) && ReportArc(s.nodes, s.edges[e]) == Some(b);
      BlockBranchHas(s, n, b, e);
    }
  }

  /** A branch attached to block `n` comes from one of its out-arcs. */
  lemma BlockBranchWitness(s: GraphState, n: nat, b: R.Branch) returns (e: nat)
    requires WellFormed(s) && F.AllHaveExit(s) && n < |s.nodes| && b in BlockBranches(s, n)
    ensures e < |s.edges| && s.edges[e].source == n &&
      !SkippedArc(s.edges[e], ExitOf(s, n)) && ReportArc(s.nodes, s.edges[e]) == Some(b)
  {
    var out := OutEdges(s.edges, n, |s.edges|);
    var k := ArcBranchesWitness(s.nodes, s.edges, out, ExitOf(s, n), b);
    e := out[k];
    ArcBranchIs(s.nodes, s.edges[e], ExitOf(s, n), b);
  }

  /** The branch an out-arc of block `n` reports is attached to the block, unless the arc is skipped. */
  lemma BlockBranchHas(s: GraphState, n: nat, b: R.Branch, e: nat)
    requires WellFormed(s) && F.AllHaveExit(s) && n < |s.nodes|
    requires e < |s.edges| && s.edges[e].source == n
    requires !SkippedArc(s.edges[e], ExitOf(s, n)) && ReportArc(s.nodes, s.edges[e]) == Some(b)
    ensures b in BlockBranches(s, n)
  {
    var out := OutEdges(s.edges, n, |s.edges|);
    var k :| 0 <= k < |out| && out[k] == e;
    ArcBranchIs(s.nodes, s.edges[e], ExitOf(s, n), b);
    ArcBranchesHas(s.nodes, s.edges, out, ExitOf(s, n), b, k);
  }

  //----------------------------------------------------------------------------
  // Functions

  /** `Source::default()`: the unknown symbol, at line 0. */
  const DEFAULT_SOURCE := Source(Intern.UNKNOWN_SYMBOL, Intern.UNKNOWN_SYMBOL, 0)

  /** How many of the blocks `ns` have a positive count. */
  function ExecutedCount(s: GraphState, ns: seq<nat>): (r: nat)
    requires forall j :: 0 <= j < |ns| ==> ns[j] < |s.nodes|
    ensures r <= |ns|
  {
    if ns == [] then 0
    else (if Positive(s.nodes[ns[0]].count) then 1 else 0) + ExecutedCount(s, ns[1..])
  }

  /** The out-arcs of the blocks `ns`, block by block, each block's newest first. */
  function FunctionArcs(s: GraphState, ns: seq<nat>): (r: seq<nat>)
    ensures forall k :: 0 <= k < |r| ==> r[k] < |s.edges|
    ensures forall e: nat :: e in r <==> e < |s.edges| && s.edges[e].source in ns
  {
    if ns == [] then [] else OutEdges(s.edges, ns[0], |s.edges|) + FunctionArcs(s, ns[1..])
  }

  /** Whether `report_function` counts an arc as a branch: neither unconditional nor fake. */
  predicate IsBranch(e: Edge)
  {
    e.weight.attr & (ARC_ATTR_UNCONDITIONAL | ARC_ATTR_FAKE) == 0
  }

  /**
   * The fold `report_function` runs over the arcs: the number of branches,
   * of those whose source block ran, and of those taken.
   */
  function BranchTally(s: GraphState, arcs: seq<nat>): (t: (nat, nat, nat))
    requires WellFormed(s) && forall k :: 0 <= k < |arcs| ==> arcs[k] < |s.edges|
    ensures t.1 <= t.0 && t.2 <= t.0 <= |arcs|
  {
    if arcs == [] then (0, 0, 0)
    else
      var rest := BranchTally(s, arcs[1..]);
      var e := s.edges[arcs[0]];
      if !IsBranch(e) then rest
      else (rest.0 + 1,
            rest.1 + (if Positive(s.nodes[e.source].count) then 1 else 0),
            rest.2 + (if Positive(e.weight.count) then 1 else 0))
  }

  /** Adding one more index above every index of `a` adds one to its size exactly when it is added. */
  lemma CardSnoc(a: set<nat>, n: nat, b: bool)
    requires forall j :: j in a ==> j < n
    ensures |a + (if b then {n} else {})| == |a| + (if b then 1 else 0)
  {
  }

  /** The positions of `ns` whose block has a positive count: what `filter(...).count()` counts. */
  ghost function ExecutedPositions(s: GraphState, ns: seq<nat>): set<nat>
    requires forall j :: 0 <= j < |ns| ==> ns[j] < |s.nodes|
  {
    set j: nat | j < |ns| && Positive(s.nodes[ns[j]].count)
  }

  lemma {:induction false} ExecutedAppend(s: GraphState, a: seq<nat>, b: seq<nat>)
    requires forall j :: 0 <= j < |a| ==> a[j] < |s.nodes|
    requires forall j :: 0 <= j < |b| ==> b[j] < |s.nodes|
    ensures ExecutedCount(s, a + b) == ExecutedCount(s, a) + ExecutedCount(s, b)
  {
    if a == [] {
      assert a + b == b;
    } else {
      assert (a + b)[1..] == a[1..] + b;
      ExecutedAppend(s, a[1..], b);
    }
  }

  /** `ExecutedCount` is the number of positions of `ns` whose block ran. */
  lemma {:induction false} ExecutedCountCounts(s: GraphState, ns: seq<nat>)
    requires forall j :: 0 <= j < |ns| ==> ns[j] < |s.nodes|
    ensures ExecutedCount(s, ns) == |ExecutedPositions(s, ns)|
  {
    if ns == [] {
      assert ExecutedPositions(s, ns) == {};
    } else {
      var n := |ns| - 1;
      var p := ns[..n];
      assert ns == p + [ns[n]];
      ExecutedAppend(s, p, [ns[n]]);
      ExecutedCountCounts(s, p);
      var b := Positive(s.nodes[ns[n]].count);
      ExecutedPositionsSnoc(s, ns);
      assert [ns[n]][1..] == [];
      assert ExecutedCount(s, [ns[n]]) == if b then 1 else 0;
      CardSnoc(ExecutedPositions(s, p), n, b);
    }
  }

  /** The executed positions of `ns` are those of all but its last block, and the last one if it ran. */
  lemma ExecutedPositionsSnoc(s: GraphState, ns: seq<nat>)
    requires ns != [] && forall j :: 0 <= j < |ns| ==> ns[j] < |s.nodes|
    ensures var n := |ns| - 1;
      ExecutedPositions(s, ns) == ExecutedPositions(s, ns[..n]) + (if Positive(s.nodes[ns[n]].count) then {n} else {})
  {
    var n := |ns| - 1;
    var p := ns[..n];
    forall j: nat
      ensures j in ExecutedPositions(s, ns) <==> j in ExecutedPositions(s, p) + (if Positive(s.nodes[ns[n]].count) then {n} else {})
    {
      if j < n {
        assert ns[j] == p[j];
      }
    }
  }

  /** The positions of `arcs` that are branches. */
  ghost function BranchPositions(s: GraphState, arcs: seq<nat>): set<nat>
    requires forall k :: 0 <= k < |arcs| ==> arcs[k] < |s.edges|
  {
    set k: nat | k < |arcs| && IsBranch(s.edges[arcs[k]])
  }

  /** The positions of `arcs` that are branches whose source block ran. */
  ghost function ExecutedBranchPositions(s: GraphState, arcs: seq<nat>): set<nat>
    requires WellFormed(s) && forall k :: 0 <= k < |arcs| ==> arcs[k] < |s.edges|
  {
    set k: nat | k < |arcs| && IsBranch(s.edges[arcs[k]]) && Positive(s.nodes[s.edges[arcs[k]].source].count)
  }

  /** The positions of `arcs` that are branches with a positive count. */
  ghost function TakenBranchPositions(s: GraphState, arcs: seq<nat>): set<nat>
    requires forall k :: 0 <= k < |arcs| ==> arcs[k] < |s.edges|
  {
    set k: nat | k < |arcs| && IsBranch(s.edges[arcs[k]]) && Positive(s.edges[arcs[k]].weight.count)
  }

  lemma {:induction false} BranchTallyAppend(s: GraphState, a: seq<nat>, b: seq<nat>)
    requires WellFormed(s)
    requires forall k :: 0 <= k < |a| ==> a[k] < |s.edges|
    requires forall k :: 0 <= k < |b| ==> b[k] < |s.edges|
    ensures var x, y, z := BranchTally(s, a), BranchTally(s, b), BranchTally(s, a + b);
      z == (x.0 + y.0, x.1 + y.1, x.2 + y.2)
  {
    if a == [] {
      assert a + b == b;
    } else {
      assert (a + b)[1..] == a[1..] + b;
      BranchTallyAppend(s, a[1..], b);
    }
  }

  /**
   * The fold over the arcs counts, position by position, the branches, the
   * branches whose source block ran, and the branches taken.
   */
  lemma BranchTallyCounts(s: GraphState, arcs: seq<nat>)
    requires WellFormed(s) && forall k :: 0 <= k < |arcs| ==> arcs[k] < |s.edges|
    ensures BranchTally(s, arcs).0 == |BranchPositions(s, arcs)|
    ensures BranchTally(s, arcs).1 == |ExecutedBranchPositions(s, arcs)|
    ensures BranchTally(s, arcs).2 == |TakenBranchPositions(s, arcs)|
  {
    TalliedBranches(s, arcs);
    TalliedExecuted(s, arcs);
    TalliedTaken(s, arcs);
  }

  /** The first total of the fold counts the branches. */
  lemma {:induction false} TalliedBranches(s: GraphState, arcs: seq<nat>)
    requires WellFormed(s) && forall k :: 0 <= k < |arcs| ==> arcs[k] < |s.edges|
    ensures BranchTally(s, arcs).0 == |BranchPositions(s, arcs)|
  {
    if arcs == [] {
      assert BranchPositions(s, arcs) == {};
    } else {
      var n := |arcs| - 1;
      var p := arcs[..n];
      var e := s.edges[arcs[n]];
      assert arcs == p + [arcs[n]];
      BranchTallyAppend(s, p, [arcs[n]]);
      TalliedBranches(s, p);
      BranchPositionsSnoc(s, arcs);
      BranchTallyOne(s, arcs[n]);
      CardSnoc(BranchPositions(s, p), n, IsBranch(e));
    }
  }

  /** The second total of the fold counts the branches whose source block ran. */
  lemma {:induction false} TalliedExecuted(s: GraphState, arcs: seq<nat>)
    requires WellFormed(s) && forall k :: 0 <= k < |arcs| ==> arcs[k] < |s.edges|
    ensures BranchTally(s, arcs).1 == |ExecutedBranchPositions(s, arcs)|
  {
    if arcs == [] {
      assert ExecutedBranchPositions(s, arcs) == {};
    } else {
      var n := |arcs| - 1;
      var p := arcs[..n];
      var e := s.edges[arcs[n]];
      assert arcs == p + [arcs[n]];
      BranchTallyAppend(s, p, [arcs[n]]);
      TalliedExecuted(s, p);
      BranchPositionsSnoc(s, arcs);
      BranchTallyOne(s, arcs[n]);
      CardSnoc(ExecutedBranchPositions(s, p), n, IsBranch(e) && Positive(s.nodes[e.source].count));
    }
  }

  /** The third total of the fold counts the branches taken. */
  lemma {:induction false} TalliedTaken(s: GraphState, arcs: seq<nat>)
    requires WellFormed(s) && forall k :: 0 <= k < |arcs| ==> arcs[k] < |s.edges|
    ensures BranchTally(s, arcs).2 == |TakenBranchPositions(s, arcs)|
  {
    if arcs == [] {
      assert TakenBranchPositions(s, arcs) == {};
    } else {
      var n := |arcs| - 1;
      var p := arcs[..n];
      var e := s.edges[arcs[n]];
      assert arcs == p + [arcs[n]];
      BranchTallyAppend(s, p, [arcs[n]]);
      TalliedTaken(s, p);
      BranchPositionsSnoc(s, arcs);
      BranchTallyOne(s, arcs[n]);
      CardSnoc(TakenBranchPositions(s, p), n, IsBranch(e) && Positive(e.weight.count));
    }
  }

  /** The fold over a single arc. */
  lemma BranchTallyOne(s: GraphState, a: nat)
    requires WellFormed(s) && a < |s.edges|
    ensures var e := s.edges[a];
      BranchTally(s, [a]) == (if IsBranch(e) then 1 else 0,
                              if IsBranch(e) && Positive(s.nodes[e.source].count) then 1 else 0,
                              if IsBranch(e) && Positive(e.weight.count) then 1 else 0)
  {
    assert [a][1..] == [];
  }

  /** The branch positions of `arcs` are those of all but its last arc, and the last one if it counts. */
  lemma BranchPositionsSnoc(s: GraphState, arcs: seq<nat>)
    requires WellFormed(s) && arcs != [] && forall k :: 0 <= k < |arcs| ==> arcs[k] < |s.edges|
    ensures var n, e := |arcs| - 1, s.edges[arcs[|arcs| - 1]];
      && BranchPositions(s, arcs) == BranchPositions(s, arcs[..n]) + (if IsBranch(e) then {n} else {})
      && ExecutedBranchPositions(s, arcs) == ExecutedBranchPositions(s, arcs[..n]) +
           (if IsBranch(e) && Positive(s.nodes[e.source].count) then {n} else {})
      && TakenBranchPositions(s, arcs) == TakenBranchPositions(s, arcs[..n]) +
           (if IsBranch(e) && Positive(e.weight.count) then {n} else {})
  {
    var n, e := |arcs| - 1, s.edges[arcs[|arcs| - 1]];
    var p := arcs[..n];
    forall k: nat
      ensures k in BranchPositions(s, arcs) <==> k in BranchPositions(s, p) + (if IsBranch(e) then {n} else {})
      ensures k in ExecutedBranchPositions(s, arcs) <==>
        k in ExecutedBranchPositions(s, p) + (if IsBranch(e) && Positive(s.nodes[e.source].count) then {n} else {})
      ensures k in TakenBranchPositions(s, arcs) <==>
        k in TakenBranchPositions(s, p) + (if IsBranch(e) && Positive(e.weight.count) then {n} else {})
    {
      if k < n {
        assert arcs[k] == p[k];
      }
    }
  }

  /** No element of `r` appears twice. */
  ghost predicate NoRepeats(r: seq<nat>)
  {
    forall i, j :: 0 <= i < j < |r| ==> r[i] != r[j]
  }

  /** Blocks listed once each give out-arcs listed once each. */
  lemma {:induction false} FunctionArcsDistinct(s: GraphState, ns: seq<nat>)
    requires NoRepeats(ns)
    ensures NoRepeats(FunctionArcs(s, ns))
  {
    if ns != [] {
      var rest := ns[1..];
      var o := OutEdges(s.edges, ns[0], |s.edges|);
      var q := FunctionArcs(s, rest);
      assert NoRepeats(rest) by {
        forall i, j | 0 <= i < j < |rest|
          ensures rest[i] != rest[j]
        {
          assert rest[i] == ns[i + 1] && rest[j] == ns[j + 1];
        }
      }
      FunctionArcsDistinct(s, rest);
      assert FunctionArcs(s, ns) == o + q;
      assert ns[0] !in rest by {
        forall m | 0 <= m < |rest|
          ensures rest[m] != ns[0]
        {
          assert rest[m] == ns[m + 1];
        }
      }
      forall x | x in o
        ensures x !in q
      {
        assert s.edges[x].source == ns[0];
      }
      assert NoRepeats(o) by {
        forall i, j | 0 <= i < j < |o|
          ensures o[i] != o[j]
        {
          assert o[i] > o[j];
        }
      }
      ConcatDistinct(o, q);
    }
  }

  /** Two sequences without repeats and without common elements join into one without repeats. */
  lemma ConcatDistinct(o: seq<nat>, q: seq<nat>)
    requires NoRepeats(o) && NoRepeats(q)
    requires forall x :: x in o ==> x !in q
    ensures NoRepeats(o + q)
  {
    forall i, j | 0 <= i < j < |o + q|
      ensures (o + q)[i] != (o + q)[j]
    {
      if i < |o| && j >= |o| {
        assert o[i] in o && q[j - |o|] in q;
      }
    }
  }

  /** The total count of the fake arcs among `arcs` (an unknown count adds nothing). */
  function FakeTotal(s: GraphState, arcs: seq<nat>): nat
    requires forall k :: 0 <= k < |arcs| ==> arcs[k] < |s.edges|
  {
    if arcs == [] then 0
    else
      var e := s.edges[arcs[0]];
      (if Has(e.weight.attr, ARC_ATTR_FAKE) then e.weight.count.UnwrapOr(0) else 0) + FakeTotal(s, arcs[1..])
  }

  /** The count of the exit block of `f`, 0 when unknown. */
  function ExitCount(s: GraphState, f: FunctionInfo): nat
    requires FunctionWellFormed(f, |s.nodes|, |s.edges|) && HasExit(f, s.version)
  {
    s.nodes[ExitBlock(f, s.version)].count.UnwrapOr(0)
  }

  /** What the fake arcs into the exit block of `f` carry. */
  function ExitFakeTotal(s: GraphState, f: FunctionInfo): nat
    requires FunctionWellFormed(f, |s.nodes|, |s.edges|) && HasExit(f, s.version)
  {
    FakeTotal(s, InEdges(s.edges, ExitBlock(f, s.version), |s.edges|))
  }

  /** The fake arcs into the exit block of `f` carry no more than the exit block's count. */
  predicate ExitCovered(s: GraphState, f: FunctionInfo)
    requires FunctionWellFormed(f, |s.nodes|, |s.edges|) && HasExit(f, s.version)
  {
    ExitFakeTotal(s, f) <= ExitCount(s, f)
  }

  /** 2^64: `u64` arithmetic is taken modulo this in a release build. */
  const U64_MODULUS: nat := 0x1_0000_0000_0000_0000

  /**
   * `a -= b` on `u64` in a release build: the difference when `b` does
   * not exceed `a`, and otherwise the difference wrapped below 2^64.
   */
  function WrappingSub(a: nat, b: nat): (r: nat)
    ensures b <= a ==> r + b == a
    ensures a < b ==> r < U64_MODULUS
    ensures a < b <= a + U64_MODULUS ==> r + b == a + U64_MODULUS
    ensures (r + b) % U64_MODULUS == a % U64_MODULUS
  {
    if b <= a then a - b else (a - b) % U64_MODULUS
  }

  /**
   * The function record `report_function` makes: the source's name and
   * line (the default source when unknown), its block totals, the entry
   * block's count, the exit block's count less what its fake in-arcs
   * carry (wrapping below zero, as `u64` does in a release build), and
   * the branch totals.
   */
  function FunctionReport(s: GraphState, f: FunctionInfo): (fr: R.Function)
    requires WellFormed(s) && FunctionWellFormed(f, |s.nodes|, |s.edges|) && HasExit(f, s.version)
    ensures fr.name == f.source.UnwrapOr(DEFAULT_SOURCE).name && fr.line == f.source.UnwrapOr(DEFAULT_SOURCE).line as nat && fr.column == 0
    ensures fr.summary.blocksCount == |f.nodes| && fr.summary.blocksExecuted <= fr.summary.blocksCount
    ensures fr.summary.entryCount == s.nodes[EntryBlock(f)].count.UnwrapOr(0)
    ensures ExitCovered(s, f) ==> fr.summary.exitCount + ExitFakeTotal(s, f) == ExitCount(s, f)
    ensures !ExitCovered(s, f) && ExitFakeTotal(s, f) <= ExitCount(s, f) + U64_MODULUS ==>
      fr.summary.exitCount + ExitFakeTotal(s, f) == ExitCount(s, f) + U64_MODULUS
    ensures fr.summary.branchesExecuted <= fr.summary.branchesCount
    ensures fr.summary.branchesTaken <= fr.summary.branchesCount
  {
    var source := f.source.UnwrapOr(DEFAULT_SOURCE);
    var entry := EntryBlock(f);
    var exit := ExitBlock(f, s.version);
    var tally := BranchTally(s, FunctionArcs(s, f.nodes));
    var exitCount := WrappingSub(ExitCount(s, f), ExitFakeTotal(s, f));
    R.Function(source.name, source.line as nat, 0,
      R.FunctionSummary(|f.nodes|, ExecutedCount(s, f.nodes), s.nodes[entry].count.UnwrapOr(0), exitCount,
                        tally.0, tally.1, tally.2))
  }

  /**
   * What the totals of a function record count: the positions of the
   * function's blocks whose count is positive, and among the out-arcs of
   * those blocks (`FunctionArcs`, each listed once when the blocks are) the
   * branches, the branches whose source block ran, and the branches taken.
   */
  lemma FunctionReportTallies(s: GraphState, f: FunctionInfo)
    requires WellFormed(s) && FunctionWellFormed(f, |s.nodes|, |s.edges|) && HasExit(f, s.version)
    ensures var fr, arcs := FunctionReport(s, f), FunctionArcs(s, f.nodes);
      && fr.summary.blocksExecuted == |ExecutedPositions(s, f.nodes)|
      && fr.summary.branchesCount == |BranchPositions(s, arcs)|
      && fr.summary.branchesExecuted == |ExecutedBranchPositions(s, arcs)|
      && fr.summary.branchesTaken == |TakenBranchPositions(s, arcs)|
  {
    ExecutedCountCounts(s, f.nodes);
    BranchTallyCounts(s, FunctionArcs(s, f.nodes));
  }

  //----------------------------------------------------------------------------
  // The report as a value

  /** The file `f` of a report, `or_default` when absent. */
  function FileOf(r: R.Report, f: Symbol): R.File
  {
    if f in r.files then r.files[f] else R.DEFAULT_FILE
  }

  /** Line `l` of file `f` in a report, if it is there. */
  function LineAt(r: R.Report, f: Symbol, l: nat): Option<R.Line>
  {
    if f in r.files && l in r.files[f].lines then Some(r.files[f].lines[l]) else None
  }

  /** The function records of file `f`. */
  function FunctionsAt(r: R.Report, f: Symbol): seq<R.Function>
  {
    FileOf(r, f).functions
  }

  /** `r.files.entry(f).or_default().functions.push(record)`. */
  function Push(r: R.Report, f: Symbol, record: R.Function): R.Report
  {
    var file := FileOf(r, f);
    R.Report(r.files[f := file.(functions := file.functions + [record])])
  }

  /** A line a block claims: the count raised to the block's, the block's attributes joined. */
  function Raised(line: R.Line, count: nat, attr: BlockAttr): R.Line
  {
    line.(count := Max(line.count, count), attr := line.attr | attr)
  }

  /** One pair of `report_block`: line `l` of file `f`, created if absent, is raised. */
  function ClaimLine(r: R.Report, f: Symbol, l: nat, count: nat, attr: BlockAttr): R.Report
  {
    var file := FileOf(r, f);
    var line := if l in file.lines then file.lines[l] else R.DEFAULT_LINE;
    R.Report(r.files[f := file.(lines := file.lines[l := Raised(line, count, attr)])])
  }

  /** `report_block`'s loop over the pairs `ps`. */
  function ClaimLines(r: R.Report, ps: seq<(Symbol, nat)>, count: nat, attr: BlockAttr): R.Report
  {
    if ps == [] then r
    else
      var p := ps[|ps| - 1];
      ClaimLine(ClaimLines(r, ps[..|ps| - 1], count, attr), p.0, p.1, count, attr)
  }

  /** Claiming one more pair of `ps` claims it on top of the ones before. */
  lemma ClaimLinesStep(r: R.Report, ps: seq<(Symbol, nat)>, i: nat, count: nat, attr: BlockAttr)
    requires i < |ps|
    ensures ClaimLines(r, ps[..i + 1], count, attr) == ClaimLine(ClaimLines(r, ps[..i], count, attr), ps[i].0, ps[i].1, count, attr)
  {
    assert ps[..i + 1][..i] == ps[..i];
  }

  /** The branches `bs` appended to line `l` of file `f`, which is there. */
  function AddBranches(r: R.Report, f: Symbol, l: nat, bs: seq<R.Branch>): R.Report
    requires LineAt(r, f, l).Some?
  {
    var file := r.files[f];
    var line := file.lines[l];
    R.Report(r.files[f := file.(lines := file.lines[l := line.(branches := line.branches + bs)])])
  }

  /** A push adds its record to its own file only, and touches no line. */
  lemma PushAt(r: R.Report, f: Symbol, record: R.Function, g: Symbol, m: nat)
    ensures FunctionsAt(Push(r, f, record), g) == FunctionsAt(r, g) + if f == g then [record] else []
    ensures LineAt(Push(r, f, record), g, m) == LineAt(r, g, m)
  {
  }

  /** One claim raises its own line and leaves every other line, and every function record, as it was. */
  lemma ClaimLineAt(r: R.Report, f: Symbol, l: nat, count: nat, attr: BlockAttr, g: Symbol, m: nat)
    ensures LineAt(ClaimLine(r, f, l, count, attr), g, m) ==
      if (g, m) == (f, l) then Some(Raised(LineAt(r, f, l).UnwrapOr(R.DEFAULT_LINE), count, attr)) else LineAt(r, g, m)
    ensures FunctionsAt(ClaimLine(r, f, l, count, attr), g) == FunctionsAt(r, g)
  {
  }

  /** Appending branches changes only their own line, and no function record. */
  lemma AddBranchesAt(r: R.Report, f: Symbol, l: nat, bs: seq<R.Branch>, g: Symbol, m: nat)
    requires LineAt(r, f, l).Some?
    ensures LineAt(AddBranches(r, f, l, bs), g, m) ==
      if (g, m) == (f, l) then Some(LineAt(r, f, l).value.(branches := LineAt(r, f, l).value.branches + bs)) else LineAt(r, g, m)
    ensures FunctionsAt(AddBranches(r, f, l, bs), g) == FunctionsAt(r, g)
  {
  }

  /** Raising a line twice by the same block is raising it once. */
  lemma RaisedTwice(line: R.Line, count: nat, attr: BlockAttr)
    ensures Raised(Raised(line, count, attr), count, attr) == Raised(line, count, attr)
  {
    assert (line.attr | attr) | attr == line.attr | attr;
  }

  /**
   * After `report_block`'s loop, each pair it went through holds its line
   * raised by the block, every other line is as it was, and no function
   * record changes.
   */
  lemma {:induction false} ClaimLinesAt(r: R.Report, ps: seq<(Symbol, nat)>, count: nat, attr: BlockAttr, g: Symbol, m: nat)
    ensures LineAt(ClaimLines(r, ps, count, attr), g, m) ==
      if (g, m) in ps then Some(Raised(LineAt(r, g, m).UnwrapOr(R.DEFAULT_LINE), count, attr)) else LineAt(r, g, m)
    ensures FunctionsAt(ClaimLines(r, ps, count, attr), g) == FunctionsAt(r, g)
  {
    if ps != [] {
      var init := ps[..|ps| - 1];
      var p := ps[|ps| - 1];
      ClaimLinesAt(r, init, count, attr, g, m);
      ClaimLineAt(ClaimLines(r, init, count, attr), p.0, p.1, count, attr, g, m);
      assert ps == init + [p];
      assert (g, m) in ps <==> (g, m) in init || (g, m) == p;
      if (g, m) in init {
        RaisedTwice(LineAt(r, g, m).UnwrapOr(R.DEFAULT_LINE), count, attr);
      }
    }
  }

  //----------------------------------------------------------------------------
  // Function records

  /** The file and record `report_function` pushes for `f`. */
  function FunctionEntry(s: GraphState, f: FunctionInfo): (Symbol, R.Function)
    requires WellFormed(s) && FunctionWellFormed(f, |s.nodes|, |s.edges|) && HasExit(f, s.version)
  {
    (f.source.UnwrapOr(DEFAULT_SOURCE).filename, FunctionReport(s, f))
  }

  /** The entries of the first `k` functions, in order. */
  function FunctionEntries(s: GraphState, k: nat): (es: seq<(Symbol, R.Function)>)
    requires WellFormed(s) && F.AllHaveExit(s) && k <= |s.functions|
    ensures |es| == k
  {
    if k == 0 then [] else FunctionEntries(s, k - 1) + [FunctionEntry(s, s.functions[k - 1])]
  }

  /** The first loop of `report`: the entries pushed in turn. */
  function PushAll(r: R.Report, es: seq<(Symbol, R.Function)>): R.Report
  {
    if es == [] then r else var e := es[|es| - 1]; Push(PushAll(r, es[..|es| - 1]), e.0, e.1)
  }

  /** The records among `es` that belong to file `g`, in order. */
  function RecordsFor(es: seq<(Symbol, R.Function)>, g: Symbol): seq<R.Function>
  {
    if es == [] then []
    else RecordsFor(es[..|es| - 1], g) + if es[|es| - 1].0 == g then [es[|es| - 1].1] else []
  }

  /** Pushing the entries appends to each file exactly its own records, in order, and touches no line. */
  lemma {:induction false} PushAllAt(r: R.Report, es: seq<(Symbol, R.Function)>, g: Symbol, m: nat)
    ensures FunctionsAt(PushAll(r, es), g) == FunctionsAt(r, g) + RecordsFor(es, g)
    ensures LineAt(PushAll(r, es), g, m) == LineAt(r, g, m)
  {
    if es != [] {
      var init := es[..|es| - 1];
      PushAllAt(r, init, g, m);
      PushAt(PushAll(r, init), es[|es| - 1].0, es[|es| - 1].1, g, m);
    }
  }

  //----------------------------------------------------------------------------
  // Block contributions

  /** What one block brings to the report: its pairs, its count and attributes, and its branches. */
  datatype Contribution = Contribution(pairs: seq<(Symbol, nat)>, count: nat, attr: BlockAttr, branches: seq<R.Branch>)

  /** `report`'s step for one block: its lines claimed, then its branches appended to the last of them. */
  function Contribute(r: R.Report, c: Contribution): R.Report
  {
    var r1 := ClaimLines(r, c.pairs, c.count, c.attr);
    if c.pairs == [] then r1
    else
      var p := c.pairs[|c.pairs| - 1];
      ClaimLinesAt(r, c.pairs, c.count, c.attr, p.0, p.1);
      AddBranches(r1, p.0, p.1, c.branches)
  }

  /** The contributions applied in turn. */
  function ContributeAll(r: R.Report, cs: seq<Contribution>): R.Report
  {
    if cs == [] then r else Contribute(ContributeAll(r, cs[..|cs| - 1]), cs[|cs| - 1])
  }

  /** The last pair of a contribution is line `m` of file `g`. */
  predicate EndsAt(c: Contribution, g: Symbol, m: nat)
  {
    c.pairs != [] && c.pairs[|c.pairs| - 1] == (g, m)
  }

  /** Some contribution claims line `m` of file `g`. */
  predicate ClaimedIn(cs: seq<Contribution>, g: Symbol, m: nat)
  {
    cs != [] && ((g, m) in cs[|cs| - 1].pairs || ClaimedIn(cs[..|cs| - 1], g, m))
  }

  /** The largest count among the contributions claiming the line; 0 when none does. */
  function MaxCountIn(cs: seq<Contribution>, g: Symbol, m: nat): nat
  {
    if cs == [] then 0
    else
      var c := MaxCountIn(cs[..|cs| - 1], g, m);
      if (g, m) in cs[|cs| - 1].pairs then Max(c, cs[|cs| - 1].count) else c
  }

  /** The union of the attributes of the contributions claiming the line. */
  function AttrIn(cs: seq<Contribution>, g: Symbol, m: nat): BlockAttr
  {
    if cs == [] then 0
    else
      var a := AttrIn(cs[..|cs| - 1], g, m);
      if (g, m) in cs[|cs| - 1].pairs then a | cs[|cs| - 1].attr else a
  }

  /** The branches of the contributions whose last line is the line, in turn. */
  function BranchesIn(cs: seq<Contribution>, g: Symbol, m: nat): seq<R.Branch>
  {
    if cs == [] then []
    else BranchesIn(cs[..|cs| - 1], g, m) + if EndsAt(cs[|cs| - 1], g, m) then cs[|cs| - 1].branches else []
  }

  /** The line as one contribution leaves it: raised, with its branches extended, when the contribution claims it. */
  function Claimed(line: Option<R.Line>, c: Contribution, g: Symbol, m: nat): Option<R.Line>
  {
    if (g, m) !in c.pairs then line
    else
      var raised := Raised(line.UnwrapOr(R.DEFAULT_LINE), c.count, c.attr);
      Some(raised.(branches := raised.branches + if EndsAt(c, g, m) then c.branches else []))
  }

  /** One contribution raises the lines it claims, extends the branches of its last, and touches nothing else. */
  lemma ContributeAt(r: R.Report, c: Contribution, g: Symbol, m: nat)
    ensures LineAt(Contribute(r, c), g, m) == Claimed(LineAt(r, g, m), c, g, m)
    ensures FunctionsAt(Contribute(r, c), g) == FunctionsAt(r, g)
  {
    var r1 := ClaimLines(r, c.pairs, c.count, c.attr);
    var raised := Raised(LineAt(r, g, m).UnwrapOr(R.DEFAULT_LINE), c.count, c.attr);
    ClaimLinesAt(r, c.pairs, c.count, c.attr, g, m);
    if c.pairs != [] {
      var p := c.pairs[|c.pairs| - 1];
      ClaimLinesAt(r, c.pairs, c.count, c.attr, p.0, p.1);
      AddBranchesAt(r1, p.0, p.1, c.branches, g, m);
      if (g, m) in c.pairs && (g, m) != p {
        assert raised.(branches := raised.branches + []) == raised;
      }
    } else {
      assert (g, m) !in c.pairs;
    }
  }

  /**
   * The contributions applied to a report without the line: the line is
   * there exactly when one claims it, with the largest count, the union
   * of the attributes and the branches of those ending on it; function
   * records do not change.
   */
  lemma {:induction false} ContributeAllAt(r: R.Report, cs: seq<Contribution>, g: Symbol, m: nat)
    requires LineAt(r, g, m).None?
    ensures LineAt(ContributeAll(r, cs), g, m).Some? <==> ClaimedIn(cs, g, m)
    ensures LineAt(ContributeAll(r, cs), g, m).UnwrapOr(R.DEFAULT_LINE) ==
      R.Line(MaxCountIn(cs, g, m), AttrIn(cs, g, m), BranchesIn(cs, g, m))
    ensures FunctionsAt(ContributeAll(r, cs), g) == FunctionsAt(r, g)
  {
    if cs != [] {
      var init, c := cs[..|cs| - 1], cs[|cs| - 1];
      var prev := ContributeAll(r, init);
      ContributeAllAt(r, init, g, m);
      ContributeAt(prev, c, g, m);
      PresentStep(LineAt(prev, g, m), cs, g, m);
      LineStep(LineAt(prev, g, m), cs, g, m);
    }
  }

  /** The step of `ContributeAllAt` for the line's presence. */
  lemma PresentStep(before: Option<R.Line>, cs: seq<Contribution>, g: Symbol, m: nat)
    requires cs != []
    requires before.Some? <==> ClaimedIn(cs[..|cs| - 1], g, m)
    ensures Claimed(before, cs[|cs| - 1], g, m).Some? <==> ClaimedIn(cs, g, m)
  {
  }

  /** The step of `ContributeAllAt` for the line's contents. */
  lemma LineStep(before: Option<R.Line>, cs: seq<Contribution>, g: Symbol, m: nat)
    requires cs != []
    requires before.UnwrapOr(R.DEFAULT_LINE) ==
      R.Line(MaxCountIn(cs[..|cs| - 1], g, m), AttrIn(cs[..|cs| - 1], g, m), BranchesIn(cs[..|cs| - 1], g, m))
    ensures Claimed(before, cs[|cs| - 1], g, m).UnwrapOr(R.DEFAULT_LINE) ==
      R.Line(MaxCountIn(cs, g, m), AttrIn(cs, g, m), BranchesIn(cs, g, m))
  {
    var after := Claimed(before, cs[|cs| - 1], g, m).UnwrapOr(R.DEFAULT_LINE);
    CountStep(before, cs, g, m);
    AttrStep(before, cs, g, m);
    BranchesStep(before, cs, g, m);
    assert after == R.Line(after.count, after.attr, after.branches);
  }

  /** `LineStep` for the line's count. */
  lemma CountStep(before: Option<R.Line>, cs: seq<Contribution>, g: Symbol, m: nat)
    requires cs != []
    requires before.UnwrapOr(R.DEFAULT_LINE).count == MaxCountIn(cs[..|cs| - 1], g, m)
    ensures Claimed(before, cs[|cs| - 1], g, m).UnwrapOr(R.DEFAULT_LINE).count == MaxCountIn(cs, g, m)
  {
  }

  /** `LineStep` for the line's attributes. */
  lemma AttrStep(before: Option<R.Line>, cs: seq<Contribution>, g: Symbol, m: nat)
    requires cs != []
    requires before.UnwrapOr(R.DEFAULT_LINE).attr == AttrIn(cs[..|cs| - 1], g, m)
    ensures Claimed(before, cs[|cs| - 1], g, m).UnwrapOr(R.DEFAULT_LINE).attr == AttrIn(cs, g, m)
  {
  }

  /** `LineStep` for the line's branches. */
  lemma BranchesStep(before: Option<R.Line>, cs: seq<Contribution>, g: Symbol, m: nat)
    requires cs != []
    requires before.UnwrapOr(R.DEFAULT_LINE).branches == BranchesIn(cs[..|cs| - 1], g, m)
    ensures Claimed(before, cs[|cs| - 1], g, m).UnwrapOr(R.DEFAULT_LINE).branches == BranchesIn(cs, g, m)
  {
    if (g, m) !in cs[|cs| - 1].pairs {
      assert !EndsAt(cs[|cs| - 1], g, m);
      assert BranchesIn(cs, g, m) == BranchesIn(cs[..|cs| - 1], g, m) + [];
    }
  }

  /** `MaxCountIn` is a maximum, not a sum: no claiming contribution has more, and one has as much. */
  lemma {:induction false} MaxCountIsMax(cs: seq<Contribution>, g: Symbol, m: nat)
    ensures forall i :: 0 <= i < |cs| && (g, m) in cs[i].pairs ==> cs[i].count <= MaxCountIn(cs, g, m)
    ensures ClaimedIn(cs, g, m) <==> exists i :: 0 <= i < |cs| && (g, m) in cs[i].pairs
    ensures ClaimedIn(cs, g, m) ==>
      exists i :: 0 <= i < |cs| && (g, m) in cs[i].pairs && cs[i].count == MaxCountIn(cs, g, m)
    ensures !ClaimedIn(cs, g, m) ==> MaxCountIn(cs, g, m) == 0
  {
    if cs != [] {
      var init := cs[..|cs| - 1];
      var last := |cs| - 1;
      MaxCountIsMax(init, g, m);
      forall i | 0 <= i < |init|
        ensures init[i] == cs[i]
      {
      }
      if ClaimedIn(cs, g, m) {
        if ClaimedIn(init, g, m) && MaxCountIn(cs, g, m) == MaxCountIn(init, g, m) {
          var i :| 0 <= i < |init| && (g, m) in init[i].pairs && init[i].count == MaxCountIn(init, g, m);
          assert cs[i] == init[i];
        } else {
          assert (g, m) in cs[last].pairs && cs[last].count == MaxCountIn(cs, g, m);
        }
      }
    }
  }

  //----------------------------------------------------------------------------
  // The report of a graph

  /** What block `n` contributes: its pairs, its count (0 when unknown), its attributes, its branches. */
  function BlockContribution(s: GraphState, n: nat): Contribution
    requires WellFormed(s) && F.AllHaveExit(s) && n < |s.nodes|
  {
    var b := s.nodes[n];
    Contribution(Pairs(b), b.count.UnwrapOr(0), b.attr, BlockBranches(s, n))
  }

  /** The contributions of the first `hi` blocks. */
  function Contributions(s: GraphState, hi: nat): (cs: seq<Contribution>)
    requires WellFormed(s) && F.AllHaveExit(s) && hi <= |s.nodes|
    ensures |cs| == hi
    ensures forall n :: 0 <= n < hi ==> cs[n] == BlockContribution(s, n)
  {
    if hi == 0 then [] else Contributions(s, hi - 1) + [BlockContribution(s, hi - 1)]
  }

  /** `Graph::report`: the function entries pushed, then the blocks' contributions applied, from the empty report. */
  function ReportOf(s: GraphState): R.Report
    requires WellFormed(s) && F.AllHaveExit(s)
  {
    ContributeAll(PushAll(R.Report(map[]), FunctionEntries(s, |s.functions|)), Contributions(s, |s.nodes|))
  }

  /** One more function's entry is pushed after the ones before it. */
  lemma PushNext(s: GraphState, r: R.Report, k: nat)
    requires WellFormed(s) && F.AllHaveExit(s) && k < |s.functions|
    ensures FunctionWellFormed(s.functions[k], |s.nodes|, |s.edges|)
    ensures var e := FunctionEntry(s, s.functions[k]);
      PushAll(r, FunctionEntries(s, k + 1)) == Push(PushAll(r, FunctionEntries(s, k)), e.0, e.1)
  {
    assert FunctionEntries(s, k + 1)[..k] == FunctionEntries(s, k);
  }

  /**
   * One step of the second loop of `report`: `prev` with block `n`'s lines
   * claimed is the report with its contribution applied when it claims
   * none; otherwise its last line is there and its branches appended to
   * that line give the contribution applied.
   */
  lemma ContributeStep(s: GraphState, r0: R.Report, n: nat, prev: R.Report, r: R.Report)
    requires WellFormed(s) && F.AllHaveExit(s) && n < |s.nodes|
    requires prev == ContributeAll(r0, Contributions(s, n))
    requires r == ClaimLines(prev, Pairs(s.nodes[n]), s.nodes[n].count.UnwrapOr(0), s.nodes[n].attr)
    ensures LastLine(s.nodes[n]).None? ==> r == ContributeAll(r0, Contributions(s, n + 1))
    ensures LastLine(s.nodes[n]).Some? ==>
      var (g, m) := LastLine(s.nodes[n]).value;
      LineAt(r, g, m).Some? && AddBranches(r, g, m, BlockBranches(s, n)) == ContributeAll(r0, Contributions(s, n + 1))
  {
    var c := BlockContribution(s, n);
    assert Contributions(s, n + 1)[..n] == Contributions(s, n);
    if c.pairs != [] {
      var p := c.pairs[|c.pairs| - 1];
      ClaimLinesAt(prev, c.pairs, c.count, c.attr, p.0, p.1);
    }
  }

  /** The report of a graph is what its function entries and block contributions make of the empty report. */
  lemma ReportIs(s: GraphState, g: Symbol, m: nat)
    requires WellFormed(s) && F.AllHaveExit(s)
    ensures LineAt(ReportOf(s), g, m).Some? <==> ClaimedIn(Contributions(s, |s.nodes|), g, m)
    ensures LineAt(ReportOf(s), g, m).UnwrapOr(R.DEFAULT_LINE) ==
      var cs := Contributions(s, |s.nodes|);
      R.Line(MaxCountIn(cs, g, m), AttrIn(cs, g, m), BranchesIn(cs, g, m))
    ensures FunctionsAt(ReportOf(s), g) == RecordsFor(FunctionEntries(s, |s.functions|), g)
  {
    var es := FunctionEntries(s, |s.functions|);
    PushAllAt(R.Report(map[]), es, g, m);
    ContributeAllAt(PushAll(R.Report(map[]), es), Contributions(s, |s.nodes|), g, m);
  }

  /** The contributions `cs` carry the pairs and counts of the blocks `nodes`. */
  predicate CarriesBlocks(cs: seq<Contribution>, nodes: seq<BlockInfo>)
  {
    |cs| == |nodes| &&
    forall n :: 0 <= n < |cs| ==> cs[n].pairs == Pairs(nodes[n]) && cs[n].count == nodes[n].count.UnwrapOr(0)
  }

  lemma ContributionsCarry(s: GraphState)
    requires WellFormed(s) && F.AllHaveExit(s)
    ensures CarriesBlocks(Contributions(s, |s.nodes|), s.nodes)
  {
  }

  /** `ClaimedIn` and `MaxCountIn` said of the blocks. */
  lemma ClaimsOfBlocks(cs: seq<Contribution>, nodes: seq<BlockInfo>, g: Symbol, m: nat)
    requires CarriesBlocks(cs, nodes)
    ensures ClaimedIn(cs, g, m) <==> exists n :: 0 <= n < |nodes| && (g, m) in Pairs(nodes[n])
    ensures forall n :: 0 <= n < |nodes| && (g, m) in Pairs(nodes[n]) ==> nodes[n].count.UnwrapOr(0) <= MaxCountIn(cs, g, m)
    ensures ClaimedIn(cs, g, m) ==>
      exists n :: 0 <= n < |nodes| && (g, m) in Pairs(nodes[n]) && nodes[n].count.UnwrapOr(0) == MaxCountIn(cs, g, m)
  {
    MaxCountIsMax(cs, g, m);
    forall n | 0 <= n < |nodes| && (g, m) in Pairs(nodes[n])
      ensures nodes[n].count.UnwrapOr(0) <= MaxCountIn(cs, g, m)
    {
      assert cs[n].pairs == Pairs(nodes[n]) && cs[n].count == nodes[n].count.UnwrapOr(0);
    }
    if ClaimedIn(cs, g, m) {
      var i :| 0 <= i < |cs| && (g, m) in cs[i].pairs && cs[i].count == MaxCountIn(cs, g, m);
      assert cs[i].pairs == Pairs(nodes[i]) && cs[i].count == nodes[i].count.UnwrapOr(0);
    }
    if exists n :: 0 <= n < |nodes| && (g, m) in Pairs(nodes[n]) {
      var n :| 0 <= n < |nodes| && (g, m) in Pairs(nodes[n]);
      assert cs[n].pairs == Pairs(nodes[n]);
    }
  }

  /** The lines of `Graph::report`: line `m` of file `g` is there exactly when some block claims it. */
  lemma ReportLinesClaimed(s: GraphState, g: Symbol, m: nat)
    requires WellFormed(s) && F.AllHaveExit(s)
    ensures LineAt(ReportOf(s), g, m).Some? <==> exists n :: 0 <= n < |s.nodes| && (g, m) in Pairs(s.nodes[n])
  {
    ReportIs(s, g, m);
    ContributionsCarry(s);
    ClaimsOfBlocks(Contributions(s, |s.nodes|), s.nodes, g, m);
  }

  /**
   * The count of a line of `Graph::report` is the largest count (not the
   * sum) of the blocks claiming it: none has more, and one has as much.
   */
  lemma ReportLineCount(s: GraphState, g: Symbol, m: nat, line: R.Line)
    requires WellFormed(s) && F.AllHaveExit(s)
    requires LineAt(ReportOf(s), g, m) == Some(line)
    ensures forall n :: 0 <= n < |s.nodes| && (g, m) in Pairs(s.nodes[n]) ==> s.nodes[n].count.UnwrapOr(0) <= line.count
    ensures exists n :: 0 <= n < |s.nodes| && (g, m) in Pairs(s.nodes[n]) && s.nodes[n].count.UnwrapOr(0) == line.count
  {
    ReportIs(s, g, m);
    ContributionsCarry(s);
    LineCountOfClaims(Contributions(s, |s.nodes|), s.nodes, g, m, line);
  }

  /** A line whose count is the largest claimed one: no claiming block has more, and one has as much. */
  lemma LineCountOfClaims(cs: seq<Contribution>, nodes: seq<BlockInfo>, g: Symbol, m: nat, line: R.Line)
    requires CarriesBlocks(cs, nodes)
    requires ClaimedIn(cs, g, m) && line.count == MaxCountIn(cs, g, m)
    ensures forall n :: 0 <= n < |nodes| && (g, m) in Pairs(nodes[n]) ==> nodes[n].count.UnwrapOr(0) <= line.count
    ensures exists n :: 0 <= n < |nodes| && (g, m) in Pairs(nodes[n]) && nodes[n].count.UnwrapOr(0) == line.count
  {
    ClaimsOfBlocks(cs, nodes, g, m);
  }

  //----------------------------------------------------------------------------
  // `report_block`

  /**
   * `Graph::report_block`: every pair the block's lines yield is claimed
   * in turn; the last pair is returned.
   */
  method ReportBlock(b: BlockInfo, r0: R.Report) returns (r: R.Report, last: Option<(Symbol, nat)>)
    ensures r == ClaimLines(r0, Pairs(b), b.count.UnwrapOr(0), b.attr)
    ensures last == LastLine(b)
  {
    var blockCount := b.count.UnwrapOr(0);
    var pairs := Pairs(b);
    r, last := r0, None;
    for i := 0 to |pairs|
      invariant r == ClaimLines(r0, pairs[..i], blockCount, b.attr)
      invariant last == if i == 0 then None else Some(pairs[i - 1])
    {
      var (filename, lineNumber) := pairs[i];
      ClaimLinesStep(r0, pairs, i, blockCount, b.attr);
      r := ClaimLine(r, filename, lineNumber, blockCount, b.attr);
      last := Some((filename, lineNumber));
    }
    assert pairs[..|pairs|] == pairs;
  }

  //----------------------------------------------------------------------------
  // The loops of `report`

  /** The first loop of `Graph::report`: `report_function` for every function in turn. */
  method ReportFunctions(s: GraphState) returns (r: R.Report)
    requires WellFormed(s) && F.AllHaveExit(s)
    ensures r == PushAll(R.Report(map[]), FunctionEntries(s, |s.functions|))
  {
    r := R.Report(map[]);
    for k := 0 to |s.functions|
      invariant r == PushAll(R.Report(map[]), FunctionEntries(s, k))
    {
      PushNext(s, R.Report(map[]), k);
      var (file, record) := FunctionEntry(s, s.functions[k]);
      r := Push(r, file, record);
    }
  }

  /**
   * The second loop of `Graph::report`: `report_block` for every block in
   * turn, then the branches of its out-arcs appended to the last line it
   * claimed, when it claimed one.
   */
  method ReportBlocks(s: GraphState, r0: R.Report) returns (r: R.Report)
    requires WellFormed(s) && F.AllHaveExit(s)
    ensures r == ContributeAll(r0, Contributions(s, |s.nodes|))
  {
    r := r0;
    for n := 0 to |s.nodes|
      invariant r == ContributeAll(r0, Contributions(s, n))
    {
      ghost var prev := r;
      var last;
      r, last := ReportBlock(s.nodes[n], r);
      ContributeStep(s, r0, n, prev, r);
      if last.Some? {
        var (file, line) := last.value;
        var branches := ReportBranches(s, n);
        r := AddBranches(r, file, line, branches);
      }
    }
  }

  /**
   * The inner loop of `Graph::report` for block `src`: the branches of its
   * out-arcs, newest first, leaving out zero arcs into the exit block of
   * its function.
   */
  method ReportBranches(s: GraphState, src: nat) returns (branches: seq<R.Branch>)
    requires WellFormed(s) && F.AllHaveExit(s) && src < |s.nodes|
    ensures branches == BlockBranches(s, src)
  {
    var exitBlock := ExitBlock(s.functions[s.nodes[src].index], s.version);
    var out := OutEdges(s.edges, src, |s.edges|);
    OutArcsInRange(s, src);
    branches := ArcsToBranches(s.nodes, s.edges, out, exitBlock);
  }

  /** The loop over the out-arcs `out`: each arc's branch, unless it is a zero arc into `exit` or unconditional. */
  method ArcsToBranches(nodes: seq<BlockInfo>, edges: seq<Edge>, out: seq<nat>, exit: nat) returns (branches: seq<R.Branch>)
    requires ArcsInRange(nodes, edges, out)
    ensures branches == ArcBranches(nodes, edges, out, exit)
  {
    branches := [];
    for k := 0 to |out|
      invariant branches == ArcBranches(nodes, edges, out[..k], exit)
    {
      assert out[..k + 1][..k] == out[..k];
      var arc := edges[out[k]];
      if arc.target == exit && arc.weight.count == Some(0) {
        continue;
      }
      var branch := ReportArc(nodes, arc);
      if branch.Some? {
        branches := branches + [branch.value];
      }
    }
    assert out[..|out|] == out;
  }
}

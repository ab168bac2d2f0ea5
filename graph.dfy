/**
 * `Graph` of cov/src/graph.rs: the combined control-flow graph and the
 * methods that merge GCNO and GCDA files into it. Every method is proved
 * against the GraphBuild function that says what it computes; what those
 * functions mean is proved about them in GraphBuild.
 */
module CovGraph {
  import opened Options
  import opened CovErrors
  import opened Raw
  import opened GraphModel
  import B = GraphBuild
  import F = GraphFlow
  import M = GraphMarks
  import A = GraphAnalyze
  import GR = GraphReport
  import R = Report
  import Intern

  /** The last file name and line number of a line list, found by scanning it backwards (part of `add_lines`). */
  method LastLine(lines: seq<Line>) returns (r: seq<Line>)
    ensures r == [FileName(B.LastFileName(lines)), LineNumber(B.LastLineNumber(lines))]
  {
    r := [FileName(Intern.UNKNOWN_SYMBOL), LineNumber(0)];
    var hasLineNumber := false;
    var hasFilename := false;
    var i := |lines|;
    while i > 0
      invariant 0 <= i <= |lines| && |r| == 2
      invariant hasFilename <==> B.LastOfKind(lines, true).Some? && B.LastOfKind(lines, true).value >= i
      invariant hasLineNumber <==> B.LastOfKind(lines, false).Some? && B.LastOfKind(lines, false).value >= i
      invariant r[0] == if hasFilename then FileName(B.LastFileName(lines)) else FileName(Intern.UNKNOWN_SYMBOL)
      invariant r[1] == if hasLineNumber then LineNumber(B.LastLineNumber(lines)) else LineNumber(0)
    {
      i := i - 1;
      match lines[i] {
        case FileName(_) =>
          if !hasFilename {
            hasFilename := true;
            r := r[0 := lines[i]];
          }
        case LineNumber(_) =>
          if !hasLineNumber {
            hasLineNumber := true;
            r := r[1 := lines[i]];
          }
      }
      if hasLineNumber && hasFilename {
        break;
      }
    }
  }

  /** The `block_number_to_lines` map of `add_function`: a later lines record for a block replaces an earlier one. */
  method BlockNumberToLines(lines: seq<Lines>) returns (m: map<nat, seq<Line>>)
    ensures m == B.LinesMap(lines)
  {
    m := map[];
    for k := 0 to |lines|
      invariant m == B.LinesMap(lines[..k])
    {
      assert lines[..k + 1][..k] == lines[..k];
      m := m[lines[k].blockNumber := lines[k].lines];
    }
    assert lines[..|lines|] == lines;
  }

  /** The loop of `add_arc_counts`: the k-th count goes to the weight of the k-th listed arc. */
  method AddCountsToArcs(edges0: seq<Edge>, arcs: seq<nat>, counts: seq<bv64>) returns (edges: seq<Edge>)
    requires |arcs| == |counts| && forall k :: 0 <= k < |arcs| ==> arcs[k] < |edges0|
    ensures edges == B.AddCounts(edges0, arcs, counts)
  {
    edges := edges0;
    for k := 0 to |arcs|
      invariant edges == B.AddCounts(edges0, arcs[..k], counts[..k])
    {
      assert arcs[..k + 1][..k] == arcs[..k];
      assert counts[..k + 1][..k] == counts[..k];
      var ei := arcs[k];
      var count := edges[ei].weight.count;
      match count {
        case None =>
          count := Some(counts[k] as nat);
        case Some(c) =>
          count := Some(c + counts[k] as nat);
      }
      edges := edges[ei := edges[ei].(weight := edges[ei].weight.(count := count))];
    }
    assert arcs[..|arcs|] == arcs;
    assert counts[..|counts|] == counts;
  }

  /** The loop of `add_blocks`: one blank block per flag word after `nodes0`, and the positions they get. */
  method AppendBlankBlocks(nodes0: seq<BlockInfo>, index: nat, flags: seq<BlockAttr>) returns (nodes: seq<BlockInfo>, positions: seq<nat>)
    ensures nodes == nodes0 + B.BlankBlocks(flags, index)
    ensures positions == B.Positions(|nodes0|, |flags|)
  {
    nodes, positions := nodes0, [];
    for k := 0 to |flags|
      invariant nodes == nodes0 + B.BlankBlocks(flags[..k], index)
      invariant positions == B.Positions(|nodes0|, k)
    {
      assert flags[..k + 1][..k] == flags[..k];
      positions := positions + [|nodes|];
      nodes := nodes + [BlockInfo(index, k, None, flags[k], [])];
    }
    assert flags[..|flags|] == flags;
  }

  /**
   * The loop of `add_arcs` after `edges0`: one edge per entry of the record;
   * the instrumented ones are listed in `f.arcs`.
   */
  method AppendArcEdges(edges0: seq<Edge>, info: FunctionInfo, index: nat, arcs: Arcs, ghost base: nat)
    returns (edges: seq<Edge>, f: FunctionInfo)
    requires B.ArcsFit(arcs, |info.nodes|)
    requires forall j :: 0 <= j < |info.nodes| ==> info.nodes[j] == base + j
    ensures edges == edges0 + B.ArcEdges(arcs, index, base)
    ensures f == info.(arcs := info.arcs + B.RealArcs(B.ArcEdges(arcs, index, base), |edges0|))
  {
    var src := info.nodes[arcs.srcBlock];
    edges, f := edges0, info;
    ghost var done: seq<Edge> := [];
    for j := 0 to |arcs.arcs|
      invariant done == B.ArcEdgesUpTo(arcs, index, base, j)
      invariant edges == edges0 + done
      invariant f.nodes == info.nodes && f.source == info.source
      invariant f.arcs == info.arcs + B.RealArcs(done, |edges0|)
    {
      var arc := arcs.arcs[j];
      var dest := info.nodes[arc.destBlock];
      var isReal := !Has(arc.flags, ARC_ATTR_ON_TREE);
      var e := Edge(src, dest, ArcInfo(index, j, if isReal then Some(0) else None, arc.flags));
      assert e == B.ArcEdge(arcs, index, base, j);
      EdgeAppended(edges0, edges, done, e);
      edges := edges + [e];
      if isReal {
        f := f.(arcs := f.arcs + [|edges| - 1]);
      }
      done := done + [e];
    }
  }

  /** One more edge after a list that extends `edges0` by `done`; it is listed when it is instrumented. */
  lemma EdgeAppended(edges0: seq<Edge>, edges: seq<Edge>, done: seq<Edge>, e: Edge)
    requires edges == edges0 + done
    ensures edges + [e] == edges0 + (done + [e])
    ensures B.RealArcs(done + [e], |edges0|) == B.RealArcs(done, |edges0|) + (if B.IsReal(e.weight.attr) then [|edges|] else [])
  {
    assert (edges0 + done) + [e] == edges0 + (done + [e]);
    B.RealArcsSnoc(done, e, |edges0|);
  }

  /** The loop of `add_function` over its `Arcs` records: `add_arcs` for each in turn. */
  method AppendArcRecordEdges(edges0: seq<Edge>, info: FunctionInfo, index: nat, arcs: seq<Arcs>, ghost base: nat, ghost blockCount: nat)
    returns (edges: seq<Edge>, f: FunctionInfo)
    requires forall i :: 0 <= i < |arcs| ==> B.ArcsFit(arcs[i], blockCount)
    requires info.nodes == B.Positions(base, blockCount) && info.arcs == []
    ensures edges == edges0 + B.ArcsEdges(arcs, index, base, blockCount)
    ensures f == info.(arcs := B.RealArcs(B.ArcsEdges(arcs, index, base, blockCount), |edges0|))
  {
    edges, f := edges0, info;
    ghost var done: seq<Edge> := [];
    for k := 0 to |arcs|
      invariant done == B.ArcsEdges(arcs[..k], index, base, blockCount)
      invariant edges == edges0 + done
      invariant f.nodes == info.nodes && f.source == info.source
      invariant f.arcs == B.RealArcs(done, |edges0|)
    {
      ghost var more := B.ArcEdges(arcs[k], index, base);
      B.ArcsEdgesStep(arcs, index, base, blockCount, k);
      ArcRecordAppended(edges0, edges, f.arcs, done, more, done + more);
      edges, f := AppendArcEdges(edges, f, index, arcs[k], base);
      done := done + more;
    }
    assert arcs[..|arcs|] == arcs;
  }

  /**
   * Appending the edges `more` of one more `Arcs` record to a list that
   * extends `edges0` by `done` extends it by `done + more`, and lists the
   * instrumented arcs of both parts.
   */
  lemma ArcRecordAppended(edges0: seq<Edge>, edges: seq<Edge>, fArcs: seq<nat>, done: seq<Edge>, more: seq<Edge>, all: seq<Edge>)
    requires all == done + more && edges == edges0 + done && fArcs == B.RealArcs(done, |edges0|)
    ensures edges + more == edges0 + all
    ensures fArcs + B.RealArcs(more, |edges|) == B.RealArcs(all, |edges0|)
  {
    assert (edges0 + done) + more == edges0 + (done + more);
    B.RealArcsAppend(done, more, |edges0|);
  }

  /** `add_lines` over the positions of the blank blocks appended after `nodes0` gives each of them its lines. */
  lemma AddedBlocksGetLines(nodes0: seq<BlockInfo>, flags: seq<BlockAttr>, index: nat, m: map<nat, seq<Line>>)
    ensures GiveLines(nodes0 + B.BlankBlocks(flags, index), B.Positions(|nodes0|, |flags|), m) ==
      nodes0 + B.WithLines(B.BlankBlocks(flags, index), m)
  {
    var blank := B.BlankBlocks(flags, index);
    GiveLinesAppended(nodes0, blank, m, |blank|);
    assert blank[..|blank|] == blank && blank[|blank|..] == [];
  }

  /**
   * Giving lines at the first `j` positions after `nodes0` gives the first
   * `j` appended blocks their lines and leaves the rest blank.
   */
  lemma {:induction false} GiveLinesAppended(nodes0: seq<BlockInfo>, blank: seq<BlockInfo>, m: map<nat, seq<Line>>, j: nat)
    requires j <= |blank|
    ensures GiveLines(nodes0 + blank, B.Positions(|nodes0|, j), m) == (nodes0 + B.WithLines(blank[..j], m)) + blank[j..]
  {
    if j == 0 {
      assert blank[..0] == [] && blank[0..] == blank;
    } else {
      var ps := B.Positions(|nodes0|, j);
      assert ps[..j - 1] == B.Positions(|nodes0|, j - 1);
      GiveLinesAppended(nodes0, blank, m, j - 1);
      var w := B.WithLines(blank[..j - 1], m);
      var x := blank[j - 1];
      var y := x.(lines := B.BlockLines(m, x.block));
      SliceAround(blank, j);
      WithLinesStep(blank[..j], m);
      var g := GiveLines(nodes0 + blank, ps[..j - 1], m);
      assert g == (nodes0 + w) + ([x] + blank[j..]);
      assert ps[j - 1] == |nodes0 + w|;
      StepJoined(nodes0, w, x, blank[j..], y, g);
    }
  }

  /** The slices of `s` around its element `j - 1`. */
  lemma SliceAround(s: seq<BlockInfo>, j: nat)
    requires 0 < j <= |s|
    ensures s[j - 1..] == [s[j - 1]] + s[j..] && s[..j][..j - 1] == s[..j - 1] && s[..j][j - 1] == s[j - 1]
  {
  }

  /** `WithLines` of a non-empty list: that of its prefix, then its last block given lines. */
  lemma WithLinesStep(bs: seq<BlockInfo>, m: map<nat, seq<Line>>)
    requires bs != []
    ensures B.WithLines(bs, m) ==
      B.WithLines(bs[..|bs| - 1], m) + [bs[|bs| - 1].(lines := B.BlockLines(m, bs[|bs| - 1].block))]
  {
  }

  /** Replacing `x` by `y` in `(nodes0 + w) + ([x] + rest)` moves `y` to the end of `w`. */
  lemma StepJoined(nodes0: seq<BlockInfo>, w: seq<BlockInfo>, x: BlockInfo, rest: seq<BlockInfo>, y: BlockInfo, g: seq<BlockInfo>)
    requires g == (nodes0 + w) + ([x] + rest)
    ensures |nodes0 + w| < |g| && g[|nodes0 + w|] == x
    ensures g[|nodes0 + w| := y] == (nodes0 + (w + [y])) + rest
  {
    UpdateJoined(nodes0 + w, x, rest, y);
    assert (nodes0 + w) + [y] == nodes0 + (w + [y]);
  }

  /** Replacing the element just after `a` in `a + [x] + b`. */
  lemma UpdateJoined(a: seq<BlockInfo>, x: BlockInfo, b: seq<BlockInfo>, y: BlockInfo)
    ensures (a + ([x] + b))[|a| := y] == (a + [y]) + b
  {
    var l := (a + ([x] + b))[|a| := y];
    var r := (a + [y]) + b;
    assert |l| == |r|;
    forall i | 0 <= i < |l|
      ensures l[i] == r[i]
    {
      if i > |a| {
        assert l[i] == b[i - |a| - 1];
      }
    }
  }

  /**
   * Giving lines at the positions in `ps` leaves the blocks at those
   * positions, and only those, with their lines.
   */
  lemma {:induction false} GiveLinesGiven(nodes0: seq<BlockInfo>, ps: seq<nat>, m: map<nat, seq<Line>>)
    requires forall j :: 0 <= j < |ps| ==> ps[j] < |nodes0|
    ensures LinesGiven(nodes0, GiveLines(nodes0, ps, m), ps, m)
  {
    if ps != [] {
      var q := ps[..|ps| - 1];
      GiveLinesGiven(nodes0, q, m);
      LinesStep(nodes0, GiveLines(nodes0, q, m), q, ps[|ps| - 1], m);
      assert q + [ps[|ps| - 1]] == ps;
    }
  }

  /** Every side of every block holds the known total and the number of arcs without a count, over the arcs below `hi`. */
  ghost predicate Tallied(bs: seq<F.BlockStatus>, edges: seq<Edge>, hi: nat)
    requires hi <= |edges|
  {
    forall n, d :: 0 <= n < |bs| ==>
      F.TotalCount(bs[n], d) == F.KnownTotal(edges, n, d, hi) && F.InvalidArcs(bs[n], d) == F.Unknown(edges, n, d, hi)
  }

  /** One arc counted at both its ends: its count added to the totals, or one more invalid arc on each side. */
  function CountArc(bs: seq<F.BlockStatus>, e: Edge): (r: seq<F.BlockStatus>)
    requires e.source < |bs| && e.target < |bs|
    ensures |r| == |bs|
  {
    match e.weight.count
    case Some(count) =>
      var b1 := bs[e.source := bs[e.source].(outgoingTotalCount := bs[e.source].outgoingTotalCount + count)];
      b1[e.target := b1[e.target].(incomingTotalCount := b1[e.target].incomingTotalCount + count)]
    case None =>
      var b1 := bs[e.source := bs[e.source].(outgoingInvalidArcs := bs[e.source].outgoingInvalidArcs + 1)];
      b1[e.target := b1[e.target].(incomingInvalidArcs := b1[e.target].incomingInvalidArcs + 1)]
  }

  /** Counting arc `k` extends the tally from the arcs below `k` to those below `k + 1`. */
  lemma CountArcTallied(bs: seq<F.BlockStatus>, edges: seq<Edge>, k: nat)
    requires k < |edges| && edges[k].source < |bs| && edges[k].target < |bs| && Tallied(bs, edges, k)
    ensures Tallied(CountArc(bs, edges[k]), edges, k + 1)
  {
    var r := CountArc(bs, edges[k]);
    forall n, d | 0 <= n < |r|
      ensures F.TotalCount(r[n], d) == F.KnownTotal(edges, n, d, k + 1)
      ensures F.InvalidArcs(r[n], d) == F.Unknown(edges, n, d, k + 1)
    {
      assert F.TotalCount(bs[n], d) == F.KnownTotal(edges, n, d, k);
      assert F.InvalidArcs(bs[n], d) == F.Unknown(edges, n, d, k);
    }
  }

  /** The first loop of `create_block_status`: every arc counted at both its ends. */
  method TallyArcs(edges: seq<Edge>, nodeCount: nat) returns (bs: seq<F.BlockStatus>)
    requires forall e :: 0 <= e < |edges| ==> edges[e].source < nodeCount && edges[e].target < nodeCount
    ensures |bs| == nodeCount && Tallied(bs, edges, |edges|)
  {
    bs := seq(nodeCount, _ => F.BlockStatus(0, 0, 0, 0));
    for k := 0 to |edges|
      invariant |bs| == nodeCount && Tallied(bs, edges, k)
    {
      ghost var bs0 := bs;
      var src := edges[k].source;
      var dest := edges[k].target;
      match edges[k].weight.count {
        case Some(count) =>
          bs := bs[src := bs[src].(outgoingTotalCount := bs[src].outgoingTotalCount + count)];
          bs := bs[dest := bs[dest].(incomingTotalCount := bs[dest].incomingTotalCount + count)];
        case None =>
          bs := bs[src := bs[src].(outgoingInvalidArcs := bs[src].outgoingInvalidArcs + 1)];
          bs := bs[dest := bs[dest].(incomingInvalidArcs := bs[dest].incomingInvalidArcs + 1)];
      }
      assert bs == CountArc(bs0, edges[k]);
      CountArcTallied(bs0, edges, k);
    }
  }

  /**
   * `bs` is `base` with `usize::MAX` invalid arcs on the incoming side of the
   * blocks in `entries` and the outgoing side of those in `exits`.
   */
  ghost predicate Marked(bs: seq<F.BlockStatus>, base: seq<F.BlockStatus>, entries: set<nat>, exits: set<nat>)
  {
    |bs| == |base| &&
    forall n, d :: 0 <= n < |bs| ==>
      F.TotalCount(bs[n], d) == F.TotalCount(base[n], d) &&
      F.InvalidArcs(bs[n], d) == if F.Sentinel(entries, exits, n, d) then F.USIZE_MAX else F.InvalidArcs(base[n], d)
  }

  /** Marking one more entry and exit block. */
  lemma MarkStep(bs: seq<F.BlockStatus>, base: seq<F.BlockStatus>, entries: set<nat>, exits: set<nat>, entry: nat, exit: nat)
    requires Marked(bs, base, entries, exits) && entry < |bs| && exit < |bs|
    ensures var b1 := bs[entry := bs[entry].(incomingInvalidArcs := F.USIZE_MAX)];
      Marked(b1[exit := b1[exit].(outgoingInvalidArcs := F.USIZE_MAX)], base, entries + {entry}, exits + {exit})
  {
    var b1 := bs[entry := bs[entry].(incomingInvalidArcs := F.USIZE_MAX)];
    var b2 := b1[exit := b1[exit].(outgoingInvalidArcs := F.USIZE_MAX)];
    forall n, d | 0 <= n < |b2|
      ensures F.TotalCount(b2[n], d) == F.TotalCount(base[n], d)
      ensures F.InvalidArcs(b2[n], d) ==
        if F.Sentinel(entries + {entry}, exits + {exit}, n, d) then F.USIZE_MAX else F.InvalidArcs(base[n], d)
    {
      assert F.TotalCount(bs[n], d) == F.TotalCount(base[n], d);
      if !((n == entry && d == F.Incoming) || (n == exit && d == F.Outgoing)) {
        assert F.InvalidArcs(b2[n], d) == F.InvalidArcs(bs[n], d);
      }
    }
  }

  /** The second loop of `create_block_status`: the entry and exit blocks of every function are never solved. */
  method MarkSentinels(base: seq<F.BlockStatus>, fs: seq<FunctionInfo>, version: Version) returns (bs: seq<F.BlockStatus>)
    requires forall k :: 0 <= k < |fs| ==> HasExit(fs[k], version) && |fs[k].nodes| > 0
    requires forall k :: 0 <= k < |fs| ==> EntryBlock(fs[k]) < |base| && ExitBlock(fs[k], version) < |base|
    ensures Marked(bs, base, F.EntrySet(fs), F.ExitSet(fs, version))
  {
    bs := base;
    for k := 0 to |fs|
      invariant Marked(bs, base, F.EntrySet(fs[..k]), F.ExitSet(fs[..k], version))
    {
      assert fs[..k + 1][..k] == fs[..k];
      var entryBlock := EntryBlock(fs[k]);
      var exitBlock := ExitBlock(fs[k], version);
      assert F.EntrySet(fs[..k + 1]) == F.EntrySet(fs[..k]) + {entryBlock};
      assert F.ExitSet(fs[..k + 1], version) == F.ExitSet(fs[..k], version) + {exitBlock};
      MarkStep(bs, base, F.EntrySet(fs[..k]), F.ExitSet(fs[..k], version), entryBlock, exitBlock);
      bs := bs[entryBlock := bs[entryBlock].(incomingInvalidArcs := F.USIZE_MAX)];
      bs := bs[exitBlock := bs[exitBlock].(outgoingInvalidArcs := F.USIZE_MAX)];
    }
    assert fs[..|fs|] == fs;
  }

  /** The first pass of `merge_gcno`: records grouped by the function record they follow. */
  method CollectFunctions(records: seq<Record>) returns (r: Result<seq<(bv32, GcnoIdentity)>>)
    ensures r == B.Collect(records)
  {
    var fis: seq<(bv32, GcnoIdentity)> := [];
    for i := 0 to |records|
      invariant B.CollectFrom(records, i, fis) == B.Collect(records)
    {
      match records[i]
      case FunctionRecord(ident, fn) =>
        fis := fis + [(ident, GcnoIdentity(fn, Blocks([]), [], []))];
      case BlocksRecord(b) =>
        if fis == [] {
          return Err(RecordWithoutFunction);
        }
        fis := B.UpdateLast(fis, fis[|fis| - 1].1.(blocks := b));
      case ArcsRecord(a) =>
        if fis == [] {
          return Err(RecordWithoutFunction);
        }
        fis := B.UpdateLast(fis, fis[|fis| - 1].1.(arcs := fis[|fis| - 1].1.arcs + [a]));
      case LinesRecord(l) =>
        if fis == [] {
          return Err(RecordWithoutFunction);
        }
        fis := B.UpdateLast(fis, fis[|fis| - 1].1.(lines := fis[|fis| - 1].1.lines + [l]));
      case _ =>
    }
    return Ok(fis);
  }

  /**
   * `add_lines` over the positions `ps`, one after another: the block at
   * each position gets the lines `m` gives its block number.
   */
  function GiveLines(nodes0: seq<BlockInfo>, ps: seq<nat>, m: map<nat, seq<Line>>): (r: seq<BlockInfo>)
    requires forall j :: 0 <= j < |ps| ==> ps[j] < |nodes0|
    ensures |r| == |nodes0|
  {
    if ps == [] then nodes0
    else
      var g := GiveLines(nodes0, ps[..|ps| - 1], m);
      var p := ps[|ps| - 1];
      g[p := g[p].(lines := B.BlockLines(m, g[p].block))]
  }

  /**
   * `nodes` is `nodes0` with the blocks at the positions in `seen` given the
   * lines `m` assigns them, and every other block as it was.
   */
  ghost predicate LinesGiven(nodes0: seq<BlockInfo>, nodes: seq<BlockInfo>, seen: seq<nat>, m: map<nat, seq<Line>>)
  {
    |nodes| == |nodes0| &&
    forall n :: 0 <= n < |nodes| ==>
      nodes[n] == if n in seen then nodes0[n].(lines := B.BlockLines(m, nodes0[n].block)) else nodes0[n]
  }

  /** Giving one more block its lines extends the positions that have them by that block. */
  lemma LinesStep(nodes0: seq<BlockInfo>, nodes: seq<BlockInfo>, seen: seq<nat>, ni: nat, m: map<nat, seq<Line>>)
    requires LinesGiven(nodes0, nodes, seen, m) && ni < |nodes|
    ensures LinesGiven(nodes0, nodes[ni := nodes[ni].(lines := B.BlockLines(m, nodes[ni].block))], seen + [ni], m)
  {
  }

  class Graph {
    var version: Version
    var functions: seq<FunctionInfo>
    var gcnoIndex: map<GcnoIdentity, nat>
    var gcdaIndex: map<GcdaIdentity, nat>
    var nodes: seq<BlockInfo>
    var edges: seq<Edge>

    /** The graph's fields as a value. */
    function State(): GraphState
      reads this
    {
      GraphState(version, functions, gcnoIndex, gcdaIndex, nodes, edges)
    }

    /** `Graph::new`: no version yet, no function, no block, no arc. */
    constructor ()
      ensures State() == EMPTY_GRAPH
    {
      version := INVALID_VERSION;
      functions := [];
      gcnoIndex := map[];
      gcdaIndex := map[];
      nodes := [];
      edges := [];
    }

    /**
     * `Graph::merge`: the first file merged fixes the version and a file of
     * another version is `VersionMismatch`; then the GCNO or GCDA is merged.
     */
    method Merge(gcov: Gcov) returns (r: Result<()>)
      requires WellFormed(State()) && B.MergeFits(gcov)
      modifies this
      ensures State() == B.Merge(old(State()), gcov).state
      ensures r.Err? <==> B.Merge(old(State()), gcov).error.Some?
      ensures r.Err? ==> r.error == B.Merge(old(State()), gcov).error.value
    {
      if version == INVALID_VERSION {
        version := gcov.version;
      } else if version != gcov.version {
        return Err(VersionMismatch(version, gcov.version));
      }
      match gcov.ty
      case Gcno =>
        r := MergeGcno(gcov.stamp, gcov.records);
      case Gcda =>
        r := MergeGcda(gcov.stamp, gcov.records);
    }

    /**
     * `merge_gcno`: a first pass groups the records by function, a second
     * merges each function (a function seen before only gets a GCDA alias).
     */
    method MergeGcno(checksum: bv32, records: seq<Record>) returns (r: Result<()>)
      requires B.GcnoFits(records)
      modifies this
      ensures State() == B.MergeGcno(old(State()), checksum, records).state
      ensures r.Err? <==> B.MergeGcno(old(State()), checksum, records).error.Some?
      ensures r.Err? ==> r.error == RecordWithoutFunction
    {
      var collected := CollectFunctions(records);
      match collected
      case Err(e) =>
        B.CollectShape(records);
        return Err(e);
      case Ok(fis) =>
        MergeIdentities(checksum, fis);
        return Ok(());
    }

    /** The second pass of `merge_gcno`: each collected function merged in turn. */
    method MergeIdentities(checksum: bv32, fis: seq<(bv32, GcnoIdentity)>)
      requires forall k :: 0 <= k < |fis| ==> B.IdentityFits(fis[k].1)
      modifies this
      ensures State() == B.MergeAll(old(State()), checksum, fis)
    {
      // The GCNO index is moved out while the functions are added.
      var index := gcnoIndex;
      gcnoIndex := map[];
      ghost var s0 := old(State());
      for k := 0 to |fis|
        invariant gcnoIndex == map[]
        invariant State().(gcnoIndex := index) == B.MergeAll(s0, checksum, fis[..k])
      {
        assert fis[..k + 1][..k] == fis[..k];
        var (ident, fi) := fis[k];
        index := MergeIdentity(index, checksum, ident, fi);
      }
      assert fis[..|fis|] == fis;
      gcnoIndex := index;
    }

    /**
     * One step of the second pass of `merge_gcno`, with the GCNO index held
     * apart in `index`: a function seen before only gets a GCDA alias, a new
     * one is added and indexed.
     */
    method MergeIdentity(index: map<GcnoIdentity, nat>, checksum: bv32, ident: bv32, fi: GcnoIdentity)
      returns (index': map<GcnoIdentity, nat>)
      requires B.IdentityFits(fi) && gcnoIndex == map[]
      modifies this
      ensures gcnoIndex == map[]
      ensures State().(gcnoIndex := index') == B.MergeIdentity(old(State()).(gcnoIndex := index), checksum, ident, fi)
    {
      var gcda := B.GcdaIdentityOf(checksum, ident, fi.fn);
      if fi in index {
        gcdaIndex := gcdaIndex[gcda := index[fi]];
        index' := index;
      } else {
        ghost var before := State();
        var newIndex := AddFunction(fi);
        B.AddFunctionWithoutIndex(before, index, fi);
        gcdaIndex := gcdaIndex[gcda := newIndex];
        index' := index[fi := newIndex];
      }
    }

    /** `add_function`: appends a new function's blocks, arcs and lines; returns its index. */
    method AddFunction(fi: GcnoIdentity) returns (newIndex: nat)
      requires B.IdentityFits(fi)
      modifies this
      ensures State() == B.AddFunction(old(State()), fi)
      ensures newIndex == |old(functions)|
    {
      newIndex := |functions|;
      var info := FunctionInfo([], [], fi.fn.source);
      info := AddBlocks(info, newIndex, fi.blocks);
      info := AddArcRecords(info, newIndex, fi.arcs, |old(nodes)|, |fi.blocks.flags|);
      var blockLines := BlockNumberToLines(fi.lines);
      AddLines(info, blockLines);
      AddedBlocksGetLines(old(nodes), fi.blocks.flags, newIndex, blockLines);
      functions := functions + [info];
    }

    /** The loop of `add_function` that calls `add_arcs` for each `Arcs` record in turn. */
    method AddArcRecords(info: FunctionInfo, index: nat, arcs: seq<Arcs>, ghost base: nat, ghost blockCount: nat)
      returns (f: FunctionInfo)
      requires forall i :: 0 <= i < |arcs| ==> B.ArcsFit(arcs[i], blockCount)
      requires info.nodes == B.Positions(base, blockCount) && info.arcs == []
      modifies this
      ensures version == old(version) && functions == old(functions) && nodes == old(nodes)
      ensures gcnoIndex == old(gcnoIndex) && gcdaIndex == old(gcdaIndex)
      ensures edges == old(edges) + B.ArcsEdges(arcs, index, base, blockCount)
      ensures f == info.(arcs := B.RealArcs(B.ArcsEdges(arcs, index, base, blockCount), |old(edges)|))
    {
      edges, f := AppendArcRecordEdges(edges, info, index, arcs, base, blockCount);
    }

    /** `add_blocks`: one new block per flag word, numbered from 0, without count or lines. */
    method AddBlocks(info: FunctionInfo, index: nat, blocks: Blocks) returns (f: FunctionInfo)
      modifies this
      ensures State() == old(State()).(nodes := old(nodes) + B.BlankBlocks(blocks.flags, index))
      ensures f == info.(nodes := B.Positions(|old(nodes)|, |blocks.flags|))
    {
      var positions;
      nodes, positions := AppendBlankBlocks(nodes, index, blocks.flags);
      f := info.(nodes := positions);
    }

    /**
     * `add_arcs`: one new arc per entry of the record, from its source block;
     * arcs off the spanning tree start at count 0 and are listed as the
     * function's instrumented arcs, the others have no count yet.
     */
    method AddArcs(info: FunctionInfo, index: nat, arcs: Arcs, ghost base: nat) returns (f: FunctionInfo)
      requires B.ArcsFit(arcs, |info.nodes|)
      requires forall j :: 0 <= j < |info.nodes| ==> info.nodes[j] == base + j
      modifies this
      ensures State() == old(State()).(edges := old(edges) + B.ArcEdges(arcs, index, base))
      ensures f == info.(arcs := info.arcs + B.RealArcs(B.ArcEdges(arcs, index, base), |old(edges)|))
    {
      edges, f := AppendArcEdges(edges, info, index, arcs, base);
    }

    /**
     * `add_lines`: every block of the function gets its own lines record, or
     * else the last file name and line of the nearest earlier block that has
     * one, or no lines at all.
     */
    method AddLines(info: FunctionInfo, blockLines: map<nat, seq<Line>>)
      requires forall j :: 0 <= j < |info.nodes| ==> info.nodes[j] < |nodes|
      modifies this
      ensures State() == old(State()).(nodes := nodes)
      ensures nodes == GiveLines(old(nodes), info.nodes, blockLines)
    {
      for k := 0 to |info.nodes|
        invariant State() == old(State()).(nodes := nodes)
        invariant nodes == GiveLines(old(nodes), info.nodes[..k], blockLines)
      {
        var ni := info.nodes[k];
        var block := nodes[ni];
        var lines: seq<Line> := [];
        match B.FloorKey(blockLines, block.block) {
          case None =>
          case Some(key) =>
            if key == block.block {
              lines := blockLines[key];
            } else {
              lines := LastLine(blockLines[key]);
            }
        }
        assert lines == B.BlockLines(blockLines, block.block);
        assert info.nodes[..k + 1][..k] == info.nodes[..k];
        nodes := nodes[ni := block.(lines := lines)];
      }
      assert info.nodes[..|info.nodes|] == info.nodes;
    }

    /** `find_function`: the function a GCDA announcement refers to, or `MissingFunction`. */
    method FindFunction(checksum: bv32, ident: bv32, fn: Function) returns (r: Result<nat>)
      ensures r == B.FindFunction(State(), checksum, ident, fn)
    {
      var identity := B.GcdaIdentityOf(checksum, ident, fn);
      if identity in gcdaIndex {
        r := Ok(gcdaIndex[identity]);
      } else {
        r := Err(MissingFunction(checksum, ident));
      }
    }

    /** `add_arc_counts`: adds the i-th count to the function's i-th instrumented arc. */
    method AddArcCounts(index: nat, counts: seq<bv64>) returns (r: Result<()>)
      requires WellFormed(State()) && index < |functions|
      modifies this
      ensures B.AddArcCounts(old(State()), index, counts).Err? ==>
        r == Err(B.AddArcCounts(old(State()), index, counts).error) && State() == old(State())
      ensures B.AddArcCounts(old(State()), index, counts).Ok? ==>
        r == Ok(()) && State() == B.AddArcCounts(old(State()), index, counts).value
    {
      var info := functions[index];
      if |counts| != |info.arcs| {
        return Err(CountsMismatch("arcs", Gcda, |counts|, |info.arcs|));
      }
      assert FunctionWellFormed(info, |nodes|, |edges|);
      edges := AddCountsToArcs(edges, info.arcs, counts);
      return Ok(());
    }

    /**
     * `merge_gcda`: a function record selects the function its counts are
     * for, an arc counts record adds to it; the first error stops the merge.
     */
    method MergeGcda(checksum: bv32, records: seq<Record>) returns (r: Result<()>)
      requires WellFormed(State()) && B.CountsAttached(records, 0, None)
      modifies this
      ensures State() == B.GcdaFrom(old(State()), checksum, records, 0, None).state
      ensures r.Err? <==> B.GcdaFrom(old(State()), checksum, records, 0, None).error.Some?
      ensures r.Err? ==> r.error == B.GcdaFrom(old(State()), checksum, records, 0, None).error.value
    {
      var cur: Option<nat> := None;
      for i := 0 to |records|
        invariant WellFormed(State()) && (cur.Some? ==> cur.value < |functions|)
        invariant B.CountsAttached(records, i, cur)
        invariant B.GcdaFrom(State(), checksum, records, i, cur) == B.GcdaFrom(old(State()), checksum, records, 0, None)
      {
        match records[i]
        case FunctionRecord(ident, fn) =>
          var found := FindFunction(checksum, ident, fn);
          if found.Err? {
            return Err(found.error);
          }
          B.CountsAttachedStep(records, i, cur, Some(found.value));
          cur := Some(found.value);
        case ArcCountsRecord(ac) =>
          var added := AddArcCounts(cur.value, ac.counts);
          if added.Err? {
            return added;
          }
          B.CountsAttachedStep(records, i, cur, cur);
        case _ =>
          B.CountsAttachedStep(records, i, cur, cur);
      }
      return Ok(());
    }
  
    /**
     * `create_block_status`: per block and side, the number of arcs without
     * a count and the sum of the known counts; then the incoming side of
     * every entry block and the outgoing side of every exit block get
     * `usize::MAX` invalid arcs, so they are never solved.
     */
    method CreateBlockStatus() returns (bs: seq<F.BlockStatus>)
      requires WellFormed(State()) && F.AllHaveExit(State())
      ensures |bs| == |nodes|
      ensures forall n, d :: 0 <= n < |bs| ==> F.TotalCount(bs[n], d) == F.KnownTotal(edges, n, d, |edges|)
      ensures forall n, d :: 0 <= n < |bs| ==>
        F.InvalidArcs(bs[n], d) ==
          if F.Sentinel(F.EntrySet(functions), F.ExitSet(functions, version), n, d) then F.USIZE_MAX
          else F.Unknown(edges, n, d, |edges|)
    {
      var tallied := TallyArcs(edges, |nodes|);
      forall k | 0 <= k < |functions|
        ensures HasExit(functions[k], version) && |functions[k].nodes| > 0
        ensures EntryBlock(functions[k]) < |tallied| && ExitBlock(functions[k], version) < |tallied|
      {
        assert FunctionWellFormed(functions[k], |nodes|, |edges|);
      }
      bs := MarkSentinels(tallied, functions, version);
    }

    /**
     * `process_red_block`: a block whose outgoing arcs all have counts gets
     * their total, else one whose incoming arcs all have counts gets theirs,
     * and turns green; any other block is left alone (white). It is never red.
     */
    method ProcessRedBlock(ni: nat, bs: seq<F.BlockStatus>) returns (c: F.BlockColor)
      requires ni < |nodes| && ni < |bs|
      modifies this
      ensures c != F.Red
      ensures c == F.Green <==> F.RedTotal(bs[ni]).Some?
      ensures c == F.Green ==> State() == old(State()).(nodes := old(nodes)[ni := old(nodes)[ni].(count := F.RedTotal(bs[ni]))])
      ensures c == F.White ==> State() == old(State())
    {
      var status := bs[ni];
      var total;
      if status.outgoingInvalidArcs == 0 {
        total := status.outgoingTotalCount;
      } else if status.incomingInvalidArcs == 0 {
        total := status.incomingTotalCount;
      } else {
        return F.White;
      }
      nodes := nodes[ni := nodes[ni].(count := Some(total))];
      return F.Green;
    }

    /** The arc `process_green_block` solves: the first arc petgraph lists on that side without a count. */
    method FirstUnknownArc(src: nat, d: F.Direction) returns (r: Option<nat>)
      ensures r == F.LastUnknown(edges, src, d, |edges|)
    {
      r := None;
      var e := |edges|;
      while e > 0 && r.None?
        invariant 0 <= e <= |edges|
        invariant r.None? ==> F.LastUnknown(edges, src, d, |edges|) == F.LastUnknown(edges, src, d, e)
        invariant r.Some? ==> r == F.LastUnknown(edges, src, d, |edges|)
      {
        e := e - 1;
        if edges[e].weight.count.None? && F.End(edges[e], d) == src {
          r := Some(e);
        }
      }
    }

    /**
     * `process_green_block`: when side `d` of a block with a count has a
     * single invalid arc, that arc gets the block count minus the side's
     * known total, the side becomes fully known (its total is the block
     * count), and the arc's other end and count are returned.
     */
    method ProcessGreenBlock(src: nat, d: F.Direction, bs: seq<F.BlockStatus>) returns (r: Option<(nat, nat)>, bs': seq<F.BlockStatus>)
      requires src < |nodes| && src < |bs|
      requires F.InvalidArcs(bs[src], d) == 1 ==> F.LastUnknown(edges, src, d, |edges|).Some?
      requires F.InvalidArcs(bs[src], d) == 1 ==> nodes[src].count.Some? && nodes[src].count.value >= F.TotalCount(bs[src], d)
      modifies this
      ensures F.InvalidArcs(bs[src], d) != 1 ==> r.None? && bs' == bs && State() == old(State())
      ensures F.InvalidArcs(bs[src], d) == 1 ==>
        var u := F.LastUnknown(old(edges), src, d, |old(edges)|).value;
        var blockCount := old(nodes)[src].count.value;
        var arcCount := blockCount - F.TotalCount(bs[src], d);
        r == Some((F.End(old(edges)[u], d.Opposite()), arcCount)) &&
        bs' == bs[src := F.WithTotals(bs[src], d, 0, blockCount)] &&
        State() == old(State()).(edges := F.SetCount(old(edges), u, arcCount))
    {
      var status := bs[src];
      var srcInvalid, srcTotal := F.InvalidArcs(status, d), F.TotalCount(status, d);
      if srcInvalid != 1 {
        return None, bs;
      }
      var found := FirstUnknownArc(src, d);
      var u := found.value;
      var dest := F.End(edges[u], d.Opposite());
      var blockCount := nodes[src].count.value;
      var arcCount := blockCount - srcTotal;
      edges := edges[u := edges[u].(weight := edges[u].weight.(count := Some(arcCount)))];
      bs' := bs[src := F.WithTotals(status, d, srcInvalid - 1, blockCount)];
      r := Some((dest, arcCount));
    }

    /**
     * `process_green_block_dest`: the far end of the solved arc loses an
     * invalid arc and gains its count on the opposite side; it turns green
     * when it has a count and a single invalid arc is left there, red when it
     * has no count and none is left.
     */
    method ProcessGreenBlockDest(dest: nat, arcCount: nat, d: F.Direction, bs: seq<F.BlockStatus>)
      returns (c: F.BlockColor, bs': seq<F.BlockStatus>)
      requires dest < |nodes| && dest < |bs|
      requires F.InvalidArcs(bs[dest], d.Opposite()) >= 1
      ensures var st := bs[dest];
        var o := d.Opposite();
        bs' == bs[dest := F.WithTotals(st, o, F.InvalidArcs(st, o) - 1, F.TotalCount(st, o) + arcCount)] &&
        c == F.DestColor(nodes[dest].count, F.InvalidArcs(st, o) - 1)
    {
      var status := bs[dest];
      var o := d.Opposite();
      var destInvalid := F.InvalidArcs(status, o) - 1;
      bs' := bs[dest := F.WithTotals(status, o, destInvalid, F.TotalCount(status, o) + arcCount)];
      match (nodes[dest].count, destInvalid) {
        case (Some(_), 1) => c := F.Green;
        case (None, 0) => c := F.Red;
        case _ => c := F.White;
      }
    }

    /**
     * One direction of the green loop of `propagate_counts`: solve the
     * block's single unknown arc on that side, if any, and colour its far
     * end.
     */
    method GreenStep(src: nat, d: F.Direction, bs: seq<F.BlockStatus>)
      returns (dest: Option<(nat, F.BlockColor)>, bs': seq<F.BlockStatus>)
      requires src < |nodes| && |bs| == |nodes| && F.GreenReady(edges, nodes, bs, src, d)
      modifies this
      ensures (edges, bs', dest) == F.GreenSolve(old(edges), old(nodes), bs, src, d)
      ensures State() == old(State()).(edges := edges)
    {
      var r;
      r, bs' := ProcessGreenBlock(src, d, bs);
      if r.None? {
        return None, bs';
      }
      var (target, arcCount) := r.value;
      var color;
      color, bs' := ProcessGreenBlockDest(target, arcCount, d, bs');
      dest := Some((target, color));
    }

    /** The far end of a solved arc joins the red or the green set, as its colour says (the `match` of `propagate_counts`). */
    static method Colour(red: seq<bool>, green: seq<bool>, dest: Option<(nat, F.BlockColor)>) returns (red': seq<bool>, green': seq<bool>)
      requires dest.Some? ==> dest.value.0 < |red| && dest.value.0 < |green|
      ensures |red'| == |red| && |green'| == |green|
      ensures forall n :: 0 <= n < |red| ==> (red'[n] <==> red[n] || dest == Some((n, F.Red)))
      ensures forall n :: 0 <= n < |green| ==> (green'[n] <==> green[n] || dest == Some((n, F.Green)))
    {
      red', green' := red, green;
      if dest.Some? {
        var (t, c) := dest.value;
        if c == F.Red {
          red' := red[t := true];
        } else if c == F.Green {
          green' := green[t := true];
        }
      }
    }

    /**
     * The red half of a round of `propagate_counts`: every red block whose
     * outgoing or incoming arcs all have counts gets their total and joins
     * the green set. `any` says whether the red set held a block at all.
     */
    method RedPass(red: seq<bool>, green: seq<bool>, bs: seq<F.BlockStatus>,
                   ghost s0: GraphState, ghost truth: seq<nat>, ghost entries: set<nat>, ghost exits: set<nat>)
      returns (green': seq<bool>, any: bool)
      requires F.Solving(State(), s0, truth, entries, exits, bs) && |red| == |nodes| && |green| == |nodes|
      modifies this
      ensures State() == old(State()).(nodes := F.RedCounts(old(nodes), red, bs))
      ensures F.Solving(State(), s0, truth, entries, exits, bs)
      ensures |green'| == |nodes|
      ensures forall n :: 0 <= n < |nodes| ==> (green'[n] <==> green[n] || (red[n] && F.RedTotal(bs[n]).Some?))
      ensures any <==> true in red
    {
      ghost var s := State();
      F.RedCountsSolving(s, s0, truth, entries, exits, bs, red);
      green' := green;
      any := false;
      for ni := 0 to |red|
        invariant State() == s.(nodes := nodes) && |nodes| == |s.nodes| && |green'| == |nodes|
        invariant forall n :: 0 <= n < |nodes| ==> nodes[n] == if n < ni then F.RedCounts(s.nodes, red, bs)[n] else s.nodes[n]
        invariant forall n :: 0 <= n < |nodes| ==> (green'[n] <==> green[n] || (n < ni && red[n] && F.RedTotal(bs[n]).Some?))
        invariant any <==> exists j :: 0 <= j < ni && red[j]
      {
        if red[ni] {
          any := true;
          var c := ProcessRedBlock(ni, bs);
          if c == F.Green {
            green' := green'[ni := true];
          }
        }
      }
      assert nodes == F.RedCounts(s.nodes, red, bs);
    }

    /**
     * The green half of a round of `propagate_counts`: every block of `work`
     * solves the single unknown arc of each of its sides, if it has one, and
     * the far ends join `red` or `green` as their colour says. A round that
     * solves no arc changes nothing but the answer `any`.
     */
    method GreenPass(work: seq<bool>, red: seq<bool>, green: seq<bool>, bs: seq<F.BlockStatus>,
                     ghost s0: GraphState, ghost truth: seq<nat>, ghost entries: set<nat>, ghost exits: set<nat>)
      returns (red': seq<bool>, green': seq<bool>, bs': seq<F.BlockStatus>, any: bool)
      requires F.Solving(State(), s0, truth, entries, exits, bs)
      requires |work| == |nodes| && |red| == |nodes| && |green| == |nodes|
      requires forall n :: 0 <= n < |work| && (work[n] || green[n]) ==> nodes[n].count.Some?
      modifies this
      ensures F.Solving(State(), s0, truth, entries, exits, bs') && nodes == old(nodes)
      ensures |red'| == |nodes| && |green'| == |nodes|
      ensures forall n :: 0 <= n < |green'| && green'[n] ==> nodes[n].count.Some?
      ensures any <==> true in work
      ensures F.UnknownArcs(edges, |edges|) <= F.UnknownArcs(old(edges), |old(edges)|)
      ensures F.UnknownArcs(edges, |edges|) == F.UnknownArcs(old(edges), |old(edges)|) ==>
        edges == old(edges) && red' == red && green' == green
    {
      red', green', bs', any := red, green, bs, false;
      for src := 0 to |work|
        invariant F.Solving(State(), s0, truth, entries, exits, bs') && nodes == old(nodes)
        invariant |red'| == |nodes| && |green'| == |nodes|
        invariant forall n :: 0 <= n < |green'| && green'[n] ==> nodes[n].count.Some?
        invariant any <==> exists j :: 0 <= j < src && work[j]
        invariant F.UnknownArcs(edges, |edges|) <= F.UnknownArcs(old(edges), |old(edges)|)
        invariant F.UnknownArcs(edges, |edges|) == F.UnknownArcs(old(edges), |old(edges)|) ==>
          edges == old(edges) && red' == red && green' == green
      {
        if work[src] {
          any := true;
          red', green', bs' := GreenBlock(src, red', green', bs', s0, truth, entries, exits);
        }
      }
    }

    /** The body of the green loop for one block: both of its sides, outgoing first. */
    method GreenBlock(src: nat, red: seq<bool>, green: seq<bool>, bs: seq<F.BlockStatus>,
                      ghost s0: GraphState, ghost truth: seq<nat>, ghost entries: set<nat>, ghost exits: set<nat>)
      returns (red': seq<bool>, green': seq<bool>, bs': seq<F.BlockStatus>)
      requires F.Solving(State(), s0, truth, entries, exits, bs)
      requires src < |nodes| && nodes[src].count.Some? && |red| == |nodes| && |green| == |nodes|
      requires forall n :: 0 <= n < |green| && green[n] ==> nodes[n].count.Some?
      modifies this
      ensures F.Solving(State(), s0, truth, entries, exits, bs') && nodes == old(nodes)
      ensures |red'| == |nodes| && |green'| == |nodes|
      ensures forall n :: 0 <= n < |green'| && green'[n] ==> nodes[n].count.Some?
      ensures F.UnknownArcs(edges, |edges|) <= F.UnknownArcs(old(edges), |old(edges)|)
      ensures F.UnknownArcs(edges, |edges|) == F.UnknownArcs(old(edges), |old(edges)|) ==>
        edges == old(edges) && red' == red && green' == green
    {
      red', green', bs' := GreenSide(src, F.Outgoing, red, green, bs, s0, truth, entries, exits);
      red', green', bs' := GreenSide(src, F.Incoming, red', green', bs', s0, truth, entries, exits);
    }

    /** One side of one green block: the green step and the colouring of the far end. */
    method GreenSide(src: nat, d: F.Direction, red: seq<bool>, green: seq<bool>, bs: seq<F.BlockStatus>,
                     ghost s0: GraphState, ghost truth: seq<nat>, ghost entries: set<nat>, ghost exits: set<nat>)
      returns (red': seq<bool>, green': seq<bool>, bs': seq<F.BlockStatus>)
      requires F.Solving(State(), s0, truth, entries, exits, bs)
      requires src < |nodes| && nodes[src].count.Some? && |red| == |nodes| && |green| == |nodes|
      requires forall n :: 0 <= n < |green| && green[n] ==> nodes[n].count.Some?
      modifies this
      ensures F.Solving(State(), s0, truth, entries, exits, bs') && nodes == old(nodes)
      ensures |red'| == |nodes| && |green'| == |nodes|
      ensures forall n :: 0 <= n < |green'| && green'[n] ==> nodes[n].count.Some?
      ensures F.UnknownArcs(edges, |edges|) <= F.UnknownArcs(old(edges), |old(edges)|)
      ensures F.UnknownArcs(edges, |edges|) == F.UnknownArcs(old(edges), |old(edges)|) ==>
        edges == old(edges) && red' == red && green' == green
    {
      F.GreenSolveKeeps(State(), s0, truth, entries, exits, bs, src, d);
      var dest;
      dest, bs' := GreenStep(src, d, bs);
      red', green' := Colour(red, green, dest);
    }

    /**
     * `propagate_counts`: the flow solver adapted from gcov's
     * `solve_flow_graph`. Starting with every block red, it alternates red
     * rounds (a block whose arcs on one side are all known gets their total)
     * and green rounds (a counted block with one unknown arc on a side fixes
     * it) until a round has nothing to do. Given true counts `truth` that
     * agree with the known ones and are conserved at every block but the
     * entries and exits, every count it derives is the true one and none it
     * knew is lost. It ends because every round that keeps going either
     * solves an arc or empties the colour sets.
     */
    method PropagateCounts(ghost truth: seq<nat>)
      requires WellFormed(State()) && F.AllHaveExit(State()) && |edges| < F.USIZE_MAX - 1
      requires F.Agrees(edges, truth)
      requires F.Conserves(|nodes|, edges, truth, F.EntrySet(functions), F.ExitSet(functions, version))
      requires F.BlocksAgree(nodes, edges, truth, F.ExitSet(functions, version))
      modifies this
      ensures F.CountsTrue(State(), old(State()), truth, F.ExitSet(old(functions), old(version)))
    {
      var bs := CreateBlockStatus();
      ghost var entries, exits := F.EntrySet(functions), F.ExitSet(functions, version);
      F.InitialStatusOk(edges, entries, exits, bs);
      ghost var s0 := State();
      var oldGreen := seq(|nodes|, _ => false);
      var green := oldGreen;
      var red := seq(|nodes|, _ => true);
      var shouldProcess := true;
      while shouldProcess
        invariant F.Solving(State(), s0, truth, entries, exits, bs)
        invariant |red| == |nodes| && |green| == |nodes| && |oldGreen| == |nodes|
        invariant forall n :: 0 <= n < |green| && green[n] ==> nodes[n].count.Some?
        invariant !(true in oldGreen)
        decreases F.UnknownArcs(edges, |edges|),
          (if true in red || true in green then 2 else 0) + (if shouldProcess then 1 else 0)
      {
        red, green, oldGreen, bs, shouldProcess := PropagateRound(red, green, oldGreen, bs, s0, truth, entries, exits);
      }
    }

    /**
     * One round of the loop of `propagate_counts`: the red pass, the swap of
     * the green sets, the green pass. The round keeps the solver's state; it
     * reports work whenever a colour set was not empty, and a round that
     * solves no arc leaves both colour sets empty.
     */
    method PropagateRound(red: seq<bool>, green: seq<bool>, oldGreen: seq<bool>, bs: seq<F.BlockStatus>,
                          ghost s0: GraphState, ghost truth: seq<nat>, ghost entries: set<nat>, ghost exits: set<nat>)
      returns (red': seq<bool>, green': seq<bool>, oldGreen': seq<bool>, bs': seq<F.BlockStatus>, shouldProcess: bool)
      requires F.Solving(State(), s0, truth, entries, exits, bs)
      requires |red| == |nodes| && |green| == |nodes| && |oldGreen| == |nodes| && !(true in oldGreen)
      requires forall n :: 0 <= n < |green| && green[n] ==> nodes[n].count.Some?
      modifies this
      ensures F.Solving(State(), s0, truth, entries, exits, bs')
      ensures |red'| == |nodes| && |green'| == |nodes| && |oldGreen'| == |nodes| && !(true in oldGreen')
      ensures forall n :: 0 <= n < |green'| && green'[n] ==> nodes[n].count.Some?
      ensures shouldProcess <==> true in red || true in green
      ensures F.UnknownArcs(edges, |edges|) <= F.UnknownArcs(old(edges), |old(edges)|)
      ensures F.UnknownArcs(edges, |edges|) == F.UnknownArcs(old(edges), |old(edges)|) ==>
        !(true in red') && !(true in green')
    {
      var anyRed, anyGreen;
      var reds := red;
      var work := oldGreen;
      var next := green;
      next, anyRed := RedPass(reds, next, bs, s0, truth, entries, exits);
      reds := seq(|nodes|, _ => false);
      work, next := next, work;
      red', green', bs', anyGreen := GreenPass(work, reds, next, bs, s0, truth, entries, exits);
      shouldProcess := anyRed || anyGreen;
      oldGreen' := seq(|nodes|, _ => false);
    }

    /**
     * The first half of a round of `mark_catch_blocks`, for the block `src`:
     * each fake arc leaving an entry block marks the arc and its target as
     * non-local returns; each fake arc leaving another block marks the arc
     * as a call that does not return and the block as a call site. The
     * result says whether the block throws.
     */
    method MarkFakeArcs(src: nat) returns (markThrow: bool)
      requires src < |nodes| && M.EndsInRange(nodes, edges)
      modifies this
      ensures State() == old(State()).(nodes := nodes, edges := edges)
      ensures markThrow <==> M.Throws(old(nodes), old(edges), src)
      ensures M.FakeArcsMarked(old(nodes), old(edges), src, 0, edges)
      ensures M.FakeBlocksMarked(old(nodes), old(edges), src, 0, nodes)
    {
      var entry := IsEntryBlock(nodes[src]);
      var ns, es := nodes, edges;
      markThrow := false;
      M.FakeMarkedStart(nodes, edges, src);
      var e := |edges|;
      while e > 0
        invariant 0 <= e <= |edges| && unchanged(this)
        invariant markThrow <==> !entry && M.FakeOutFrom(edges, src, e) > 0
        invariant M.FakeArcsMarked(nodes, edges, src, e, es) && M.FakeBlocksMarked(nodes, edges, src, e, ns)
      {
        e := e - 1;
        M.FakeArcStep(nodes, edges, src, e, es);
        M.FakeBlockStep(nodes, edges, src, e, ns);
        if edges[e].source == src && Has(edges[e].weight.attr, ARC_ATTR_FAKE) {
          var (ni, blockAttr, arcAttr) :=
            if entry then (edges[e].target, BLOCK_ATTR_NONLOCAL_RETURN, ARC_ATTR_NONLOCAL_RETURN)
            else (src, BLOCK_ATTR_CALL_SITE, ARC_ATTR_CALL_NON_RETURN);
          markThrow := markThrow || !entry;
          ns := ns[ni := M.WithBlockBits(ns[ni], blockAttr)];
          es := es[e := M.WithArcBits(es[e], arcAttr)];
        }
      }
      nodes, edges := ns, es;
    }

    /** The second half, for a block that throws: its arcs that are neither fake nor fall-through become throws. */
    method MarkThrowArcs(src: nat)
      modifies this
      ensures State() == old(State()).(edges := edges)
      ensures |edges| == |old(edges)|
      ensures forall e :: 0 <= e < |edges| ==>
        edges[e] == M.WithArcBits(old(edges)[e],
          if old(edges)[e].source == src && old(edges)[e].weight.attr & (ARC_ATTR_FAKE | ARC_ATTR_FALLTHROUGH) == 0
          then ARC_ATTR_THROW else 0)
    {
      var es := edges;
      var e := |edges|;
      while e > 0
        invariant 0 <= e <= |edges| && |es| == |edges| && unchanged(this)
        invariant forall k :: 0 <= k < |es| ==>
          es[k] == M.WithArcBits(edges[k],
            if e <= k && edges[k].source == src && edges[k].weight.attr & (ARC_ATTR_FAKE | ARC_ATTR_FALLTHROUGH) == 0
            then ARC_ATTR_THROW else 0)
      {
        e := e - 1;
        if edges[e].source == src && edges[e].weight.attr & (ARC_ATTR_FAKE | ARC_ATTR_FALLTHROUGH) == 0 {
          es := es[e := M.WithArcBits(es[e], ARC_ATTR_THROW)];
        }
      }
      edges := es;
    }

    /**
     * One round of `mark_catch_blocks`, for the block `src`: the arcs leaving
     * `src` gain `CatchArcBits`, every block the bits `CatchBlockBits` names.
     */
    method MarkCatchFrom(src: nat)
      requires src < |nodes| && M.EndsInRange(nodes, edges)
      modifies this
      ensures State() == old(State()).(nodes := nodes, edges := edges)
      ensures M.ArcsCaughtFrom(old(nodes), old(edges), src, edges)
      ensures M.BlocksCaughtFrom(old(nodes), old(edges), src, nodes)
    {
      var markThrow := MarkFakeArcs(src);
      ghost var mid := edges;
      if markThrow {
        MarkThrowArcs(src);
      }
      M.CatchRoundCompose(old(nodes), old(edges), src, mid, edges);
    }

    /**
     * `mark_catch_blocks`: every block in turn, as `MarkCatchFrom`. Each arc
     * and block gains exactly the bits `CatchArcBits` and `CatchBits` name,
     * and keeps every other part.
     */
    method MarkCatchBlocks()
      requires M.EndsInRange(nodes, edges)
      modifies this
      ensures State() == old(State()).(nodes := nodes, edges := edges)
      ensures M.CatchMarked(old(nodes), old(edges), nodes, edges)
    {
      ghost var nodes0, edges0 := nodes, edges;
      for src := 0 to |nodes|
        invariant State() == old(State()).(nodes := nodes, edges := edges)
        invariant M.ArcsCaughtBelow(nodes0, edges0, src, edges) && M.BlocksCaughtBelow(nodes0, edges0, src, nodes)
      {
        M.CaughtEnds(nodes0, edges0, src, nodes, edges);
        ghost var ns, es := nodes, edges;
        MarkCatchFrom(src);
        M.CatchRound(nodes0, edges0, src, ns, es, nodes, edges);
      }
    }

    /** The only arc leaving `src` that is not fake, when it has exactly one; the arcs are scanned newest first. */
    method SoleNonFakeArc(src: nat) returns (r: Option<nat>)
      ensures r.Some? <==> M.NonFakeOutFrom(edges, src, 0) == 1
      ensures r.Some? ==> r.value < |edges| && edges[r.value].source == src && M.Unconditional(edges, r.value)
    {
      r := None;
      var e := |edges|;
      while e > 0
        invariant 0 <= e <= |edges|
        invariant M.NonFakeOutFrom(edges, src, e) <= 1
        invariant r.None? <==> M.NonFakeOutFrom(edges, src, e) == 0
        invariant r.Some? ==> e <= r.value < |edges| && edges[r.value].source == src && !M.IsFake(edges[r.value])
      {
        e := e - 1;
        if edges[e].source == src && !Has(edges[e].weight.attr, ARC_ATTR_FAKE) {
          if r.Some? {
            M.NonFakeOutMonotone(edges, src, 0, e);
            return None;
          }
          r := Some(e);
        }
      }
    }

    /**
     * The first half of `mark_unconditional_arcs`: for each block in turn,
     * its sole non-fake arc as (source, target, arc, attributes). `where`
     * gives the position of each unconditional arc in the list.
     */
    method UnconditionalArcs() returns (found: seq<(nat, nat, nat, ArcAttr)>, ghost where: map<nat, nat>)
      ensures M.ListsUnconditional(edges, found)
      ensures forall e :: 0 <= e < |edges| && M.Unconditional(edges, e) && edges[e].source < |nodes| ==> e in where
      ensures forall e :: e in where ==> where[e] < |found| && found[where[e]].2 == e
    {
      found := [];
      where := map[];
      for src := 0 to |nodes|
        invariant M.ListsUnconditional(edges, found)
        invariant forall e :: 0 <= e < |edges| && M.Unconditional(edges, e) && edges[e].source < src ==> e in where
        invariant forall e :: e in where ==> where[e] < |found| && found[where[e]].2 == e
      {
        var r := SoleNonFakeArc(src);
        if r.Some? {
          var e := r.value;
          where := where[e := |found|];
          found := found + [(src, edges[e].target, e, edges[e].weight.attr)];
        }
        forall e | 0 <= e < |edges| && M.Unconditional(edges, e) && edges[e].source == src
          ensures e in where
        {
          M.UnconditionalSole(edges, e, e);
          M.NonFakeOutCounts(edges, src, 0, e);
          M.UnconditionalSole(edges, r.value, e);
        }
      }
    }

    /** The blocks and arcs once each listed arc is made unconditional and each call site's fallthrough target a call return. */
    method ApplyList(found: seq<(nat, nat, nat, ArcAttr)>) returns (ns: seq<BlockInfo>, es: seq<Edge>)
      requires M.EndsInRange(nodes, edges) && M.ListsUnconditional(edges, found)
      ensures M.AppliedUpTo(nodes, edges, found, |found|, ns, es)
    {
      ns, es := nodes, edges;
      for j := 0 to |found|
        invariant M.AppliedUpTo(nodes, edges, found, j, ns, es)
      {
        var (src, dest, ei, arcAttr) := found[j];
        M.AppliedStep(nodes, edges, found, j, ns, es);
        es := es[ei := M.WithArcBits(es[ei], ARC_ATTR_UNCONDITIONAL)];
        if Has(arcAttr, ARC_ATTR_FALLTHROUGH) && Has(ns[src].attr, BLOCK_ATTR_CALL_SITE) {
          ns := ns[dest := M.WithBlockBits(ns[dest], BLOCK_ATTR_CALL_RETURN)];
        }
      }
    }

    /**
     * The second half of `mark_unconditional_arcs`: every listed arc becomes
     * unconditional, and when it falls through out of a call site its
     * target becomes a call return. `where` says where each unconditional
     * arc is listed.
     */
    method ApplyUnconditional(found: seq<(nat, nat, nat, ArcAttr)>, ghost where: map<nat, nat>)
      requires M.EndsInRange(nodes, edges) && M.ListsUnconditional(edges, found)
      requires forall e :: 0 <= e < |edges| && M.Unconditional(edges, e) ==> e in where
      requires forall e :: e in where ==> where[e] < |found| && found[where[e]].2 == e
      modifies this
      ensures State() == old(State()).(nodes := nodes, edges := edges)
      ensures M.UnconditionalMarked(old(nodes), old(edges), nodes, edges)
    {
      var ns, es := ApplyList(found);
      M.AppliedAll(nodes, edges, found, where);
      nodes, edges := ns, es;
    }

    /**
     * `mark_unconditional_arcs`: the sole non-fake arc of each block becomes
     * unconditional, and when it falls through out of a call site its
     * target becomes a call return. Nothing else changes.
     */
    method MarkUnconditionalArcs()
      requires M.EndsInRange(nodes, edges)
      modifies this
      ensures State() == old(State()).(nodes := nodes, edges := edges)
      ensures M.UnconditionalMarked(old(nodes), old(edges), nodes, edges)
    {
      var found;
      ghost var where;
      found, where := UnconditionalArcs();
      ApplyUnconditional(found, where);
    }

    /**
     * The successors of `u` that `Dfs::next` pushes: the targets of the
     * arcs leaving `u` that it follows, newest arc first, unless visited.
     */
    method Successors(u: nat, visited: seq<bool>, followAll: bool) returns (pushed: seq<nat>)
      requires |visited| == |nodes| && M.EndsInRange(nodes, edges) && M.Reachable(nodes, edges, u, followAll)
      ensures M.StackReached(nodes, edges, followAll, pushed)
      ensures forall e :: 0 <= e < |edges| && edges[e].source == u && M.Follows(edges[e], followAll) ==>
        visited[edges[e].target] || edges[e].target in pushed
    {
      pushed := [];
      var e := |edges|;
      while e > 0
        invariant 0 <= e <= |edges|
        invariant M.StackReached(nodes, edges, followAll, pushed)
        invariant forall k :: e <= k < |edges| && edges[k].source == u && M.Follows(edges[k], followAll) ==>
          visited[edges[k].target] || edges[k].target in pushed
      {
        e := e - 1;
        var target := edges[e].target;
        if edges[e].source == u && (followAll || edges[e].weight.attr & (ARC_ATTR_FAKE | ARC_ATTR_THROW) == 0) && !visited[target] {
          M.ReachStep(nodes, edges, e, followAll);
          pushed := pushed + [target];
        }
      }
    }

    /** The first loop of `mark_exceptional_blocks`: the entry blocks go on the stack, the other blocks are marked. */
    method InitialMarks() returns (ns: seq<BlockInfo>, stack: seq<nat>)
      ensures |ns| == |nodes|
      ensures forall n :: 0 <= n < |nodes| ==> ns[n] == M.InitialMark(nodes[n])
      ensures forall x :: 0 <= x < |stack| ==> stack[x] < |nodes| && IsEntryBlock(nodes[stack[x]])
      ensures forall n :: 0 <= n < |nodes| && IsEntryBlock(nodes[n]) ==> n in stack
    {
      ns, stack := nodes, [];
      for i := 0 to |nodes|
        invariant |ns| == |nodes|
        invariant forall n :: 0 <= n < |nodes| ==> ns[n] == if n < i then M.InitialMark(nodes[n]) else nodes[n]
        invariant forall x :: 0 <= x < |stack| ==> stack[x] < |nodes| && IsEntryBlock(nodes[stack[x]])
        invariant forall n :: 0 <= n < i && IsEntryBlock(nodes[n]) ==> n in stack
      {
        if IsEntryBlock(ns[i]) {
          stack := stack + [i];
        } else {
          ns := ns[i := ns[i].(attr := ns[i].attr | BLOCK_ATTR_EXCEPTIONAL)];
        }
      }
    }

    /**
     * One call of `Dfs::next`: pop the top block; the first time it is
     * popped, mark it visited, clear its mark and push its successors.
     */
    method SearchStep(stack: seq<nat>, visited: seq<bool>, ns: seq<BlockInfo>, followAll: bool)
      returns (stack': seq<nat>, visited': seq<bool>, ns': seq<BlockInfo>)
      requires M.EndsInRange(nodes, edges) && M.SearchInv(nodes, edges, followAll, stack, visited, ns) && stack != []
      ensures M.SearchInv(nodes, edges, followAll, stack', visited', ns')
      ensures M.Unvisited(visited') < M.Unvisited(visited) || (visited' == visited && |stack'| < |stack|)
    {
      var u := stack[|stack| - 1];
      if visited[u] {
        M.SearchSkip(nodes, edges, followAll, stack, visited, ns);
        stack', visited', ns' := stack[..|stack| - 1], visited, ns;
      } else {
        M.VisitDecreases(visited, u);
        var pushed := Successors(u, visited[u := true], followAll);
        M.SearchVisit(nodes, edges, followAll, stack, visited, ns, pushed);
        stack', visited' := stack[..|stack| - 1] + pushed, visited[u := true];
        ns' := ns[u := ns[u].(attr := ns[u].attr & !BLOCK_ATTR_EXCEPTIONAL)];
      }
    }

    /**
     * The search of `mark_exceptional_blocks` (`Dfs::next` until the stack
     * is empty), clearing the mark of each block it visits.
     */
    method Search(ns0: seq<BlockInfo>, stack0: seq<nat>, followAll: bool) returns (ns: seq<BlockInfo>)
      requires M.EndsInRange(nodes, edges)
      requires M.SearchInv(nodes, edges, followAll, stack0, seq(|nodes|, _ => false), ns0)
      ensures |ns| == |nodes|
      ensures forall n :: 0 <= n < |nodes| ==>
        ns[n] == nodes[n].(attr := M.ExceptionalAttr(nodes[n].attr, M.Reachable(nodes, edges, n, followAll)))
    {
      var stack, visited := stack0, seq(|nodes|, _ => false);
      ns := ns0;
      while stack != []
        invariant M.SearchInv(nodes, edges, followAll, stack, visited, ns)
        decreases M.Unvisited(visited), |stack|
      {
        stack, visited, ns := SearchStep(stack, visited, ns, followAll);
      }
      M.SearchDone(nodes, edges, followAll, visited, ns);
    }

    /**
     * `mark_exceptional_blocks`, with the search following every arc
     * (`followAll`) or only the arcs neither fake nor throwing: every block
     * but the entry blocks is marked exceptional, then a depth-first search
     * from the entry blocks clears the mark on every block it reaches. A
     * block ends exceptional exactly when no walk from an entry block
     * reaches it.
     */
    method MarkExceptional(followAll: bool)
      requires M.EndsInRange(nodes, edges)
      modifies this
      ensures State() == old(State()).(nodes := nodes)
      ensures M.ExceptionalMarked(old(nodes), edges, nodes, followAll)
    {
      var ns, stack := InitialMarks();
      M.SearchStart(nodes, edges, followAll, stack, ns);
      ns := Search(ns, stack, followAll);
      nodes := ns;
    }

    /**
     * `mark_exceptional_blocks` as written: the search runs on the whole
     * graph, so fake and throwing arcs clear the mark too.
     */
    method MarkExceptionalBlocksAsWritten()
      requires M.EndsInRange(nodes, edges)
      modifies this
      ensures State() == old(State()).(nodes := nodes)
      ensures M.ExceptionalMarked(old(nodes), edges, nodes, true)
    {
      MarkExceptional(true);
    }

    /**
     * `mark_exceptional_blocks` as its filter intends: a block is
     * exceptional exactly when only fake or throwing arcs lead to it from
     * the entry blocks.
     */
    method MarkExceptionalBlocks()
      requires M.EndsInRange(nodes, edges)
      modifies this
      ensures State() == old(State()).(nodes := nodes)
      ensures M.ExceptionalMarked(old(nodes), edges, nodes, false)
    {
      MarkExceptional(false);
    }
  
    /** `mark_exceptional_blocks` as written when `followAll` holds, and as its filter intends otherwise. */
    method MarkExceptionalPass(followAll: bool)
      requires M.EndsInRange(nodes, edges)
      modifies this
      ensures State() == old(State()).(nodes := nodes)
      ensures M.ExceptionalMarked(old(nodes), edges, nodes, followAll)
    {
      if followAll {
        MarkExceptionalBlocksAsWritten();
      } else {
        MarkExceptionalBlocks();
      }
    }

    /**
     * `verify_counts`, the check `analyze` makes in debug builds: whether
     * every block and every arc has a count.
     */
    method VerifyCounts() returns (ok: bool)
      ensures ok <==> (forall n :: 0 <= n < |nodes| ==> nodes[n].count.Some?) &&
                      (forall e :: 0 <= e < |edges| ==> edges[e].weight.count.Some?)
    {
      for n := 0 to |nodes|
        invariant forall m :: 0 <= m < n ==> nodes[m].count.Some?
      {
        if nodes[n].count.None? {
          return false;
        }
      }
      for e := 0 to |edges|
        invariant forall k :: 0 <= k < e ==> edges[k].weight.count.Some?
      {
        if edges[e].weight.count.None? {
          return false;
        }
      }
      return true;
    }

    /**
     * `Graph::analyze`: `mark_catch_blocks`, `mark_unconditional_arcs`,
     * `mark_exceptional_blocks`, `propagate_counts`, and
     * `mark_exceptional_blocks` again (the debug-only `verify_counts` is
     * left out). The search of `mark_exceptional_blocks` follows every arc
     * when `followAll` holds, which is `analyze` as written, and only arcs
     * neither fake nor throwing otherwise, as its filter intends. Given
     * true counts as
     * `PropagateCounts` wants them, every count it leaves known is true and
     * every count known before is kept; each arc gains its catch bits and
     * `UNCONDITIONAL` exactly when it is the sole arc out of its block that
     * is not fake; each block gains its catch bits, `CALL_RETURN` on the
     * call returns, and is exceptional exactly when no walk that
     * `followAll` allows reaches it from an entry block.
     */
    method Analyze(ghost truth: seq<nat>, followAll: bool)
      requires WellFormed(State()) && F.AllHaveExit(State()) && |edges| < F.USIZE_MAX - 1
      requires F.Agrees(edges, truth)
      requires F.Conserves(|nodes|, edges, truth, F.EntrySet(functions), F.ExitSet(functions, version))
      requires F.BlocksAgree(nodes, edges, truth, F.ExitSet(functions, version))
      modifies this
      ensures State() == old(State()).(nodes := nodes, edges := edges)
      ensures |nodes| == |old(nodes)| && |edges| == |old(edges)|
      ensures F.Agrees(edges, truth) && F.BlocksAgree(nodes, edges, truth, F.ExitSet(functions, version))
      ensures forall e :: 0 <= e < |edges| && old(edges)[e].weight.count.Some? ==> edges[e].weight.count == old(edges)[e].weight.count
      ensures forall n :: 0 <= n < |nodes| && old(nodes)[n].count.Some? ==> nodes[n].count == old(nodes)[n].count
      ensures A.ArcsAnalyzed(old(nodes), old(edges), edges)
      ensures A.BlocksAnalyzed(old(nodes), old(edges), nodes, edges, followAll)
    {
      ghost var s0 := State();
      MarkCatchBlocks();
      ghost var s1 := State();
      A.CatchKeepsUnconditional(s0.nodes, s0.edges, s1.nodes, s1.edges);
      MarkUnconditionalArcs();
      ghost var s2 := State();
      MarkExceptionalPass(followAll);
      ghost var s3 := State();
      A.MarksAttrsOnly(s0, s1, s2, s3, followAll);
      A.FlowFactsKept(s0, s3, truth);
      PropagateCounts(truth);
      ghost var s4 := State();
      ghost var exits := F.ExitSet(s3.functions, s3.version);
      MarkExceptionalPass(followAll);
      ghost var s5 := State();
      A.AnalyzedArcs(s0, s1, s2, s3, s4, s5, truth, exits);
      A.AnalyzedBlocks(s0, s1, s2, s3, s4, s5, truth, exits, followAll);
      A.AnalyzedCounts(s0, s3, s4, s5, truth, exits, followAll);
    }

    /**
     * `Graph::report`: `report_function` for every function, then
     * `report_block` for every block, the block's branches going to the
     * last line it claimed.
     */
    method Report() returns (r: R.Report)
      requires WellFormed(State()) && F.AllHaveExit(State())
      ensures r == GR.ReportOf(State())
    {
      r := GR.ReportFunctions(State());
      r := GR.ReportBlocks(State(), r);
    }
  }
}

/**
 * What `propagate_counts` of cov/src/graph.rs works with and why it is right:
 * the per-block `BlockStatus` totals, the entry and exit blocks whose
 * incoming and outgoing sides are never solved, and the flow conservation
 * under which every count it derives is the true execution count.
 *
 * The true counts are a ghost sequence `truth` (one per arc) that agrees with
 * every count already known and is conserved at every block that is neither
 * an entry nor an exit block: what flows in flows out.
 */
module GraphFlow {
  import opened Options
  import opened Raw
  import opened GraphModel

  /** petgraph's `Direction`: the outgoing or the incoming side of a block. */
  datatype Direction = Outgoing | Incoming
  {
    function Opposite(): (r: Direction)
      ensures r != this
    {
      if this == Outgoing then Incoming else Outgoing
    }
  }

  /** The colours of the solver: red blocks need a count, green ones have one and may fix an arc. */
  datatype BlockColor = White | Red | Green

  /** `BlockStatus`: per side, the sum of the known arc counts and the number of arcs still without one. */
  datatype BlockStatus = BlockStatus(
    outgoingTotalCount: nat, outgoingInvalidArcs: nat,
    incomingTotalCount: nat, incomingInvalidArcs: nat)

  /** `usize::MAX`, the number of invalid arcs given to the sides that are never solved. */
  const USIZE_MAX: nat := 0xffff_ffff_ffff_ffff

  /** The invalid-arc count of one side (`totals_mut`). */
  function InvalidArcs(st: BlockStatus, d: Direction): nat
  {
    if d == Outgoing then st.outgoingInvalidArcs else st.incomingInvalidArcs
  }

  /** The known total of one side (`totals_mut`). */
  function TotalCount(st: BlockStatus, d: Direction): nat
  {
    if d == Outgoing then st.outgoingTotalCount else st.incomingTotalCount
  }

  /** The status with one side replaced; the other side is kept. */
  function WithTotals(st: BlockStatus, d: Direction, invalid: nat, total: nat): (r: BlockStatus)
    ensures InvalidArcs(r, d) == invalid && TotalCount(r, d) == total
    ensures InvalidArcs(r, d.Opposite()) == InvalidArcs(st, d.Opposite())
    ensures TotalCount(r, d.Opposite()) == TotalCount(st, d.Opposite())
  {
    if d == Outgoing then st.(outgoingInvalidArcs := invalid, outgoingTotalCount := total)
    else st.(incomingInvalidArcs := invalid, incomingTotalCount := total)
  }

  /** The block whose side `d` an arc is on: its source for the outgoing side, its target for the incoming one. */
  function End(e: Edge, d: Direction): nat
  {
    if d == Outgoing then e.source else e.target
  }

  /** The number of arcs below `hi` on side `d` of block `n` that have no count. */
  function Unknown(edges: seq<Edge>, n: nat, d: Direction, hi: nat): nat
    requires hi <= |edges|
  {
    if hi == 0 then 0
    else Unknown(edges, n, d, hi - 1) + (if End(edges[hi - 1], d) == n && edges[hi - 1].weight.count.None? then 1 else 0)
  }

  /** The sum of the counts of the arcs below `hi` on side `d` of block `n` that have one. */
  function KnownTotal(edges: seq<Edge>, n: nat, d: Direction, hi: nat): nat
    requires hi <= |edges|
  {
    if hi == 0 then 0
    else
      var e := edges[hi - 1];
      KnownTotal(edges, n, d, hi - 1) + (if End(e, d) == n && e.weight.count.Some? then e.weight.count.value else 0)
  }

  /** The number of arcs below `hi` without a count. */
  function UnknownArcs(edges: seq<Edge>, hi: nat): nat
    requires hi <= |edges|
  {
    if hi == 0 then 0
    else UnknownArcs(edges, hi - 1) + (if edges[hi - 1].weight.count.None? then 1 else 0)
  }

  /** The sum of the true counts of the arcs below `hi` on side `d` of block `n`. */
  ghost function TrueTotal(edges: seq<Edge>, truth: seq<nat>, n: nat, d: Direction, hi: nat): nat
    requires hi <= |edges| && hi <= |truth|
  {
    if hi == 0 then 0
    else TrueTotal(edges, truth, n, d, hi - 1) + (if End(edges[hi - 1], d) == n then truth[hi - 1] else 0)
  }

  /** The entry blocks of the functions (`FunctionInfo::entry_block`). */
  function EntrySet(fs: seq<FunctionInfo>): set<nat>
    requires forall k :: 0 <= k < |fs| ==> |fs[k].nodes| > 0
  {
    if fs == [] then {} else EntrySet(fs[..|fs| - 1]) + {EntryBlock(fs[|fs| - 1])}
  }

  /** The exit blocks of the functions (`FunctionInfo::exit_block`). */
  function ExitSet(fs: seq<FunctionInfo>, version: Version): set<nat>
    requires forall k :: 0 <= k < |fs| ==> HasExit(fs[k], version)
  {
    if fs == [] then {} else ExitSet(fs[..|fs| - 1], version) + {ExitBlock(fs[|fs| - 1], version)}
  }

  /** Every function has the entry and exit blocks `entry_block` and `exit_block` index. */
  predicate AllHaveExit(s: GraphState)
  {
    forall k :: 0 <= k < |s.functions| ==> HasExit(s.functions[k], s.version)
  }

  /** The sides set to `usize::MAX` invalid arcs: the incoming side of entry blocks, the outgoing side of exit blocks. */
  predicate Sentinel(entries: set<nat>, exits: set<nat>, n: nat, d: Direction)
  {
    (d == Incoming && n in entries) || (d == Outgoing && n in exits)
  }

  /**
   * One side of one block is described by its status: a side that is solved
   * holds the number of arcs without a count and the sum of the known ones;
   * a side that is never solved keeps an invalid count far above 1 (it
   * started at `usize::MAX` and loses at most one per arc solved).
   */
  ghost predicate SideOk(edges: seq<Edge>, entries: set<nat>, exits: set<nat>, bs: seq<BlockStatus>, n: nat, d: Direction)
    requires n < |bs|
  {
    if Sentinel(entries, exits, n, d) then
      InvalidArcs(bs[n], d) >= USIZE_MAX - |edges| + UnknownArcs(edges, |edges|)
    else
      InvalidArcs(bs[n], d) == Unknown(edges, n, d, |edges|) && TotalCount(bs[n], d) == KnownTotal(edges, n, d, |edges|)
  }

  /** Every side of every block is described by its status. */
  ghost predicate StatusOk(edges: seq<Edge>, entries: set<nat>, exits: set<nat>, bs: seq<BlockStatus>)
  {
    forall n, d :: 0 <= n < |bs| ==> SideOk(edges, entries, exits, bs, n, d)
  }

  /** Two arc lists that differ at most in their counts. */
  ghost predicate SameArcs(a: seq<Edge>, b: seq<Edge>)
  {
    |a| == |b| &&
    forall e :: 0 <= e < |a| ==> a[e] == b[e].(weight := b[e].weight.(count := a[e].weight.count))
  }

  /** Two block lists that differ at most in their counts. */
  ghost predicate SameBlocks(a: seq<BlockInfo>, b: seq<BlockInfo>)
  {
    |a| == |b| &&
    forall n :: 0 <= n < |a| ==> a[n] == b[n].(count := a[n].count)
  }

  /** Every arc count that is known is the true one. */
  ghost predicate Agrees(edges: seq<Edge>, truth: seq<nat>)
  {
    |truth| == |edges| &&
    forall e :: 0 <= e < |edges| && edges[e].weight.count.Some? ==> edges[e].weight.count.value == truth[e]
  }

  /** The true counts are conserved at every block that is neither an entry nor an exit. */
  ghost predicate Conserves(nodeCount: nat, edges: seq<Edge>, truth: seq<nat>, entries: set<nat>, exits: set<nat>)
    requires |truth| == |edges|
  {
    forall n :: 0 <= n < nodeCount && n !in entries && n !in exits ==>
      TrueTotal(edges, truth, n, Incoming, |edges|) == TrueTotal(edges, truth, n, Outgoing, |edges|)
  }

  /** The true count of a block: what flows in for an exit block, what flows out for any other. */
  ghost function BlockTruth(edges: seq<Edge>, truth: seq<nat>, exits: set<nat>, n: nat): nat
    requires |truth| == |edges|
  {
    if n in exits then TrueTotal(edges, truth, n, Incoming, |edges|) else TrueTotal(edges, truth, n, Outgoing, |edges|)
  }

  /** Every block count that is known is the true one. */
  ghost predicate BlocksAgree(nodes: seq<BlockInfo>, edges: seq<Edge>, truth: seq<nat>, exits: set<nat>)
    requires |truth| == |edges|
  {
    forall n :: 0 <= n < |nodes| && nodes[n].count.Some? ==> nodes[n].count.value == BlockTruth(edges, truth, exits, n)
  }

  /** The count `process_red_block` gives a block: the outgoing total when every outgoing arc is known, else the incoming one when every incoming arc is. */
  function RedTotal(st: BlockStatus): Option<nat>
  {
    if st.outgoingInvalidArcs == 0 then Some(st.outgoingTotalCount)
    else if st.incomingInvalidArcs == 0 then Some(st.incomingTotalCount)
    else None
  }

  /** The colour `process_green_block_dest` gives the far end of a solved arc, from its count and its remaining invalid arcs. */
  function DestColor(count: Option<nat>, invalid: nat): (c: BlockColor)
    ensures c == Green <==> count.Some? && invalid == 1
    ensures c == Red <==> count.None? && invalid == 0
  {
    if count.Some? && invalid == 1 then Green
    else if count.None? && invalid == 0 then Red
    else White
  }

  /** The last arc (highest index below `hi`) on side `d` of block `n` without a count: the first petgraph lists. */
  function LastUnknown(edges: seq<Edge>, n: nat, d: Direction, hi: nat): (r: Option<nat>)
    requires hi <= |edges|
    ensures r.Some? ==> r.value < hi && End(edges[r.value], d) == n && edges[r.value].weight.count.None?
    ensures r.Some? ==> forall e :: r.value < e < hi ==> !(End(edges[e], d) == n && edges[e].weight.count.None?)
    ensures r.None? <==> Unknown(edges, n, d, hi) == 0
  {
    if hi == 0 then None
    else if End(edges[hi - 1], d) == n && edges[hi - 1].weight.count.None? then Some(hi - 1)
    else LastUnknown(edges, n, d, hi - 1)
  }

  /** The arcs with their `u`-th count set to `v`. */
  function SetCount(edges: seq<Edge>, u: nat, v: nat): (r: seq<Edge>)
    requires u < |edges|
    ensures |r| == |edges|
  {
    edges[u := edges[u].(weight := edges[u].weight.(count := Some(v)))]
  }

  /** Arcs on a side that holds no unknown arc add up to the known total. */
  lemma {:induction false} NoUnknownTotal(edges: seq<Edge>, truth: seq<nat>, n: nat, d: Direction, hi: nat)
    requires hi <= |edges| && Agrees(edges, truth)
    requires Unknown(edges, n, d, hi) == 0
    ensures TrueTotal(edges, truth, n, d, hi) == KnownTotal(edges, n, d, hi)
  {
    if hi > 0 {
      NoUnknownTotal(edges, truth, n, d, hi - 1);
    }
  }

  /** A side with unknown arc `u` holds at least one unknown arc. */
  lemma {:induction false} UnknownWitness(edges: seq<Edge>, n: nat, d: Direction, hi: nat, u: nat)
    requires hi <= |edges| && u < hi && End(edges[u], d) == n && edges[u].weight.count.None?
    ensures Unknown(edges, n, d, hi) >= 1
  {
    if u < hi - 1 {
      UnknownWitness(edges, n, d, hi - 1, u);
    }
  }

  /** On a side with a single unknown arc `u`, the true total is the known total plus the true count of `u`. */
  lemma {:induction false} OneUnknownTotal(edges: seq<Edge>, truth: seq<nat>, n: nat, d: Direction, hi: nat, u: nat)
    requires hi <= |edges| && Agrees(edges, truth)
    requires Unknown(edges, n, d, hi) == 1
    requires u < hi && End(edges[u], d) == n && edges[u].weight.count.None?
    ensures TrueTotal(edges, truth, n, d, hi) == KnownTotal(edges, n, d, hi) + truth[u]
  {
    if u == hi - 1 {
      NoUnknownTotal(edges, truth, n, d, hi - 1);
    } else {
      UnknownWitness(edges, n, d, hi - 1, u);
      OneUnknownTotal(edges, truth, n, d, hi - 1, u);
    }
  }

  /** Arc lists with the same ends have the same true totals. */
  lemma {:induction false} SameArcsTotal(a: seq<Edge>, b: seq<Edge>, truth: seq<nat>, n: nat, d: Direction, hi: nat)
    requires SameArcs(a, b) && hi <= |a| && hi <= |truth|
    ensures TrueTotal(a, truth, n, d, hi) == TrueTotal(b, truth, n, d, hi)
  {
    if hi > 0 {
      SameArcsTotal(a, b, truth, n, d, hi - 1);
    }
  }

  /** Giving unknown arc `u` the count `v` takes it off the unknown arcs of its two sides and adds `v` to their known totals. */
  lemma {:induction false} SetCountTotals(edges: seq<Edge>, u: nat, v: nat, n: nat, d: Direction, hi: nat)
    requires hi <= |edges| && u < |edges| && edges[u].weight.count.None?
    ensures var edges' := SetCount(edges, u, v);
      var here := u < hi && End(edges[u], d) == n;
      Unknown(edges', n, d, hi) == Unknown(edges, n, d, hi) - (if here then 1 else 0) &&
      KnownTotal(edges', n, d, hi) == KnownTotal(edges, n, d, hi) + (if here then v else 0)
  {
    if hi > 0 {
      SetCountTotals(edges, u, v, n, d, hi - 1);
    }
  }

  /** Giving unknown arc `u` a count leaves one unknown arc less. */
  lemma {:induction false} SetCountUnknownArcs(edges: seq<Edge>, u: nat, v: nat, hi: nat)
    requires hi <= |edges| && u < |edges| && edges[u].weight.count.None?
    ensures UnknownArcs(SetCount(edges, u, v), hi) == UnknownArcs(edges, hi) - (if u < hi then 1 else 0)
  {
    if hi > 0 {
      SetCountUnknownArcs(edges, u, v, hi - 1);
    }
  }

  /** There are never more unknown arcs than arcs. */
  lemma {:induction false} UnknownArcsBound(edges: seq<Edge>, hi: nat)
    requires hi <= |edges|
    ensures UnknownArcs(edges, hi) <= hi
  {
    if hi > 0 {
      UnknownArcsBound(edges, hi - 1);
    }
  }

  /** No arc below `hi` lacks a count exactly when every arc below `hi` has one. */
  lemma {:induction false} NoUnknownArcs(edges: seq<Edge>, hi: nat)
    requires hi <= |edges|
    ensures UnknownArcs(edges, hi) == 0 <==> forall e :: 0 <= e < hi ==> edges[e].weight.count.Some?
  {
    if hi > 0 {
      NoUnknownArcs(edges, hi - 1);
    }
  }

  /** The true count of a block is the true total of either side that is solved. */
  lemma SideTruth(nodeCount: nat, edges: seq<Edge>, truth: seq<nat>, entries: set<nat>, exits: set<nat>, n: nat, d: Direction)
    requires |truth| == |edges| && Conserves(nodeCount, edges, truth, entries, exits)
    requires n < nodeCount && !Sentinel(entries, exits, n, d)
    ensures BlockTruth(edges, truth, exits, n) == TrueTotal(edges, truth, n, d, |edges|)
  {
  }

  /**
   * The red-block rule is sound: a side without unknown arcs that is solved
   * (a side that is never solved has far more than 0 invalid arcs) totals the
   * block's true count.
   */
  lemma RedTotalSound(nodeCount: nat, edges: seq<Edge>, e0: seq<Edge>, truth: seq<nat>, entries: set<nat>, exits: set<nat>,
                      bs: seq<BlockStatus>, n: nat)
    requires SameArcs(edges, e0) && Agrees(edges, truth) && Conserves(nodeCount, e0, truth, entries, exits)
    requires StatusOk(edges, entries, exits, bs) && |bs| == nodeCount && n < nodeCount && |edges| < USIZE_MAX - 1
    ensures RedTotal(bs[n]).Some? ==> RedTotal(bs[n]).value == BlockTruth(e0, truth, exits, n)
  {
    if RedTotal(bs[n]).Some? {
      var d := if bs[n].outgoingInvalidArcs == 0 then Outgoing else Incoming;
      assert SideOk(edges, entries, exits, bs, n, d);
      UnknownArcsBound(edges, |edges|);
      assert !Sentinel(entries, exits, n, d);
      NoUnknownTotal(edges, truth, n, d, |edges|);
      SameArcsTotal(edges, e0, truth, n, d, |edges|);
      SideTruth(nodeCount, e0, truth, entries, exits, n, d);
    }
  }

  /**
   * The green-block rule is sound: on a solved side with exactly one unknown
   * arc, the block's true count minus the known total is that arc's true
   * count (and so the subtraction never goes below zero).
   */
  lemma GreenArcSound(nodeCount: nat, edges: seq<Edge>, e0: seq<Edge>, truth: seq<nat>, entries: set<nat>, exits: set<nat>,
                      bs: seq<BlockStatus>, n: nat, d: Direction)
    requires SameArcs(edges, e0) && Agrees(edges, truth) && Conserves(nodeCount, e0, truth, entries, exits)
    requires StatusOk(edges, entries, exits, bs) && |bs| == nodeCount && n < nodeCount && |edges| < USIZE_MAX - 1
    requires InvalidArcs(bs[n], d) == 1
    ensures LastUnknown(edges, n, d, |edges|).Some?
    ensures BlockTruth(e0, truth, exits, n) == TotalCount(bs[n], d) + truth[LastUnknown(edges, n, d, |edges|).value]
  {
    assert SideOk(edges, entries, exits, bs, n, d);
    UnknownArcsBound(edges, |edges|);
    assert !Sentinel(entries, exits, n, d);
    var u := LastUnknown(edges, n, d, |edges|).value;
    OneUnknownTotal(edges, truth, n, d, |edges|, u);
    SameArcsTotal(edges, e0, truth, n, d, |edges|);
    SideTruth(nodeCount, e0, truth, entries, exits, n, d);
  }

  /**
   * The status `create_block_status` builds is described by the arcs: every
   * side counts its unknown arcs and sums its known ones, except the sides
   * that are never solved, which hold `usize::MAX`.
   */
  lemma InitialStatusOk(edges: seq<Edge>, entries: set<nat>, exits: set<nat>, bs: seq<BlockStatus>)
    requires forall n, d :: 0 <= n < |bs| ==> TotalCount(bs[n], d) == KnownTotal(edges, n, d, |edges|)
    requires forall n, d :: 0 <= n < |bs| ==>
      InvalidArcs(bs[n], d) == if Sentinel(entries, exits, n, d) then USIZE_MAX else Unknown(edges, n, d, |edges|)
    ensures StatusOk(edges, entries, exits, bs)
  {
    UnknownArcsBound(edges, |edges|);
    forall n, d | 0 <= n < |bs|
      ensures SideOk(edges, entries, exits, bs, n, d)
    {
    }
  }

  /**
   * Solving unknown arc `u` with count `v` keeps the status described by the
   * arcs when each of the arc's two sides loses one invalid arc and gains `v`
   * in its known total (a side that is never solved may lose one invalid arc).
   */
  lemma StatusAfterSet(edges: seq<Edge>, entries: set<nat>, exits: set<nat>, bs: seq<BlockStatus>, bs': seq<BlockStatus>,
                       u: nat, v: nat)
    requires StatusOk(edges, entries, exits, bs) && u < |edges| && edges[u].weight.count.None? && |bs'| == |bs|
    requires forall n, d :: 0 <= n < |bs| && !Sentinel(entries, exits, n, d) ==>
      InvalidArcs(bs'[n], d) == InvalidArcs(bs[n], d) - (if End(edges[u], d) == n then 1 else 0) &&
      TotalCount(bs'[n], d) == TotalCount(bs[n], d) + (if End(edges[u], d) == n then v else 0)
    requires forall n, d :: 0 <= n < |bs| && Sentinel(entries, exits, n, d) ==>
      InvalidArcs(bs'[n], d) >= InvalidArcs(bs[n], d) - 1
    ensures StatusOk(SetCount(edges, u, v), entries, exits, bs')
  {
    var edges' := SetCount(edges, u, v);
    SetCountUnknownArcs(edges, u, v, |edges|);
    forall n, d | 0 <= n < |bs'|
      ensures SideOk(edges', entries, exits, bs', n, d)
    {
      assert SideOk(edges, entries, exits, bs, n, d);
      SetCountTotals(edges, u, v, n, d, |edges|);
    }
  }

  /**
   * Solving arc `u`, which side `d` of `src` holds as its only unknown arc,
   * with count `v`: `src` loses that invalid arc and gets `v` in its total,
   * and so does the opposite side of the arc's other end. The status stays
   * described by the arcs.
   */
  lemma StatusAfterSolve(edges: seq<Edge>, entries: set<nat>, exits: set<nat>, bs: seq<BlockStatus>, bs': seq<BlockStatus>,
                         src: nat, d: Direction, u: nat, v: nat)
    requires StatusOk(edges, entries, exits, bs) && |edges| < USIZE_MAX - 1
    requires u < |edges| && edges[u].weight.count.None? && End(edges[u], d) == src
    requires src < |bs| && End(edges[u], d.Opposite()) < |bs| && InvalidArcs(bs[src], d) == 1
    requires var o := d.Opposite();
      var t := End(edges[u], o);
      var bs1 := bs[src := WithTotals(bs[src], d, 0, TotalCount(bs[src], d) + v)];
      InvalidArcs(bs1[t], o) >= 1 &&
      bs' == bs1[t := WithTotals(bs1[t], o, InvalidArcs(bs1[t], o) - 1, TotalCount(bs1[t], o) + v)]
    ensures StatusOk(SetCount(edges, u, v), entries, exits, bs')
  {
    var o := d.Opposite();
    var t := End(edges[u], o);
    var bs1 := bs[src := WithTotals(bs[src], d, 0, TotalCount(bs[src], d) + v)];
    assert SideOk(edges, entries, exits, bs, src, d);
    UnknownArcsBound(edges, |edges|);
    assert !Sentinel(entries, exits, src, d);
    forall n, d' | 0 <= n < |bs|
      ensures InvalidArcs(bs'[n], d') == InvalidArcs(bs[n], d') - (if End(edges[u], d') == n then 1 else 0)
      ensures TotalCount(bs'[n], d') == TotalCount(bs[n], d') + (if End(edges[u], d') == n then v else 0)
    {
      if d' == d {
        assert InvalidArcs(bs'[n], d') == InvalidArcs(bs1[n], d');
        assert TotalCount(bs'[n], d') == TotalCount(bs1[n], d');
      } else {
        assert d' == o;
        assert InvalidArcs(bs1[n], d') == InvalidArcs(bs[n], d');
        assert TotalCount(bs1[n], d') == TotalCount(bs[n], d');
      }
    }
    StatusAfterSet(edges, entries, exits, bs, bs', u, v);
  }

  /**
   * What the green rule relies on, on a side of a counted block with one
   * invalid arc: that side is solved, its unknown arc exists, its other end
   * is a block with an invalid arc on the opposite side, and the block count
   * minus the known total is the arc's true count.
   */
  lemma GreenSolveFacts(s: GraphState, s0: GraphState, truth: seq<nat>, entries: set<nat>, exits: set<nat>,
                        bs: seq<BlockStatus>, src: nat, d: Direction)
    requires Solving(s, s0, truth, entries, exits, bs)
    requires src < |s.nodes| && s.nodes[src].count.Some? && InvalidArcs(bs[src], d) == 1
    ensures LastUnknown(s.edges, src, d, |s.edges|).Some?
    ensures var u := LastUnknown(s.edges, src, d, |s.edges|).value;
      var t := End(s.edges[u], d.Opposite());
      t < |s.nodes| && InvalidArcs(bs[t], d.Opposite()) >= 1 &&
      s.nodes[src].count.value == TotalCount(bs[src], d) + truth[u]
  {
    GreenArcSound(|s.nodes|, s.edges, s0.edges, truth, entries, exits, bs, src, d);
    var u := LastUnknown(s.edges, src, d, |s.edges|).value;
    var o := d.Opposite();
    var t := End(s.edges[u], o);
    assert t < |s.nodes|;
    assert SideOk(s.edges, entries, exits, bs, t, o);
    UnknownArcsBound(s.edges, |s.edges|);
    UnknownWitness(s.edges, t, o, |s.edges|, u);
  }

  /**
   * Giving unknown arc `u` its true count, with a status described by the
   * new arcs, keeps the solver's state and leaves one unknown arc less.
   */
  lemma SolvingAfterSolve(s: GraphState, s0: GraphState, truth: seq<nat>, entries: set<nat>, exits: set<nat>,
                          bs: seq<BlockStatus>, bs': seq<BlockStatus>, u: nat)
    requires Solving(s, s0, truth, entries, exits, bs)
    requires u < |s.edges| && s.edges[u].weight.count.None? && |bs'| == |bs|
    requires StatusOk(SetCount(s.edges, u, truth[u]), entries, exits, bs')
    ensures Solving(s.(edges := SetCount(s.edges, u, truth[u])), s0, truth, entries, exits, bs')
    ensures UnknownArcs(SetCount(s.edges, u, truth[u]), |s.edges|) + 1 == UnknownArcs(s.edges, |s.edges|)
  {
    SetCountUnknownArcs(s.edges, u, truth[u], |s.edges|);
  }

  /**
   * What one green step needs in order to be defined: when side `d` of `src`
   * has a single invalid arc, that arc exists, the block count covers the
   * known total, and the arc's other end has an invalid arc on the opposite
   * side.
   */
  predicate GreenReady(edges: seq<Edge>, nodes: seq<BlockInfo>, bs: seq<BlockStatus>, src: nat, d: Direction)
    requires src < |bs| && src < |nodes| && |bs| == |nodes|
  {
    InvalidArcs(bs[src], d) == 1 ==>
      nodes[src].count.Some? && nodes[src].count.value >= TotalCount(bs[src], d) &&
      LastUnknown(edges, src, d, |edges|).Some? &&
      var u := LastUnknown(edges, src, d, |edges|).value;
      End(edges[u], d.Opposite()) < |nodes| && InvalidArcs(bs[End(edges[u], d.Opposite())], d.Opposite()) >= 1
  }

  /**
   * One green step (`process_green_block` then `process_green_block_dest`)
   * on side `d` of block `src`: the new arcs, the new status, and the far
   * end of the solved arc with its colour, if an arc was solved.
   */
  function GreenSolve(edges: seq<Edge>, nodes: seq<BlockInfo>, bs: seq<BlockStatus>, src: nat, d: Direction)
    : (r: (seq<Edge>, seq<BlockStatus>, Option<(nat, BlockColor)>))
    requires src < |bs| && src < |nodes| && |bs| == |nodes| && GreenReady(edges, nodes, bs, src, d)
    ensures |r.0| == |edges| && |r.1| == |bs|
  {
    if InvalidArcs(bs[src], d) != 1 then (edges, bs, None)
    else
      var u := LastUnknown(edges, src, d, |edges|).value;
      var o := d.Opposite();
      var t := End(edges[u], o);
      var blockCount := nodes[src].count.value;
      var v := blockCount - TotalCount(bs[src], d);
      var bs1 := bs[src := WithTotals(bs[src], d, 0, blockCount)];
      var invalid := InvalidArcs(bs1[t], o) - 1;
      var bs2 := bs1[t := WithTotals(bs1[t], o, invalid, TotalCount(bs1[t], o) + v)];
      (SetCount(edges, u, v), bs2, Some((t, DestColor(nodes[t].count, invalid))))
  }

  /**
   * A green step keeps the solver's state: the arc it solves gets its true
   * count, and exactly one unknown arc goes; a step that solves nothing
   * changes nothing. The far end it names is a block, and a green one has a
   * count.
   */
  lemma GreenSolveKeeps(s: GraphState, s0: GraphState, truth: seq<nat>, entries: set<nat>, exits: set<nat>,
                        bs: seq<BlockStatus>, src: nat, d: Direction)
    requires Solving(s, s0, truth, entries, exits, bs)
    requires src < |s.nodes| && s.nodes[src].count.Some?
    ensures GreenReady(s.edges, s.nodes, bs, src, d)
    ensures var r := GreenSolve(s.edges, s.nodes, bs, src, d);
      Solving(s.(edges := r.0), s0, truth, entries, exits, r.1) &&
      (r.2.None? ==> r.0 == s.edges && r.1 == bs) &&
      (r.2.Some? ==> r.2.value.0 < |s.nodes| && (r.2.value.1 == Green ==> s.nodes[r.2.value.0].count.Some?)) &&
      (r.2.Some? ==> UnknownArcs(r.0, |r.0|) + 1 == UnknownArcs(s.edges, |s.edges|))
  {
    if InvalidArcs(bs[src], d) == 1 {
      GreenSolveFacts(s, s0, truth, entries, exits, bs, src, d);
      GreenSolveSolves(s, s0, truth, entries, exits, bs, src, d);
    }
  }

  /** The case of `GreenSolveKeeps` where the side has a single invalid arc, which gets its true count. */
  lemma GreenSolveSolves(s: GraphState, s0: GraphState, truth: seq<nat>, entries: set<nat>, exits: set<nat>,
                         bs: seq<BlockStatus>, src: nat, d: Direction)
    requires Solving(s, s0, truth, entries, exits, bs)
    requires src < |s.nodes| && InvalidArcs(bs[src], d) == 1 && GreenReady(s.edges, s.nodes, bs, src, d)
    requires s.nodes[src].count.value == TotalCount(bs[src], d) + truth[LastUnknown(s.edges, src, d, |s.edges|).value]
    ensures var u := LastUnknown(s.edges, src, d, |s.edges|).value;
      var r := GreenSolve(s.edges, s.nodes, bs, src, d);
      r.0 == SetCount(s.edges, u, truth[u]) &&
      Solving(s.(edges := r.0), s0, truth, entries, exits, r.1) &&
      UnknownArcs(r.0, |r.0|) + 1 == UnknownArcs(s.edges, |s.edges|)
  {
    var u := LastUnknown(s.edges, src, d, |s.edges|).value;
    var r := GreenSolve(s.edges, s.nodes, bs, src, d);
    StatusAfterSolve(s.edges, entries, exits, bs, r.1, src, d, u, truth[u]);
    SolvingAfterSolve(s, s0, truth, entries, exits, bs, r.1, u);
  }

  /**
   * What `propagate_counts` promises against the state `s0` it started
   * from: only counts have changed, every known count (of an arc or a block)
   * is the true one, and a count known at the start is kept.
   */
  ghost predicate CountsTrue(s: GraphState, s0: GraphState, truth: seq<nat>, exits: set<nat>)
  {
    s == s0.(nodes := s.nodes, edges := s.edges) &&
    SameArcs(s.edges, s0.edges) && SameBlocks(s.nodes, s0.nodes) &&
    Agrees(s.edges, truth) && BlocksAgree(s.nodes, s0.edges, truth, exits) &&
    (forall e :: 0 <= e < |s.edges| && s0.edges[e].weight.count.Some? ==> s.edges[e].weight.count == s0.edges[e].weight.count) &&
    (forall n :: 0 <= n < |s.nodes| && s0.nodes[n].count.Some? ==> s.nodes[n].count == s0.nodes[n].count)
  }

  /**
   * The state `propagate_counts` keeps while it works: its counts are true,
   * the true counts are conserved, and the status is described by the arcs.
   */
  ghost predicate Solving(s: GraphState, s0: GraphState, truth: seq<nat>, entries: set<nat>, exits: set<nat>,
                          bs: seq<BlockStatus>)
  {
    match s
    case GraphState(_, _, _, _, nodes, edges) =>
      CountsTrue(s, s0, truth, exits) && |bs| == |nodes| &&
      (forall e :: 0 <= e < |edges| ==> edges[e].source < |nodes| && edges[e].target < |nodes|) &&
      |edges| < USIZE_MAX - 1 &&
      Conserves(|nodes|, s0.edges, truth, entries, exits) &&
      StatusOk(edges, entries, exits, bs)
  }

  /** The block list after the red pass: every red block whose status gives a total gets that total as its count. */
  function RedCounts(nodes: seq<BlockInfo>, red: seq<bool>, bs: seq<BlockStatus>): (r: seq<BlockInfo>)
    requires |red| == |nodes| && |bs| == |nodes|
    ensures |r| == |nodes|
  {
    seq(|nodes|, n requires 0 <= n < |nodes| =>
      if red[n] && RedTotal(bs[n]).Some? then nodes[n].(count := RedTotal(bs[n])) else nodes[n])
  }

  /** The red pass keeps the solver's state: every count it sets is the true one. */
  lemma RedCountsSolving(s: GraphState, s0: GraphState, truth: seq<nat>, entries: set<nat>, exits: set<nat>,
                         bs: seq<BlockStatus>, red: seq<bool>)
    requires Solving(s, s0, truth, entries, exits, bs) && |red| == |s.nodes|
    ensures Solving(s.(nodes := RedCounts(s.nodes, red, bs)), s0, truth, entries, exits, bs)
  {
    var nodes' := RedCounts(s.nodes, red, bs);
    forall n | 0 <= n < |s.nodes| && red[n]
      ensures RedTotal(bs[n]).Some? ==> RedTotal(bs[n]).value == BlockTruth(s0.edges, truth, exits, n)
    {
      RedTotalSound(|s.nodes|, s.edges, s0.edges, truth, entries, exits, bs, n);
    }
  }
}

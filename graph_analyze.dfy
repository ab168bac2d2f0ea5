/**
 * `Graph::analyze` of cov/src/graph.rs as a whole: the attribute passes
 * change nothing `propagate_counts` looks at, and the solver changes nothing
 * the attribute passes look at, so the passes compose into one statement
 * about the counts and the attributes of the analysed graph.
 */
module GraphAnalyze {
  import opened Options
  import opened Raw
  import opened GraphModel
  import F = GraphFlow
  import M = GraphMarks

  /** Two graphs that differ at most in the attributes of their blocks and arcs. */
  ghost predicate AttrsOnly(a: GraphState, b: GraphState)
  {
    b == a.(nodes := b.nodes, edges := b.edges) &&
    |b.nodes| == |a.nodes| && |b.edges| == |a.edges| &&
    (forall n :: 0 <= n < |a.nodes| ==> b.nodes[n] == a.nodes[n].(attr := b.nodes[n].attr)) &&
    (forall e :: 0 <= e < |a.edges| ==>
      b.edges[e] == a.edges[e].(weight := a.edges[e].weight.(attr := b.edges[e].weight.attr)))
  }

  /** Two arc lists whose arcs join the same blocks. */
  ghost predicate SameEnds(a: seq<Edge>, b: seq<Edge>)
  {
    |a| == |b| && forall e :: 0 <= e < |a| ==> a[e].source == b[e].source && a[e].target == b[e].target
  }

  /** The true total of a side of a block depends only on which blocks the arcs join. */
  lemma {:induction false} TrueTotalSameEnds(a: seq<Edge>, b: seq<Edge>, truth: seq<nat>, n: nat, d: F.Direction, hi: nat)
    requires SameEnds(a, b) && hi <= |a| && hi <= |truth|
    ensures F.TrueTotal(a, truth, n, d, hi) == F.TrueTotal(b, truth, n, d, hi)
  {
    if hi > 0 {
      TrueTotalSameEnds(a, b, truth, n, d, hi - 1);
    }
  }

  /** Known block counts that are true stay true when only the attributes change. */
  lemma BlocksAgreeKept(na: seq<BlockInfo>, ea: seq<Edge>, nb: seq<BlockInfo>, eb: seq<Edge>, truth: seq<nat>, exits: set<nat>)
    requires SameEnds(ea, eb) && |truth| == |ea| && |na| == |nb|
    requires forall n :: 0 <= n < |na| ==> na[n].count == nb[n].count
    requires F.BlocksAgree(na, ea, truth, exits)
    ensures F.BlocksAgree(nb, eb, truth, exits)
  {
    forall n | 0 <= n < |nb| && nb[n].count.Some?
      ensures nb[n].count.value == F.BlockTruth(eb, truth, exits, n)
    {
      TrueTotalSameEnds(ea, eb, truth, n, F.Incoming, |ea|);
      TrueTotalSameEnds(ea, eb, truth, n, F.Outgoing, |ea|);
    }
  }

  /**
   * What `propagate_counts` needs of a graph holds alike in a graph that
   * differs only in attributes: so the attribute passes that run before it
   * leave it the graph it was given.
   */
  lemma FlowFactsKept(a: GraphState, b: GraphState, truth: seq<nat>)
    requires AttrsOnly(a, b)
    requires WellFormed(a) && F.AllHaveExit(a) && F.Agrees(a.edges, truth)
    requires F.Conserves(|a.nodes|, a.edges, truth, F.EntrySet(a.functions), F.ExitSet(a.functions, a.version))
    requires F.BlocksAgree(a.nodes, a.edges, truth, F.ExitSet(a.functions, a.version))
    ensures WellFormed(b) && F.AllHaveExit(b) && F.Agrees(b.edges, truth)
    ensures F.Conserves(|b.nodes|, b.edges, truth, F.EntrySet(b.functions), F.ExitSet(b.functions, b.version))
    ensures F.BlocksAgree(b.nodes, b.edges, truth, F.ExitSet(b.functions, b.version))
  {
    assert SameEnds(a.edges, b.edges);
    forall n | 0 <= n < |b.nodes| && n !in F.EntrySet(b.functions) && n !in F.ExitSet(b.functions, b.version)
      ensures F.TrueTotal(b.edges, truth, n, F.Incoming, |b.edges|) == F.TrueTotal(b.edges, truth, n, F.Outgoing, |b.edges|)
    {
      TrueTotalSameEnds(a.edges, b.edges, truth, n, F.Incoming, |a.edges|);
      TrueTotalSameEnds(a.edges, b.edges, truth, n, F.Outgoing, |a.edges|);
    }
    BlocksAgreeKept(a.nodes, a.edges, b.nodes, b.edges, truth, F.ExitSet(a.functions, a.version));
  }

  /**
   * Reaching a block depends only on which blocks are entry blocks and on
   * the arcs' ends and attributes, not on counts.
   */
  lemma ReachableSame(na: seq<BlockInfo>, ea: seq<Edge>, nb: seq<BlockInfo>, eb: seq<Edge>, n: nat, all: bool)
    requires |na| == |nb| && forall i :: 0 <= i < |na| ==> na[i].block == nb[i].block
    requires SameEnds(ea, eb) && forall e :: 0 <= e < |ea| ==> ea[e].weight.attr == eb[e].weight.attr
    ensures M.Reachable(na, ea, n, all) <==> M.Reachable(nb, eb, n, all)
  {
    if M.Reachable(na, ea, n, all) {
      var p, a :| M.Walk(ea, p, a, all) && p[0] < |na| && IsEntryBlock(na[p[0]]) && p[|p| - 1] == n;
      assert M.Walk(eb, p, a, all);
    }
    if M.Reachable(nb, eb, n, all) {
      var p, a :| M.Walk(eb, p, a, all) && p[0] < |nb| && IsEntryBlock(nb[p[0]]) && p[|p| - 1] == n;
      assert M.Walk(ea, p, a, all);
    }
  }

  /** The arcs `mark_catch_blocks` leaves keep their `FAKE` and `FALLTHROUGH` bits. */
  lemma CatchKeepsArcFlags(n0: seq<BlockInfo>, e0: seq<Edge>, e: nat)
    requires M.EndsInRange(n0, e0) && e < |e0|
    ensures var a := e0[e].weight.attr | M.CatchArcBits(n0, e0, e);
      Has(a, ARC_ATTR_FAKE) == Has(e0[e].weight.attr, ARC_ATTR_FAKE) &&
      Has(a, ARC_ATTR_FALLTHROUGH) == Has(e0[e].weight.attr, ARC_ATTR_FALLTHROUGH)
  {
    var x, y := M.FakeBits(n0, e0, e), M.ThrowBits(n0, e0, e);
    assert x == 0 || x == ARC_ATTR_NONLOCAL_RETURN || x == ARC_ATTR_CALL_NON_RETURN;
    assert y == 0 || y == ARC_ATTR_THROW;
  }

  /** A block is a call site after `mark_catch_blocks` when it was one or it throws. */
  lemma CatchCallSite(n0: seq<BlockInfo>, e0: seq<Edge>, n: nat)
    requires n < |n0|
    ensures Has(n0[n].attr | M.CatchBits(n0, e0, n), BLOCK_ATTR_CALL_SITE) <==>
      Has(n0[n].attr, BLOCK_ATTR_CALL_SITE) || M.Throws(n0, e0, n)
  {
  }

  /** Counting the non-fake arcs sees only the arcs' sources and `FAKE` bits. */
  lemma {:induction false} NonFakeOutSameFakes(a: seq<Edge>, b: seq<Edge>, n: nat, lo: nat)
    requires |a| == |b| && forall e :: 0 <= e < |a| ==> a[e].source == b[e].source && M.IsFake(a[e]) == M.IsFake(b[e])
    ensures M.NonFakeOutFrom(a, n, lo) == M.NonFakeOutFrom(b, n, lo)
    decreases |a| - lo
  {
    if lo < |a| {
      NonFakeOutSameFakes(a, b, n, lo + 1);
    }
  }

  /** `mark_catch_blocks` leaves every arc as conditional or unconditional as it was. */
  lemma CatchKeepsUnconditional(n0: seq<BlockInfo>, e0: seq<Edge>, n1: seq<BlockInfo>, e1: seq<Edge>)
    requires M.EndsInRange(n0, e0) && M.CatchMarked(n0, e0, n1, e1)
    ensures M.EndsInRange(n1, e1)
    ensures forall e :: 0 <= e < |e1| ==> (M.Unconditional(e1, e) <==> M.Unconditional(e0, e))
    ensures forall e :: 0 <= e < |e1| ==> (Has(e1[e].weight.attr, ARC_ATTR_FALLTHROUGH) <==> Has(e0[e].weight.attr, ARC_ATTR_FALLTHROUGH))
  {
    forall e | 0 <= e < |e1|
      ensures M.IsFake(e1[e]) == M.IsFake(e0[e])
      ensures Has(e1[e].weight.attr, ARC_ATTR_FALLTHROUGH) == Has(e0[e].weight.attr, ARC_ATTR_FALLTHROUGH)
    {
      CatchKeepsArcFlags(n0, e0, e);
    }
    forall e | 0 <= e < |e1|
      ensures M.Unconditional(e1, e) <==> M.Unconditional(e0, e)
    {
      NonFakeOutSameFakes(e1, e0, e1[e].source, 0);
    }
  }

  /**
   * The call returns of `mark_unconditional_arcs`, said of the graph
   * before `mark_catch_blocks`: the targets of unconditional fall-through
   * arcs out of a block that is a call site or throws.
   */
  function CaughtCallReturns(n0: seq<BlockInfo>, e0: seq<Edge>): set<nat>
    requires M.EndsInRange(n0, e0)
  {
    set e | 0 <= e < |e0| && M.Unconditional(e0, e) && Has(e0[e].weight.attr, ARC_ATTR_FALLTHROUGH) &&
      (Has(n0[e0[e].source].attr, BLOCK_ATTR_CALL_SITE) || M.Throws(n0, e0, e0[e].source)) :: e0[e].target
  }

  /** The call returns found after `mark_catch_blocks` are `CaughtCallReturns` of the graph before it. */
  lemma CallReturnsAfterCatch(n0: seq<BlockInfo>, e0: seq<Edge>, n1: seq<BlockInfo>, e1: seq<Edge>)
    requires M.EndsInRange(n0, e0) && M.CatchMarked(n0, e0, n1, e1)
    ensures M.EndsInRange(n1, e1)
    ensures M.CallReturns(n1, e1) == CaughtCallReturns(n0, e0)
  {
    CatchKeepsUnconditional(n0, e0, n1, e1);
    forall x | x in M.CallReturns(n1, e1)
      ensures x in CaughtCallReturns(n0, e0)
    {
      var e :| 0 <= e < |e1| && M.Unconditional(e1, e) && Has(e1[e].weight.attr, ARC_ATTR_FALLTHROUGH) &&
        Has(n1[e1[e].source].attr, BLOCK_ATTR_CALL_SITE) && e1[e].target == x;
      CatchCallSite(n0, e0, e0[e].source);
    }
    forall x | x in CaughtCallReturns(n0, e0)
      ensures x in M.CallReturns(n1, e1)
    {
      var e :| 0 <= e < |e0| && M.Unconditional(e0, e) && Has(e0[e].weight.attr, ARC_ATTR_FALLTHROUGH) &&
        (Has(n0[e0[e].source].attr, BLOCK_ATTR_CALL_SITE) || M.Throws(n0, e0, e0[e].source)) && e0[e].target == x;
      CatchCallSite(n0, e0, e0[e].source);
      assert e1[e].target == x;
    }
  }

  /**
   * Arc `e` after `mark_catch_blocks` then `mark_unconditional_arcs`: it
   * gains its catch bits, and `UNCONDITIONAL` exactly when it is the sole
   * arc out of its block that is not fake.
   */
  function MarkedArc(n0: seq<BlockInfo>, e0: seq<Edge>, e: nat): Edge
    requires M.EndsInRange(n0, e0) && e < |e0|
  {
    M.WithArcBits(e0[e], M.CatchArcBits(n0, e0, e) | if M.Unconditional(e0, e) then ARC_ATTR_UNCONDITIONAL else 0)
  }

  /** Block `n` after `mark_catch_blocks` then `mark_unconditional_arcs`: its catch bits, then `CALL_RETURN` on the call returns. */
  function MarkedBlock(n0: seq<BlockInfo>, e0: seq<Edge>, n: nat): BlockInfo
    requires M.EndsInRange(n0, e0) && n < |n0|
  {
    M.WithBlockBits(n0[n], M.CatchBits(n0, e0, n) | if n in CaughtCallReturns(n0, e0) then BLOCK_ATTR_CALL_RETURN else 0)
  }

  /** The two passes compose into `MarkedArc` on every arc. */
  lemma MarkedArcs(n0: seq<BlockInfo>, e0: seq<Edge>, n1: seq<BlockInfo>, e1: seq<Edge>, n2: seq<BlockInfo>, e2: seq<Edge>)
    requires M.EndsInRange(n0, e0) && M.CatchMarked(n0, e0, n1, e1)
    requires M.EndsInRange(n1, e1) && M.UnconditionalMarked(n1, e1, n2, e2)
    ensures forall e :: 0 <= e < |e2| ==> e2[e] == MarkedArc(n0, e0, e)
  {
    CatchKeepsUnconditional(n0, e0, n1, e1);
    forall e | 0 <= e < |e2|
      ensures e2[e] == MarkedArc(n0, e0, e)
    {
      var u := if M.Unconditional(e0, e) then ARC_ATTR_UNCONDITIONAL else 0;
      assert e1[e] == M.WithArcBits(e0[e], M.CatchArcBits(n0, e0, e));
      assert e2[e] == M.WithArcBits(e1[e], u);
      M.ArcBitsTwice(e0[e], M.CatchArcBits(n0, e0, e), u);
    }
  }

  /** The two passes compose into `MarkedBlock` on every block. */
  lemma MarkedBlocks(n0: seq<BlockInfo>, e0: seq<Edge>, n1: seq<BlockInfo>, e1: seq<Edge>, n2: seq<BlockInfo>, e2: seq<Edge>)
    requires M.EndsInRange(n0, e0) && M.CatchMarked(n0, e0, n1, e1)
    requires M.EndsInRange(n1, e1) && M.UnconditionalMarked(n1, e1, n2, e2)
    ensures forall n :: 0 <= n < |n2| ==> n2[n] == MarkedBlock(n0, e0, n)
  {
    CallReturnsAfterCatch(n0, e0, n1, e1);
    forall n | 0 <= n < |n2|
      ensures n2[n] == MarkedBlock(n0, e0, n)
    {
      var c := if n in CaughtCallReturns(n0, e0) then BLOCK_ATTR_CALL_RETURN else 0;
      assert n1[n] == M.WithBlockBits(n0[n], M.CatchBits(n0, e0, n));
      assert n2[n] == M.WithBlockBits(n1[n], c);
      M.BlockBitsTwice(n0[n], M.CatchBits(n0, e0, n), c);
    }
  }

  /**
   * The arcs `analyze` leaves from `e0`: apart from the count
   * `propagate_counts` may have found, each is its `MarkedArc`.
   */
  ghost predicate ArcsAnalyzed(n0: seq<BlockInfo>, e0: seq<Edge>, e5: seq<Edge>)
    requires M.EndsInRange(n0, e0)
  {
    |e5| == |e0| &&
    forall e :: 0 <= e < |e5| ==> e5[e].(weight := e5[e].weight.(count := e0[e].weight.count)) == MarkedArc(n0, e0, e)
  }

  /**
   * The blocks `analyze` leaves from `n0`: apart from the count
   * `propagate_counts` may have found, each is its `MarkedBlock`, made
   * exceptional exactly when no walk from an entry block leads to it: over
   * every arc when `all` holds, as `mark_exceptional_blocks` is written,
   * and over arcs neither fake nor throwing otherwise, as its filter intends.
   */
  ghost predicate BlocksAnalyzed(n0: seq<BlockInfo>, e0: seq<Edge>, n5: seq<BlockInfo>, e5: seq<Edge>, all: bool)
    requires M.EndsInRange(n0, e0)
  {
    |n5| == |n0| &&
    forall n :: 0 <= n < |n5| ==>
      n5[n].(count := n0[n].count) ==
      MarkedBlock(n0, e0, n).(attr := M.ExceptionalAttr(MarkedBlock(n0, e0, n).attr, M.Reachable(n5, e5, n, all)))
  }

  /** The three attribute passes before `propagate_counts` change only attributes. */
  lemma MarksAttrsOnly(s0: GraphState, s1: GraphState, s2: GraphState, s3: GraphState, all: bool)
    requires M.EndsInRange(s0.nodes, s0.edges) && M.EndsInRange(s1.nodes, s1.edges)
    requires s1 == s0.(nodes := s1.nodes, edges := s1.edges) && M.CatchMarked(s0.nodes, s0.edges, s1.nodes, s1.edges)
    requires s2 == s1.(nodes := s2.nodes, edges := s2.edges) && M.UnconditionalMarked(s1.nodes, s1.edges, s2.nodes, s2.edges)
    requires s3 == s2.(nodes := s3.nodes) && M.ExceptionalMarked(s2.nodes, s2.edges, s3.nodes, all)
    ensures AttrsOnly(s0, s3)
  {
    forall n | 0 <= n < |s0.nodes|
      ensures s3.nodes[n] == s0.nodes[n].(attr := s3.nodes[n].attr)
    {
      assert s2.nodes[n] == s0.nodes[n].(attr := s2.nodes[n].attr);
    }
    forall e | 0 <= e < |s0.edges|
      ensures s3.edges[e] == s0.edges[e].(weight := s0.edges[e].weight.(attr := s3.edges[e].weight.attr))
    {
      assert s1.edges[e] == s0.edges[e].(weight := s0.edges[e].weight.(attr := s1.edges[e].weight.attr));
    }
  }

  /**
   * The arcs `analyze` leaves: apart from the count `propagate_counts`
   * may have found, each arc gains its catch bits and `UNCONDITIONAL`
   * exactly when it is the sole arc out of its block that is not fake.
   */
  lemma AnalyzedArcs(s0: GraphState, s1: GraphState, s2: GraphState, s3: GraphState, s4: GraphState, s5: GraphState,
                     truth: seq<nat>, exits: set<nat>)
    requires M.EndsInRange(s0.nodes, s0.edges) && M.EndsInRange(s1.nodes, s1.edges)
    requires M.CatchMarked(s0.nodes, s0.edges, s1.nodes, s1.edges)
    requires M.UnconditionalMarked(s1.nodes, s1.edges, s2.nodes, s2.edges)
    requires s3.edges == s2.edges && F.CountsTrue(s4, s3, truth, exits) && s5.edges == s4.edges
    ensures ArcsAnalyzed(s0.nodes, s0.edges, s5.edges)
  {
    MarkedArcs(s0.nodes, s0.edges, s1.nodes, s1.edges, s2.nodes, s2.edges);
  }

  /**
   * The blocks `analyze` leaves: apart from the count `propagate_counts`
   * may have found, each block gains its catch bits and `CALL_RETURN` on
   * the call returns, and is exceptional exactly when no walk that
   * `all` lets it follow leads to it from an entry block; the first run of
   * `mark_exceptional_blocks` leaves no trace.
   */
  lemma AnalyzedBlocks(s0: GraphState, s1: GraphState, s2: GraphState, s3: GraphState, s4: GraphState, s5: GraphState,
                       truth: seq<nat>, exits: set<nat>, all: bool)
    requires M.EndsInRange(s0.nodes, s0.edges) && M.EndsInRange(s1.nodes, s1.edges)
    requires M.CatchMarked(s0.nodes, s0.edges, s1.nodes, s1.edges)
    requires M.UnconditionalMarked(s1.nodes, s1.edges, s2.nodes, s2.edges)
    requires s3.edges == s2.edges && M.ExceptionalMarked(s2.nodes, s2.edges, s3.nodes, all)
    requires F.CountsTrue(s4, s3, truth, exits)
    requires s5.edges == s4.edges && M.ExceptionalMarked(s4.nodes, s4.edges, s5.nodes, all)
    ensures BlocksAnalyzed(s0.nodes, s0.edges, s5.nodes, s5.edges, all)
  {
    MarkedBlocks(s0.nodes, s0.edges, s1.nodes, s1.edges, s2.nodes, s2.edges);
    forall n | 0 <= n < |s5.nodes|
      ensures s5.nodes[n].(count := s0.nodes[n].count) ==
        MarkedBlock(s0.nodes, s0.edges, n).(attr := M.ExceptionalAttr(MarkedBlock(s0.nodes, s0.edges, n).attr, M.Reachable(s5.nodes, s5.edges, n, all)))
    {
      var b := MarkedBlock(s0.nodes, s0.edges, n);
      assert s2.nodes[n] == b;
      var first := M.Reachable(s2.nodes, s2.edges, n, all);
      var second := M.Reachable(s4.nodes, s4.edges, n, all);
      assert s3.nodes[n] == b.(attr := M.ExceptionalAttr(b.attr, first));
      assert s4.nodes[n] == b.(count := s4.nodes[n].count, attr := M.ExceptionalAttr(b.attr, first));
      M.ExceptionalAgain(b.attr, first, second);
      ReachableSame(s4.nodes, s4.edges, s5.nodes, s5.edges, n, all);
    }
  }

  /**
   * The counts `analyze` leaves: every known count is the true one, and
   * every count known before is kept.
   */
  lemma AnalyzedCounts(s0: GraphState, s3: GraphState, s4: GraphState, s5: GraphState, truth: seq<nat>, exits: set<nat>, all: bool)
    requires AttrsOnly(s0, s3) && F.CountsTrue(s4, s3, truth, exits)
    requires s5.edges == s4.edges && M.ExceptionalMarked(s4.nodes, s4.edges, s5.nodes, all)
    ensures |s5.edges| == |s0.edges| && |s5.nodes| == |s0.nodes|
    ensures F.Agrees(s5.edges, truth) && F.BlocksAgree(s5.nodes, s5.edges, truth, exits)
    ensures forall e :: 0 <= e < |s5.edges| && s0.edges[e].weight.count.Some? ==> s5.edges[e].weight.count == s0.edges[e].weight.count
    ensures forall n :: 0 <= n < |s5.nodes| && s0.nodes[n].count.Some? ==> s5.nodes[n].count == s0.nodes[n].count
  {
    assert SameEnds(s3.edges, s5.edges);
    BlocksAgreeKept(s4.nodes, s3.edges, s5.nodes, s5.edges, truth, exits);
    forall e | 0 <= e < |s5.edges|
      ensures s3.edges[e].weight.count == s0.edges[e].weight.count
    {
      assert s3.edges[e] == s0.edges[e].(weight := s0.edges[e].weight.(attr := s3.edges[e].weight.attr));
    }
    forall n | 0 <= n < |s5.nodes|
      ensures s3.nodes[n].count == s0.nodes[n].count
    {
      assert s3.nodes[n] == s0.nodes[n].(attr := s3.nodes[n].attr);
    }
  }
}

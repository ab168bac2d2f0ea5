/**
 * What the attribute passes of `Graph::analyze` (cov/src/graph.rs) compute:
 * `mark_catch_blocks`, `mark_unconditional_arcs` and
 * `mark_exceptional_blocks`, each stated as the bits it adds to every arc
 * and block of the graph, with the facts that say what those bits mean.
 */
module GraphMarks {
  import opened Options
  import opened Raw
  import opened GraphModel

  /** An arc with the attribute bits `bits` added. */
  function WithArcBits(e: Edge, bits: ArcAttr): Edge
  {
    e.(weight := e.weight.(attr := e.weight.attr | bits))
  }

  /** A block with the attribute bits `bits` added. */
  function WithBlockBits(b: BlockInfo, bits: BlockAttr): BlockInfo
  {
    b.(attr := b.attr | bits)
  }

  /** Adding bits twice adds their union. */
  lemma ArcBitsTwice(e: Edge, x: ArcAttr, y: ArcAttr)
    ensures WithArcBits(WithArcBits(e, x), y) == WithArcBits(e, x | y)
  {
  }

  lemma BlockBitsTwice(b: BlockInfo, x: BlockAttr, y: BlockAttr)
    ensures WithBlockBits(WithBlockBits(b, x), y) == WithBlockBits(b, x | y)
  {
  }

  predicate IsFake(e: Edge)
  {
    Has(e.weight.attr, ARC_ATTR_FAKE)
  }

  /** Every arc joins two blocks of the graph. */
  predicate EndsInRange(nodes: seq<BlockInfo>, edges: seq<Edge>)
  {
    forall e :: 0 <= e < |edges| ==> edges[e].source < |nodes| && edges[e].target < |nodes|
  }

  // mark_catch_blocks

  /** The number of fake arcs leaving block `n` among the arcs from `lo` on. */
  function FakeOutFrom(edges: seq<Edge>, n: nat, lo: nat): nat
    decreases |edges| - lo
  {
    if lo >= |edges| then 0
    else (if edges[lo].source == n && IsFake(edges[lo]) then 1 else 0) + FakeOutFrom(edges, n, lo + 1)
  }

  /** Whether a fake arc from `src` to `n` is among the arcs from `lo` on. */
  function FakeArcTo(edges: seq<Edge>, src: nat, n: nat, lo: nat): bool
    decreases |edges| - lo
  {
    if lo >= |edges| then false
    else (edges[lo].source == src && edges[lo].target == n && IsFake(edges[lo])) || FakeArcTo(edges, src, n, lo + 1)
  }

  /** A block that may throw: not an entry block, and left by a fake arc. */
  predicate Throws(nodes: seq<BlockInfo>, edges: seq<Edge>, n: nat)
    requires n < |nodes|
  {
    !IsEntryBlock(nodes[n]) && FakeOutFrom(edges, n, 0) > 0
  }

  /**
   * The bits the fake arcs get in `mark_catch_blocks`: a fake arc out of an
   * entry block is a non-local return, any other fake arc a call that does
   * not return.
   */
  function FakeBits(nodes: seq<BlockInfo>, edges: seq<Edge>, e: nat): ArcAttr
    requires e < |edges| && edges[e].source < |nodes|
  {
    if !IsFake(edges[e]) then 0
    else if IsEntryBlock(nodes[edges[e].source]) then ARC_ATTR_NONLOCAL_RETURN
    else ARC_ATTR_CALL_NON_RETURN
  }

  /** The arcs of a throwing block that are neither fake nor fall-through are throws. */
  function ThrowBits(nodes: seq<BlockInfo>, edges: seq<Edge>, e: nat): ArcAttr
    requires e < |edges| && edges[e].source < |nodes|
  {
    if Throws(nodes, edges, edges[e].source) && edges[e].weight.attr & (ARC_ATTR_FAKE | ARC_ATTR_FALLTHROUGH) == 0
    then ARC_ATTR_THROW else 0
  }

  /** The bits `mark_catch_blocks` adds to arc `e`. */
  function CatchArcBits(nodes: seq<BlockInfo>, edges: seq<Edge>, e: nat): ArcAttr
    requires e < |edges| && edges[e].source < |nodes|
  {
    FakeBits(nodes, edges, e) | ThrowBits(nodes, edges, e)
  }

  /**
   * The bits handling block `src` adds to block `n`, counting only the arcs
   * from `lo` on: the targets of the fake arcs of an entry block are
   * non-local returns, and a throwing block is a call site.
   */
  function CatchBlockBitsFrom(nodes: seq<BlockInfo>, edges: seq<Edge>, src: nat, n: nat, lo: nat): BlockAttr
    requires src < |nodes|
  {
    (if IsEntryBlock(nodes[src]) && FakeArcTo(edges, src, n, lo) then BLOCK_ATTR_NONLOCAL_RETURN else 0) |
    (if n == src && !IsEntryBlock(nodes[src]) && FakeOutFrom(edges, src, lo) > 0 then BLOCK_ATTR_CALL_SITE else 0)
  }

  /** The bits handling block `src` adds to block `n`. */
  function CatchBlockBits(nodes: seq<BlockInfo>, edges: seq<Edge>, src: nat, n: nat): BlockAttr
    requires src < |nodes|
  {
    CatchBlockBitsFrom(nodes, edges, src, n, 0)
  }

  /** The bits handling block `src` adds to arc `k`, counting only the fake arcs from `lo` on. */
  function FakeBitsFrom(nodes: seq<BlockInfo>, edges: seq<Edge>, src: nat, k: nat, lo: nat): ArcAttr
    requires src < |nodes| && k < |edges|
  {
    if lo <= k && edges[k].source == src && IsFake(edges[k]) then
      (if IsEntryBlock(nodes[src]) then ARC_ATTR_NONLOCAL_RETURN else ARC_ATTR_CALL_NON_RETURN)
    else 0
  }

  /** `es` is `edges` once the fake arcs of `src` from `lo` on are handled. */
  ghost predicate FakeArcsMarked(nodes: seq<BlockInfo>, edges: seq<Edge>, src: nat, lo: nat, es: seq<Edge>)
    requires src < |nodes|
  {
    |es| == |edges| && forall k :: 0 <= k < |es| ==> es[k] == WithArcBits(edges[k], FakeBitsFrom(nodes, edges, src, k, lo))
  }

  /** `ns` is `nodes` once the fake arcs of `src` from `lo` on are handled. */
  ghost predicate FakeBlocksMarked(nodes: seq<BlockInfo>, edges: seq<Edge>, src: nat, lo: nat, ns: seq<BlockInfo>)
    requires src < |nodes|
  {
    |ns| == |nodes| && forall n :: 0 <= n < |ns| ==> ns[n] == WithBlockBits(nodes[n], CatchBlockBitsFrom(nodes, edges, src, n, lo))
  }

  /** Before any arc is handled, nothing has changed. */
  lemma FakeMarkedStart(nodes: seq<BlockInfo>, edges: seq<Edge>, src: nat)
    requires src < |nodes|
    ensures FakeArcsMarked(nodes, edges, src, |edges|, edges) && FakeBlocksMarked(nodes, edges, src, |edges|, nodes)
  {
  }

  /** Handling one more arc: a fake arc of `src` gets the bit its block calls for. */
  lemma FakeArcStep(nodes: seq<BlockInfo>, edges: seq<Edge>, src: nat, lo: nat, es: seq<Edge>)
    requires src < |nodes| && lo < |edges| && FakeArcsMarked(nodes, edges, src, lo + 1, es)
    ensures edges[lo].source == src && IsFake(edges[lo]) ==>
      var arcBit := if IsEntryBlock(nodes[src]) then ARC_ATTR_NONLOCAL_RETURN else ARC_ATTR_CALL_NON_RETURN;
      FakeArcsMarked(nodes, edges, src, lo, es[lo := WithArcBits(es[lo], arcBit)])
    ensures !(edges[lo].source == src && IsFake(edges[lo])) ==> FakeArcsMarked(nodes, edges, src, lo, es)
  {
    if edges[lo].source == src && IsFake(edges[lo]) {
      var arcBit := if IsEntryBlock(nodes[src]) then ARC_ATTR_NONLOCAL_RETURN else ARC_ATTR_CALL_NON_RETURN;
      ArcBitsTwice(edges[lo], 0, arcBit);
    }
  }

  /**
   * Handling one more arc: a fake arc of `src` marks its target (out of an
   * entry block) or `src` (out of any other block).
   */
  lemma FakeBlockStep(nodes: seq<BlockInfo>, edges: seq<Edge>, src: nat, lo: nat, ns: seq<BlockInfo>)
    requires src < |nodes| && lo < |edges| && EndsInRange(nodes, edges)
    requires FakeBlocksMarked(nodes, edges, src, lo + 1, ns)
    ensures edges[lo].source == src && IsFake(edges[lo]) ==>
      var entry := IsEntryBlock(nodes[src]);
      var ni := if entry then edges[lo].target else src;
      var blockBit := if entry then BLOCK_ATTR_NONLOCAL_RETURN else BLOCK_ATTR_CALL_SITE;
      FakeBlocksMarked(nodes, edges, src, lo, ns[ni := WithBlockBits(ns[ni], blockBit)])
    ensures !(edges[lo].source == src && IsFake(edges[lo])) ==> FakeBlocksMarked(nodes, edges, src, lo, ns)
  {
    var entry := IsEntryBlock(nodes[src]);
    if edges[lo].source == src && IsFake(edges[lo]) {
      var ni := if entry then edges[lo].target else src;
      var blockBit := if entry then BLOCK_ATTR_NONLOCAL_RETURN else BLOCK_ATTR_CALL_SITE;
      var ns' := ns[ni := WithBlockBits(ns[ni], blockBit)];
      forall n | 0 <= n < |ns'|
        ensures ns'[n] == WithBlockBits(nodes[n], CatchBlockBitsFrom(nodes, edges, src, n, lo))
      {
        if n == ni {
          assert CatchBlockBitsFrom(nodes, edges, src, n, lo) == CatchBlockBitsFrom(nodes, edges, src, n, lo + 1) | blockBit;
          BlockBitsTwice(nodes[n], CatchBlockBitsFrom(nodes, edges, src, n, lo + 1), blockBit);
        } else {
          assert CatchBlockBitsFrom(nodes, edges, src, n, lo) == CatchBlockBitsFrom(nodes, edges, src, n, lo + 1);
        }
      }
    } else {
      forall n | 0 <= n < |ns|
        ensures CatchBlockBitsFrom(nodes, edges, src, n, lo) == CatchBlockBitsFrom(nodes, edges, src, n, lo + 1)
      {
      }
    }
  }

  /** Whether one of the first `k` blocks is an entry block with a fake arc to `n`. */
  function NonlocalBelow(nodes: seq<BlockInfo>, edges: seq<Edge>, n: nat, k: nat): bool
    requires k <= |nodes|
  {
    k > 0 && (NonlocalBelow(nodes, edges, n, k - 1) || (IsEntryBlock(nodes[k - 1]) && FakeArcTo(edges, k - 1, n, 0)))
  }

  /** The bits the rounds for the first `k` blocks add to block `n`. */
  function CatchBitsBelow(nodes: seq<BlockInfo>, edges: seq<Edge>, n: nat, k: nat): BlockAttr
    requires n < |nodes| && k <= |nodes|
  {
    (if NonlocalBelow(nodes, edges, n, k) then BLOCK_ATTR_NONLOCAL_RETURN else 0) |
    (if n < k && Throws(nodes, edges, n) then BLOCK_ATTR_CALL_SITE else 0)
  }

  /**
   * The bits `mark_catch_blocks` adds to block `n`: non-local return when a
   * fake arc of an entry block leads to it, call site when it throws.
   */
  function CatchBits(nodes: seq<BlockInfo>, edges: seq<Edge>, n: nat): BlockAttr
    requires n < |nodes|
  {
    CatchBitsBelow(nodes, edges, n, |nodes|)
  }

  /** `mark_catch_blocks` took `n0`, `e0` to `n1`, `e1`. */
  ghost predicate CatchMarked(n0: seq<BlockInfo>, e0: seq<Edge>, n1: seq<BlockInfo>, e1: seq<Edge>)
    requires EndsInRange(n0, e0)
  {
    |n1| == |n0| && |e1| == |e0| &&
    (forall e :: 0 <= e < |e1| ==> e1[e] == WithArcBits(e0[e], CatchArcBits(n0, e0, e))) &&
    (forall n :: 0 <= n < |n1| ==> n1[n] == WithBlockBits(n0[n], CatchBits(n0, e0, n)))
  }

  /** `es` is `edges` once the rounds for the first `k` blocks are done. */
  ghost predicate ArcsCaughtBelow(nodes: seq<BlockInfo>, edges: seq<Edge>, k: nat, es: seq<Edge>)
    requires EndsInRange(nodes, edges)
  {
    |es| == |edges| &&
    forall e :: 0 <= e < |es| ==> es[e] == WithArcBits(edges[e], if edges[e].source < k then CatchArcBits(nodes, edges, e) else 0)
  }

  /** `ns` is `nodes` once the rounds for the first `k` blocks are done. */
  ghost predicate BlocksCaughtBelow(nodes: seq<BlockInfo>, edges: seq<Edge>, k: nat, ns: seq<BlockInfo>)
    requires k <= |nodes|
  {
    |ns| == |nodes| &&
    forall n :: 0 <= n < |ns| ==> ns[n] == WithBlockBits(nodes[n], CatchBitsBelow(nodes, edges, n, k))
  }

  /** `es'` is `es` after the round for block `src`. */
  ghost predicate ArcsCaughtFrom(ns: seq<BlockInfo>, es: seq<Edge>, src: nat, es': seq<Edge>)
    requires EndsInRange(ns, es)
  {
    |es'| == |es| &&
    forall e :: 0 <= e < |es| ==> es'[e] == WithArcBits(es[e], if es[e].source == src then CatchArcBits(ns, es, e) else 0)
  }

  /** `ns'` is `ns` after the round for block `src`. */
  ghost predicate BlocksCaughtFrom(ns: seq<BlockInfo>, es: seq<Edge>, src: nat, ns': seq<BlockInfo>)
    requires src < |ns|
  {
    |ns'| == |ns| &&
    forall n :: 0 <= n < |ns| ==> ns'[n] == WithBlockBits(ns[n], CatchBlockBits(ns, es, src, n))
  }

  /** After the rounds for the blocks below `k`, every arc still joins two existing blocks. */
  lemma CaughtEnds(nodes: seq<BlockInfo>, edges: seq<Edge>, k: nat, ns: seq<BlockInfo>, es: seq<Edge>)
    requires EndsInRange(nodes, edges) && k <= |nodes|
    requires ArcsCaughtBelow(nodes, edges, k, es) && BlocksCaughtBelow(nodes, edges, k, ns)
    ensures EndsInRange(ns, es) && |ns| == |nodes|
  {
    CatchBelowEnds(nodes, edges, k, ns, es);
  }

  /** The round for block `src`, run after those below it, completes the rounds below `src + 1`. */
  lemma CatchRound(nodes: seq<BlockInfo>, edges: seq<Edge>, src: nat, ns: seq<BlockInfo>, es: seq<Edge>, ns': seq<BlockInfo>, es': seq<Edge>)
    requires EndsInRange(nodes, edges) && src < |nodes| && EndsInRange(ns, es) && src < |ns|
    requires ArcsCaughtBelow(nodes, edges, src, es) && BlocksCaughtBelow(nodes, edges, src, ns)
    requires ArcsCaughtFrom(ns, es, src, es') && BlocksCaughtFrom(ns, es, src, ns')
    ensures ArcsCaughtBelow(nodes, edges, src + 1, es') && BlocksCaughtBelow(nodes, edges, src + 1, ns')
  {
    CatchBelowEnds(nodes, edges, src, ns, es);
    CatchTestsUntouched(nodes, edges, src, ns, es);
    CatchRoundArcs(nodes, edges, src, ns, es, es');
    CatchRoundBlocks(nodes, edges, src, ns, es, ns');
  }

  /** The rounds only add attribute bits, so every arc still joins the same two blocks. */
  lemma CatchBelowEnds(nodes: seq<BlockInfo>, edges: seq<Edge>, k: nat, ns: seq<BlockInfo>, es: seq<Edge>)
    requires EndsInRange(nodes, edges) && k <= |nodes|
    requires ArcsCaughtBelow(nodes, edges, k, es) && BlocksCaughtBelow(nodes, edges, k, ns)
    ensures EndsInRange(ns, es)
    ensures forall e :: 0 <= e < |es| ==> es[e].source == edges[e].source && es[e].target == edges[e].target
    ensures forall e :: 0 <= e < |es| && edges[e].source >= k ==> es[e] == edges[e]
    ensures forall n :: 0 <= n < |ns| ==> IsEntryBlock(ns[n]) == IsEntryBlock(nodes[n])
  {
  }

  /**
   * The tests of the round for block `src` read only the arcs leaving
   * `src`, which no earlier round touched.
   */
  lemma CatchTestsUntouched(nodes: seq<BlockInfo>, edges: seq<Edge>, src: nat, ns: seq<BlockInfo>, es: seq<Edge>)
    requires EndsInRange(nodes, edges) && EndsInRange(ns, es) && src < |nodes| && |ns| == |nodes| && |es| == |edges|
    requires forall e :: 0 <= e < |es| ==> es[e].source == edges[e].source
    requires forall e :: 0 <= e < |es| && edges[e].source >= src ==> es[e] == edges[e]
    requires forall n :: 0 <= n < |ns| ==> IsEntryBlock(ns[n]) == IsEntryBlock(nodes[n])
    ensures forall e :: 0 <= e < |es| && edges[e].source == src ==> CatchArcBits(ns, es, e) == CatchArcBits(nodes, edges, e)
    ensures forall n :: CatchBlockBits(ns, es, src, n) == CatchBlockBits(nodes, edges, src, n)
  {
    FakeOnlyOwnArcs(es, edges, src, 0);
  }

  /** The arcs after the round for block `src`. */
  lemma CatchRoundArcs(nodes: seq<BlockInfo>, edges: seq<Edge>, src: nat, ns: seq<BlockInfo>, es: seq<Edge>, es': seq<Edge>)
    requires EndsInRange(nodes, edges) && EndsInRange(ns, es) && src < |nodes|
    requires ArcsCaughtBelow(nodes, edges, src, es) && ArcsCaughtFrom(ns, es, src, es')
    requires forall e :: 0 <= e < |es| ==> es[e].source == edges[e].source
    requires forall e :: 0 <= e < |es| && edges[e].source == src ==> CatchArcBits(ns, es, e) == CatchArcBits(nodes, edges, e)
    ensures ArcsCaughtBelow(nodes, edges, src + 1, es')
  {
    forall e | 0 <= e < |es|
      ensures es'[e] == WithArcBits(edges[e], if edges[e].source < src + 1 then CatchArcBits(nodes, edges, e) else 0)
    {
      if edges[e].source == src {
        ArcBitsTwice(edges[e], 0, CatchArcBits(nodes, edges, e));
      }
    }
  }

  /** The blocks after the round for block `src`. */
  lemma CatchRoundBlocks(nodes: seq<BlockInfo>, edges: seq<Edge>, src: nat, ns: seq<BlockInfo>, es: seq<Edge>, ns': seq<BlockInfo>)
    requires src < |nodes| && BlocksCaughtBelow(nodes, edges, src, ns) && BlocksCaughtFrom(ns, es, src, ns')
    requires forall n :: CatchBlockBits(ns, es, src, n) == CatchBlockBits(nodes, edges, src, n)
    ensures BlocksCaughtBelow(nodes, edges, src + 1, ns')
  {
    forall n | 0 <= n < |ns|
      ensures ns'[n] == WithBlockBits(nodes[n], CatchBitsBelow(nodes, edges, n, src + 1))
    {
      assert CatchBitsBelow(nodes, edges, n, src + 1) == CatchBitsBelow(nodes, edges, n, src) | CatchBlockBits(nodes, edges, src, n);
      BlockBitsTwice(nodes[n], CatchBitsBelow(nodes, edges, n, src), CatchBlockBits(nodes, edges, src, n));
    }
  }

  /**
   * The round for block `src` is the fake-arc pass followed, for a block
   * that throws, by the throw pass: the fake-arc bits leave the fake and
   * fall-through bits the throw pass tests as they were.
   */
  lemma CatchRoundCompose(nodes: seq<BlockInfo>, edges: seq<Edge>, src: nat, mid: seq<Edge>, es: seq<Edge>)
    requires EndsInRange(nodes, edges) && src < |nodes| && FakeArcsMarked(nodes, edges, src, 0, mid) && |es| == |mid|
    requires Throws(nodes, edges, src) ==>
      forall e :: 0 <= e < |es| ==>
        es[e] == WithArcBits(mid[e],
          if mid[e].source == src && mid[e].weight.attr & (ARC_ATTR_FAKE | ARC_ATTR_FALLTHROUGH) == 0
          then ARC_ATTR_THROW else 0)
    requires !Throws(nodes, edges, src) ==> es == mid
    ensures ArcsCaughtFrom(nodes, edges, src, es)
  {
    forall e | 0 <= e < |es|
      ensures es[e] == WithArcBits(edges[e], if edges[e].source == src then CatchArcBits(nodes, edges, e) else 0)
    {
      var fb := FakeBitsFrom(nodes, edges, src, e, 0);
      assert mid[e] == WithArcBits(edges[e], fb);
      if edges[e].source != src {
        assert fb == 0;
        if Throws(nodes, edges, src) {
          assert es[e] == WithArcBits(mid[e], 0);
        }
      } else if Throws(nodes, edges, src) {
        var tb := if edges[e].weight.attr & (ARC_ATTR_FAKE | ARC_ATTR_FALLTHROUGH) == 0 then ARC_ATTR_THROW else 0;
        assert mid[e].weight.attr & (ARC_ATTR_FAKE | ARC_ATTR_FALLTHROUGH) == edges[e].weight.attr & (ARC_ATTR_FAKE | ARC_ATTR_FALLTHROUGH);
        assert es[e] == WithArcBits(mid[e], tb);
        ArcBitsTwice(edges[e], fb, tb);
        assert CatchArcBits(nodes, edges, e) == fb | tb;
      } else {
        assert CatchArcBits(nodes, edges, e) == fb;
      }
    }
  }

  /** The fake-arc counts and tests look only at the arcs leaving the block asked about. */
  lemma {:induction false} FakeOnlyOwnArcs(a: seq<Edge>, b: seq<Edge>, src: nat, lo: nat)
    requires |a| == |b| && forall e :: 0 <= e < |a| ==> a[e].source == b[e].source
    requires forall e :: 0 <= e < |a| && a[e].source == src ==> a[e] == b[e]
    ensures FakeOutFrom(a, src, lo) == FakeOutFrom(b, src, lo)
    ensures forall n :: FakeArcTo(a, src, n, lo) == FakeArcTo(b, src, n, lo)
    decreases |a| - lo
  {
    if lo < |a| {
      FakeOnlyOwnArcs(a, b, src, lo + 1);
    }
  }

  /** A block counts a fake arc leaving it exactly when it has one. */
  lemma {:induction false} FakeOutMeaning(edges: seq<Edge>, n: nat, lo: nat)
    ensures FakeOutFrom(edges, n, lo) > 0 <==> exists e :: lo <= e < |edges| && edges[e].source == n && IsFake(edges[e])
    decreases |edges| - lo
  {
    if lo < |edges| {
      FakeOutMeaning(edges, n, lo + 1);
    }
  }

  /** `FakeArcTo` finds exactly the fake arcs from `src` to `n`. */
  lemma {:induction false} FakeArcToMeaning(edges: seq<Edge>, src: nat, n: nat, lo: nat)
    ensures FakeArcTo(edges, src, n, lo) <==>
      exists e :: lo <= e < |edges| && edges[e].source == src && edges[e].target == n && IsFake(edges[e])
    decreases |edges| - lo
  {
    if lo < |edges| {
      FakeArcToMeaning(edges, src, n, lo + 1);
    }
  }

  /**
   * A block becomes a non-local return exactly when a fake arc from an
   * entry block (among the first `k`) leads to it.
   */
  lemma {:induction false} NonlocalMeaning(nodes: seq<BlockInfo>, edges: seq<Edge>, n: nat, k: nat)
    requires k <= |nodes| && EndsInRange(nodes, edges)
    ensures NonlocalBelow(nodes, edges, n, k) <==>
      exists e :: 0 <= e < |edges| && edges[e].source < k && edges[e].target == n && IsFake(edges[e]) &&
        IsEntryBlock(nodes[edges[e].source])
  {
    if k > 0 {
      NonlocalMeaning(nodes, edges, n, k - 1);
      FakeArcToMeaning(edges, k - 1, n, 0);
    }
  }

  // mark_unconditional_arcs

  /** The number of arcs leaving block `n` that are not fake, among the arcs from `lo` on. */
  function NonFakeOutFrom(edges: seq<Edge>, n: nat, lo: nat): nat
    decreases |edges| - lo
  {
    if lo >= |edges| then 0
    else (if edges[lo].source == n && !IsFake(edges[lo]) then 1 else 0) + NonFakeOutFrom(edges, n, lo + 1)
  }

  /** An arc is unconditional when it is the only arc leaving its block that is not fake. */
  predicate Unconditional(edges: seq<Edge>, e: nat)
    requires e < |edges|
  {
    !IsFake(edges[e]) && NonFakeOutFrom(edges, edges[e].source, 0) == 1
  }

  /** The arcs from `lo` on are counted within the arcs from any earlier `lo'` on. */
  lemma {:induction false} NonFakeOutMonotone(edges: seq<Edge>, n: nat, lo': nat, lo: nat)
    requires lo' <= lo
    ensures NonFakeOutFrom(edges, n, lo') >= NonFakeOutFrom(edges, n, lo)
    decreases lo - lo'
  {
    if lo' < lo {
      NonFakeOutMonotone(edges, n, lo' + 1, lo);
    }
  }

  /** Each non-fake arc leaving `n` at or after `lo` is counted. */
  lemma {:induction false} NonFakeOutCounts(edges: seq<Edge>, n: nat, lo: nat, e: nat)
    requires lo <= e < |edges| && edges[e].source == n && !IsFake(edges[e])
    ensures NonFakeOutFrom(edges, n, lo) >= 1
    ensures NonFakeOutFrom(edges, n, lo) == 1 ==>
      forall e' :: lo <= e' < |edges| && edges[e'].source == n && !IsFake(edges[e']) ==> e' == e
    decreases |edges| - lo
  {
    if lo < e {
      NonFakeOutCounts(edges, n, lo + 1, e);
    } else {
      NonFakeOutNone(edges, n, lo + 1);
    }
  }

  /** No arc is counted when the count is zero. */
  lemma {:induction false} NonFakeOutNone(edges: seq<Edge>, n: nat, lo: nat)
    ensures NonFakeOutFrom(edges, n, lo) == 0 ==>
      forall e :: lo <= e < |edges| ==> !(edges[e].source == n && !IsFake(edges[e]))
    decreases |edges| - lo
  {
    if lo < |edges| {
      NonFakeOutNone(edges, n, lo + 1);
    }
  }

  /**
   * The unconditional arcs are exactly the arcs that are the single non-fake
   * arc of their block: an unconditional arc has no non-fake sibling.
   */
  lemma UnconditionalSole(edges: seq<Edge>, e: nat, e': nat)
    requires e < |edges| && e' < |edges| && Unconditional(edges, e)
    requires edges[e'].source == edges[e].source && !IsFake(edges[e'])
    ensures e' == e
  {
    NonFakeOutCounts(edges, edges[e].source, 0, e);
  }

  /** An arc with a non-fake sibling is not unconditional. */
  lemma TwoArcsConditional(edges: seq<Edge>, e: nat, e': nat)
    requires e < |edges| && e' < |edges| && e != e'
    requires edges[e'].source == edges[e].source && !IsFake(edges[e']) && !IsFake(edges[e])
    ensures !Unconditional(edges, e) && !Unconditional(edges, e')
  {
    if Unconditional(edges, e) {
      UnconditionalSole(edges, e, e');
    }
    if Unconditional(edges, e') {
      UnconditionalSole(edges, e', e);
    }
  }

  /** The blocks `mark_unconditional_arcs` makes call returns: reached by an unconditional fall-through arc from a call site. */
  function CallReturns(nodes: seq<BlockInfo>, edges: seq<Edge>): set<nat>
    requires EndsInRange(nodes, edges)
  {
    set e | 0 <= e < |edges| && Unconditional(edges, e) && Has(edges[e].weight.attr, ARC_ATTR_FALLTHROUGH) &&
      Has(nodes[edges[e].source].attr, BLOCK_ATTR_CALL_SITE) :: edges[e].target
  }

  /** `mark_unconditional_arcs` took `n1`, `e1` to `n2`, `e2`. */
  ghost predicate UnconditionalMarked(n1: seq<BlockInfo>, e1: seq<Edge>, n2: seq<BlockInfo>, e2: seq<Edge>)
    requires EndsInRange(n1, e1)
  {
    |n2| == |n1| && |e2| == |e1| &&
    (forall e :: 0 <= e < |e2| ==>
      e2[e] == WithArcBits(e1[e], if Unconditional(e1, e) then ARC_ATTR_UNCONDITIONAL else 0)) &&
    (forall n :: 0 <= n < |n2| ==>
      n2[n] == WithBlockBits(n1[n], if n in CallReturns(n1, e1) then BLOCK_ATTR_CALL_RETURN else 0))
  }

  /** The list `mark_unconditional_arcs` collects: (source, target, arc, attributes) of unconditional arcs. */
  ghost predicate ListsUnconditional(edges: seq<Edge>, found: seq<(nat, nat, nat, ArcAttr)>)
  {
    forall j :: 0 <= j < |found| ==>
      found[j].2 < |edges| && Unconditional(edges, found[j].2) &&
      found[j] == (edges[found[j].2].source, edges[found[j].2].target, found[j].2, edges[found[j].2].weight.attr)
  }

  /** Whether arc `e` is among the first `j` listed. */
  function Listed(found: seq<(nat, nat, nat, ArcAttr)>, j: nat, e: nat): bool
    requires j <= |found|
  {
    j > 0 && (found[j - 1].2 == e || Listed(found, j - 1, e))
  }

  /** Whether one of the first `j` listed arcs falls through from a call site into `n`. */
  function ReturnListed(nodes: seq<BlockInfo>, found: seq<(nat, nat, nat, ArcAttr)>, j: nat, n: nat): bool
    requires j <= |found| && forall i :: 0 <= i < |found| ==> found[i].0 < |nodes|
  {
    j > 0 &&
    ((Has(found[j - 1].3, ARC_ATTR_FALLTHROUGH) && Has(nodes[found[j - 1].0].attr, BLOCK_ATTR_CALL_SITE) && found[j - 1].1 == n) ||
     ReturnListed(nodes, found, j - 1, n))
  }

  /** `es` and `ns` are `edges` and `nodes` once the first `j` listed arcs are handled. */
  ghost predicate AppliedUpTo(nodes: seq<BlockInfo>, edges: seq<Edge>, found: seq<(nat, nat, nat, ArcAttr)>, j: nat,
                              ns: seq<BlockInfo>, es: seq<Edge>)
    requires j <= |found| && forall i :: 0 <= i < |found| ==> found[i].0 < |nodes|
  {
    |es| == |edges| && |ns| == |nodes| &&
    (forall e :: 0 <= e < |es| ==> es[e] == WithArcBits(edges[e], if Listed(found, j, e) then ARC_ATTR_UNCONDITIONAL else 0)) &&
    (forall n :: 0 <= n < |ns| ==>
      ns[n] == WithBlockBits(nodes[n], if ReturnListed(nodes, found, j, n) then BLOCK_ATTR_CALL_RETURN else 0))
  }

  /**
   * Handling the listed arc `j`: it becomes unconditional, and its target
   * a call return when it falls through out of a call site, which the
   * marks made so far leave as it was.
   */
  lemma AppliedStep(nodes: seq<BlockInfo>, edges: seq<Edge>, found: seq<(nat, nat, nat, ArcAttr)>, j: nat,
                    ns: seq<BlockInfo>, es: seq<Edge>)
    requires j < |found| && forall i :: 0 <= i < |found| ==> found[i].0 < |nodes| && found[i].1 < |nodes| && found[i].2 < |edges|
    requires AppliedUpTo(nodes, edges, found, j, ns, es)
    ensures Has(ns[found[j].0].attr, BLOCK_ATTR_CALL_SITE) == Has(nodes[found[j].0].attr, BLOCK_ATTR_CALL_SITE)
    ensures var es' := es[found[j].2 := WithArcBits(es[found[j].2], ARC_ATTR_UNCONDITIONAL)];
      var ns' := if Has(found[j].3, ARC_ATTR_FALLTHROUGH) && Has(nodes[found[j].0].attr, BLOCK_ATTR_CALL_SITE)
        then ns[found[j].1 := WithBlockBits(ns[found[j].1], BLOCK_ATTR_CALL_RETURN)] else ns;
      AppliedUpTo(nodes, edges, found, j + 1, ns', es')
  {
    var ei, dest := found[j].2, found[j].1;
    ArcBitsTwice(edges[ei], if Listed(found, j, ei) then ARC_ATTR_UNCONDITIONAL else 0, ARC_ATTR_UNCONDITIONAL);
    BlockBitsTwice(nodes[dest], if ReturnListed(nodes, found, j, dest) then BLOCK_ATTR_CALL_RETURN else 0, BLOCK_ATTR_CALL_RETURN);
  }

  /** A listed arc is unconditional, and an unconditional arc with a position in the list is listed. */
  lemma {:induction false} ListedMeaning(edges: seq<Edge>, found: seq<(nat, nat, nat, ArcAttr)>, j: nat, e: nat)
    requires j <= |found| && ListsUnconditional(edges, found)
    ensures Listed(found, j, e) ==> e < |edges| && Unconditional(edges, e)
    ensures forall i :: 0 <= i < j && found[i].2 == e ==> Listed(found, j, e)
  {
    if j > 0 {
      ListedMeaning(edges, found, j - 1, e);
    }
  }

  /** The listed arcs that fall through from a call site lead exactly into the call returns of the listed arcs. */
  lemma {:induction false} ReturnListedMeaning(nodes: seq<BlockInfo>, edges: seq<Edge>, found: seq<(nat, nat, nat, ArcAttr)>,
                                               j: nat, n: nat)
    requires j <= |found| && ListsUnconditional(edges, found) && EndsInRange(nodes, edges)
    ensures ReturnListed(nodes, found, j, n) ==> n in CallReturns(nodes, edges)
    ensures forall i :: 0 <= i < j && found[i].1 == n && Has(found[i].3, ARC_ATTR_FALLTHROUGH) &&
                        Has(nodes[found[i].0].attr, BLOCK_ATTR_CALL_SITE)
                        ==> ReturnListed(nodes, found, j, n)
  {
    if j > 0 {
      ReturnListedMeaning(nodes, edges, found, j - 1, n);
      var e := found[j - 1].2;
      if Has(found[j - 1].3, ARC_ATTR_FALLTHROUGH) && Has(nodes[found[j - 1].0].attr, BLOCK_ATTR_CALL_SITE) && found[j - 1].1 == n {
        assert edges[e].target == n;
      }
    }
  }

  /**
   * Once every listed arc is handled, where every unconditional arc is
   * listed, the arcs made unconditional are exactly the unconditional ones
   * and the call returns exactly `CallReturns`.
   */
  lemma AppliedAll(nodes: seq<BlockInfo>, edges: seq<Edge>, found: seq<(nat, nat, nat, ArcAttr)>, where: map<nat, nat>)
    requires ListsUnconditional(edges, found) && EndsInRange(nodes, edges)
    requires forall e :: 0 <= e < |edges| && Unconditional(edges, e) ==> e in where
    requires forall e :: e in where ==> where[e] < |found| && found[where[e]].2 == e
    ensures forall e :: 0 <= e < |edges| ==> (Listed(found, |found|, e) <==> Unconditional(edges, e))
    ensures forall n :: ReturnListed(nodes, found, |found|, n) <==> n in CallReturns(nodes, edges)
  {
    forall e | 0 <= e < |edges|
      ensures Listed(found, |found|, e) <==> Unconditional(edges, e)
    {
      ListedMeaning(edges, found, |found|, e);
    }
    forall n
      ensures ReturnListed(nodes, found, |found|, n) <==> n in CallReturns(nodes, edges)
    {
      ReturnListedMeaning(nodes, edges, found, |found|, n);
      if n in CallReturns(nodes, edges) {
        var e :| 0 <= e < |edges| && Unconditional(edges, e) && Has(edges[e].weight.attr, ARC_ATTR_FALLTHROUGH) &&
          Has(nodes[edges[e].source].attr, BLOCK_ATTR_CALL_SITE) && edges[e].target == n;
        assert found[where[e]].2 == e;
      }
    }
  }

  // mark_exceptional_blocks

  /** Whether the search follows arc `e`: every arc when `all`, else only arcs neither fake nor throwing. */
  predicate Follows(e: Edge, all: bool)
  {
    all || e.weight.attr & (ARC_ATTR_FAKE | ARC_ATTR_THROW) == 0
  }

  /** `p` is a walk through the arcs `a`: arc `a[i]` leads from `p[i]` to `p[i + 1]` and is followed. */
  ghost predicate Walk(edges: seq<Edge>, p: seq<nat>, a: seq<nat>, all: bool)
  {
    |p| == |a| + 1 &&
    forall i {:trigger a[i]} :: 0 <= i < |a| ==>
      a[i] < |edges| && Follows(edges[a[i]], all) && edges[a[i]].source == p[i] && edges[a[i]].target == p[i + 1]
  }

  /** A walk with an arc ends where its last arc leads, through an arc it follows. */
  lemma LastArc(edges: seq<Edge>, p: seq<nat>, a: seq<nat>, all: bool)
    requires Walk(edges, p, a, all)
    ensures a != [] ==> a[|a| - 1] < |edges| && Follows(edges[a[|a| - 1]], all) && edges[a[|a| - 1]].target == p[|p| - 1]
  {
  }

  /** Block `n` is reached by a walk from an entry block. */
  ghost predicate Reachable(nodes: seq<BlockInfo>, edges: seq<Edge>, n: nat, all: bool)
  {
    exists p, a :: Walk(edges, p, a, all) && p[0] < |nodes| && IsEntryBlock(nodes[p[0]]) && p[|p| - 1] == n
  }

  /** An entry block is reached by the empty walk. */
  lemma EntryReachable(nodes: seq<BlockInfo>, edges: seq<Edge>, n: nat, all: bool)
    requires n < |nodes| && IsEntryBlock(nodes[n])
    ensures Reachable(nodes, edges, n, all)
  {
    assert Walk(edges, [n], [], all);
  }

  /** A followed arc out of a reached block reaches its target. */
  lemma ReachStep(nodes: seq<BlockInfo>, edges: seq<Edge>, e: nat, all: bool)
    requires e < |edges| && Follows(edges[e], all) && Reachable(nodes, edges, edges[e].source, all)
    ensures Reachable(nodes, edges, edges[e].target, all)
  {
    var p, a :| Walk(edges, p, a, all) && p[0] < |nodes| && IsEntryBlock(nodes[p[0]]) && p[|p| - 1] == edges[e].source;
    var p', a' := p + [edges[e].target], a + [e];
    assert Walk(edges, p', a', all);
    assert p'[0] == p[0];
  }

  /**
   * A set of blocks that holds every entry block and the target of every
   * followed arc out of its blocks holds every reached block.
   */
  lemma ClosedHoldsReachable(nodes: seq<BlockInfo>, edges: seq<Edge>, visited: seq<bool>, all: bool, n: nat)
    requires |visited| == |nodes| && EndsInRange(nodes, edges)
    requires forall m :: 0 <= m < |nodes| && IsEntryBlock(nodes[m]) ==> visited[m]
    requires forall e :: 0 <= e < |edges| && Follows(edges[e], all) && visited[edges[e].source] ==> visited[edges[e].target]
    requires Reachable(nodes, edges, n, all)
    ensures n < |nodes| && visited[n]
  {
    var p, a :| Walk(edges, p, a, all) && p[0] < |nodes| && IsEntryBlock(nodes[p[0]]) && p[|p| - 1] == n;
    WalkInside(nodes, edges, visited, all, p, a, |p| - 1);
  }

  lemma {:induction false} WalkInside(nodes: seq<BlockInfo>, edges: seq<Edge>, visited: seq<bool>, all: bool,
                                      p: seq<nat>, a: seq<nat>, i: nat)
    requires |visited| == |nodes| && EndsInRange(nodes, edges)
    requires forall e :: 0 <= e < |edges| && Follows(edges[e], all) && visited[edges[e].source] ==> visited[edges[e].target]
    requires Walk(edges, p, a, all) && p[0] < |nodes| && visited[p[0]] && i < |p|
    ensures p[i] < |nodes| && visited[p[i]]
  {
    if i > 0 {
      WalkInside(nodes, edges, visited, all, p, a, i - 1);
      assert edges[a[i - 1]].target == p[i];
    }
  }

  /** The number of blocks the search has not visited yet. */
  function Unvisited(visited: seq<bool>): nat
  {
    if visited == [] then 0 else (if visited[0] then 0 else 1) + Unvisited(visited[1..])
  }

  /** Visiting a block not visited before leaves one block fewer to visit. */
  lemma {:induction false} VisitDecreases(visited: seq<bool>, u: nat)
    requires u < |visited| && !visited[u]
    ensures Unvisited(visited[u := true]) == Unvisited(visited) - 1
  {
    if u > 0 {
      assert visited[u := true][1..] == visited[1..][u - 1 := true];
      VisitDecreases(visited[1..], u - 1);
    }
  }

  /** The first loop of `mark_exceptional_blocks`: every block but the entry blocks is marked exceptional. */
  function InitialMark(b: BlockInfo): BlockInfo
  {
    b.(attr := if IsEntryBlock(b) then b.attr else b.attr | BLOCK_ATTR_EXCEPTIONAL)
  }

  /** A block during the search: the mark is cleared once it is visited. */
  function SearchMark(b: BlockInfo, visited: bool): BlockInfo
  {
    if visited then b.(attr := b.attr & !BLOCK_ATTR_EXCEPTIONAL) else InitialMark(b)
  }

  /** Every block on the stack is reached. */
  ghost predicate StackReached(nodes: seq<BlockInfo>, edges: seq<Edge>, all: bool, stack: seq<nat>)
  {
    forall x :: 0 <= x < |stack| ==> stack[x] < |nodes| && Reachable(nodes, edges, stack[x], all)
  }

  /** Every visited block is reached. */
  ghost predicate VisitedReached(nodes: seq<BlockInfo>, edges: seq<Edge>, all: bool, visited: seq<bool>)
  {
    |visited| == |nodes| && forall n :: 0 <= n < |nodes| && visited[n] ==> Reachable(nodes, edges, n, all)
  }

  /** Every entry block is visited or on the stack, and so is the target of every followed arc out of a visited block. */
  ghost predicate Covered(nodes: seq<BlockInfo>, edges: seq<Edge>, all: bool, stack: seq<nat>, visited: seq<bool>)
    requires |visited| == |nodes|
  {
    (forall n :: 0 <= n < |nodes| && IsEntryBlock(nodes[n]) ==> visited[n] || n in stack) &&
    (forall e :: 0 <= e < |edges| && Follows(edges[e], all) && edges[e].source < |nodes| && visited[edges[e].source] ==>
      edges[e].target < |nodes| && (visited[edges[e].target] || edges[e].target in stack))
  }

  /** `ns` holds the marks of the visited and the not visited blocks. */
  ghost predicate MarksKept(nodes: seq<BlockInfo>, visited: seq<bool>, ns: seq<BlockInfo>)
    requires |visited| == |nodes|
  {
    |ns| == |nodes| && forall n :: 0 <= n < |nodes| ==> ns[n] == SearchMark(nodes[n], visited[n])
  }

  /**
   * What the search keeps: whatever is on the stack or visited is reached;
   * every entry block is visited or on the stack; every followed arc out
   * of a visited block leads to a visited block or one on the stack; and
   * `ns` holds the marks of the visited and not visited blocks.
   */
  ghost predicate SearchInv(nodes: seq<BlockInfo>, edges: seq<Edge>, all: bool, stack: seq<nat>, visited: seq<bool>,
                            ns: seq<BlockInfo>)
  {
    VisitedReached(nodes, edges, all, visited) && StackReached(nodes, edges, all, stack) &&
    Covered(nodes, edges, all, stack, visited) && MarksKept(nodes, visited, ns)
  }

  /** The search starts from the entry blocks, none visited, every other block marked. */
  lemma SearchStart(nodes: seq<BlockInfo>, edges: seq<Edge>, all: bool, stack: seq<nat>, ns: seq<BlockInfo>)
    requires |ns| == |nodes|
    requires forall x :: 0 <= x < |stack| ==> stack[x] < |nodes| && IsEntryBlock(nodes[stack[x]])
    requires forall n :: 0 <= n < |nodes| && IsEntryBlock(nodes[n]) ==> n in stack
    requires forall n :: 0 <= n < |nodes| ==> ns[n] == InitialMark(nodes[n])
    ensures SearchInv(nodes, edges, all, stack, seq(|nodes|, _ => false), ns)
  {
    forall x | 0 <= x < |stack|
      ensures Reachable(nodes, edges, stack[x], all)
    {
      EntryReachable(nodes, edges, stack[x], all);
    }
  }

  /** Every block still on the stack after popping its top is on it before. */
  lemma PopKeeps(stack: seq<nat>)
    requires stack != []
    ensures forall m :: m in stack ==> m == stack[|stack| - 1] || m in stack[..|stack| - 1]
    ensures forall x :: 0 <= x < |stack| - 1 ==> stack[..|stack| - 1][x] == stack[x]
  {
    assert stack == stack[..|stack| - 1] + [stack[|stack| - 1]];
  }

  /** Popping a block already visited changes nothing else. */
  lemma SearchSkip(nodes: seq<BlockInfo>, edges: seq<Edge>, all: bool, stack: seq<nat>, visited: seq<bool>, ns: seq<BlockInfo>)
    requires SearchInv(nodes, edges, all, stack, visited, ns)
    requires stack != [] && stack[|stack| - 1] < |visited| && visited[stack[|stack| - 1]]
    ensures SearchInv(nodes, edges, all, stack[..|stack| - 1], visited, ns)
  {
    PopKeeps(stack);
  }

  /** After a visit the stack holds what was under the popped block, then `pushed`; all of it is reached. */
  lemma VisitStack(nodes: seq<BlockInfo>, edges: seq<Edge>, all: bool, stack: seq<nat>, pushed: seq<nat>)
    requires stack != [] && StackReached(nodes, edges, all, stack) && StackReached(nodes, edges, all, pushed)
    ensures StackReached(nodes, edges, all, stack[..|stack| - 1] + pushed)
    ensures forall m :: m in stack ==> m == stack[|stack| - 1] || m in stack[..|stack| - 1] + pushed
    ensures forall m :: m in pushed ==> m in stack[..|stack| - 1] + pushed
  {
    PopKeeps(stack);
    var rest := stack[..|stack| - 1];
    forall x | 0 <= x < |rest + pushed|
      ensures (rest + pushed)[x] < |nodes| && Reachable(nodes, edges, (rest + pushed)[x], all)
    {
      if x >= |rest| {
        assert (rest + pushed)[x] == pushed[x - |rest|];
      }
    }
  }

  /** The visited block was on the stack, so it is reached. */
  lemma VisitReached(nodes: seq<BlockInfo>, edges: seq<Edge>, all: bool, stack: seq<nat>, visited: seq<bool>)
    requires stack != [] && StackReached(nodes, edges, all, stack) && VisitedReached(nodes, edges, all, visited)
    ensures VisitedReached(nodes, edges, all, visited[stack[|stack| - 1] := true])
  {
  }

  /** The entry blocks and the targets of followed arcs stay covered: those out of the visited block are pushed. */
  lemma VisitCovered(nodes: seq<BlockInfo>, edges: seq<Edge>, all: bool, stack: seq<nat>, visited: seq<bool>, pushed: seq<nat>)
    requires |visited| == |nodes| && EndsInRange(nodes, edges) && Covered(nodes, edges, all, stack, visited)
    requires stack != [] && stack[|stack| - 1] < |visited|
    requires forall m :: m in stack ==> m == stack[|stack| - 1] || m in stack[..|stack| - 1] + pushed
    requires forall m :: m in pushed ==> m in stack[..|stack| - 1] + pushed
    requires forall e :: 0 <= e < |edges| && edges[e].source == stack[|stack| - 1] && Follows(edges[e], all) ==>
      visited[stack[|stack| - 1] := true][edges[e].target] || edges[e].target in pushed
    ensures Covered(nodes, edges, all, stack[..|stack| - 1] + pushed, visited[stack[|stack| - 1] := true])
  {
  }

  /** Clearing the mark of a block marked so far gives its mark once visited. */
  lemma ClearMark(b: BlockInfo, visited: bool)
    ensures var m := SearchMark(b, visited);
      m.(attr := m.attr & !BLOCK_ATTR_EXCEPTIONAL) == SearchMark(b, true)
  {
    var m := SearchMark(b, visited);
    assert m.attr & !BLOCK_ATTR_EXCEPTIONAL == b.attr & !BLOCK_ATTR_EXCEPTIONAL;
  }

  /** Visiting `u` clears its mark and leaves the other marks. */
  lemma VisitMarks(nodes: seq<BlockInfo>, visited: seq<bool>, ns: seq<BlockInfo>, u: nat)
    requires |visited| == |nodes| && u < |nodes| && MarksKept(nodes, visited, ns)
    ensures MarksKept(nodes, visited[u := true], ns[u := ns[u].(attr := ns[u].attr & !BLOCK_ATTR_EXCEPTIONAL)])
  {
    var visited', ns' := visited[u := true], ns[u := ns[u].(attr := ns[u].attr & !BLOCK_ATTR_EXCEPTIONAL)];
    forall n | 0 <= n < |nodes|
      ensures ns'[n] == SearchMark(nodes[n], visited'[n])
    {
      if n == u {
        ClearMark(nodes[u], visited[u]);
      } else {
        assert ns'[n] == ns[n] && visited'[n] == visited[n];
      }
    }
  }

  /**
   * Visiting the popped block `u`: it is reached, its mark is cleared, and
   * `pushed` holds the targets of the followed arcs out of it not visited.
   */
  lemma SearchVisit(nodes: seq<BlockInfo>, edges: seq<Edge>, all: bool, stack: seq<nat>, visited: seq<bool>,
                    ns: seq<BlockInfo>, pushed: seq<nat>)
    requires SearchInv(nodes, edges, all, stack, visited, ns) && EndsInRange(nodes, edges)
    requires stack != [] && stack[|stack| - 1] < |visited| && !visited[stack[|stack| - 1]]
    requires StackReached(nodes, edges, all, pushed)
    requires forall e :: 0 <= e < |edges| && edges[e].source == stack[|stack| - 1] && Follows(edges[e], all) ==>
      visited[stack[|stack| - 1] := true][edges[e].target] || edges[e].target in pushed
    ensures var u := stack[|stack| - 1];
      SearchInv(nodes, edges, all, stack[..|stack| - 1] + pushed, visited[u := true],
                ns[u := ns[u].(attr := ns[u].attr & !BLOCK_ATTR_EXCEPTIONAL)])
  {
    VisitStack(nodes, edges, all, stack, pushed);
    VisitReached(nodes, edges, all, stack, visited);
    VisitCovered(nodes, edges, all, stack, visited, pushed);
    VisitMarks(nodes, visited, ns, stack[|stack| - 1]);
  }

  /**
   * When the stack is empty the visited blocks are exactly the reached
   * ones, so each block carries the attribute `ExceptionalAttr` gives it.
   */
  lemma SearchDone(nodes: seq<BlockInfo>, edges: seq<Edge>, all: bool, visited: seq<bool>, ns: seq<BlockInfo>)
    requires SearchInv(nodes, edges, all, [], visited, ns) && EndsInRange(nodes, edges)
    ensures forall n :: 0 <= n < |ns| ==>
      ns[n] == nodes[n].(attr := ExceptionalAttr(nodes[n].attr, Reachable(nodes, edges, n, all)))
  {
    forall n | 0 <= n < |ns|
      ensures ns[n] == nodes[n].(attr := ExceptionalAttr(nodes[n].attr, Reachable(nodes, edges, n, all)))
    {
      if Reachable(nodes, edges, n, all) {
        ClosedHoldsReachable(nodes, edges, visited, all, n);
      }
    }
  }

  /** The attribute `mark_exceptional_blocks` leaves on a block: exceptional exactly when it is not reached. */
  function ExceptionalAttr(attr: BlockAttr, reached: bool): BlockAttr
  {
    if reached then attr & !BLOCK_ATTR_EXCEPTIONAL else attr | BLOCK_ATTR_EXCEPTIONAL
  }

  /** `mark_exceptional_blocks` (as its filter intends when `all` is false) took the blocks `na` to `nb`. */
  ghost predicate ExceptionalMarked(na: seq<BlockInfo>, ea: seq<Edge>, nb: seq<BlockInfo>, all: bool)
  {
    |nb| == |na| &&
    forall n :: 0 <= n < |nb| ==> nb[n] == na[n].(attr := ExceptionalAttr(na[n].attr, Reachable(na, ea, n, all)))
  }

  /** The only bit the pass changes is `EXCEPTIONAL`, and it is set exactly on the blocks not reached. */
  lemma ExceptionalAttrMeaning(attr: BlockAttr, reached: bool)
    ensures Has(ExceptionalAttr(attr, reached), BLOCK_ATTR_EXCEPTIONAL) <==> !reached
    ensures ExceptionalAttr(attr, reached) & !BLOCK_ATTR_EXCEPTIONAL == attr & !BLOCK_ATTR_EXCEPTIONAL
  {
  }

  /** Re-running `mark_exceptional_blocks` overwrites what an earlier run left. */
  lemma ExceptionalAgain(attr: BlockAttr, first: bool, second: bool)
    ensures ExceptionalAttr(ExceptionalAttr(attr, first), second) == ExceptionalAttr(attr, second)
  {
    if second {
      ClearedAgain(attr, first);
    } else {
      MarkedAgain(attr, first);
    }
  }

  lemma ClearedAgain(attr: BlockAttr, first: bool)
    ensures ExceptionalAttr(ExceptionalAttr(attr, first), true) == ExceptionalAttr(attr, true)
  {
  }

  lemma MarkedAgain(attr: BlockAttr, first: bool)
    ensures ExceptionalAttr(ExceptionalAttr(attr, first), false) == ExceptionalAttr(attr, false)
  {
  }

  /**
   * The search of `mark_exceptional_blocks` follows every arc, fake and
   * throwing ones too: in a graph of an entry block 0 whose only arc is a
   * fake arc to block 1, block 1 counts as reached (so not exceptional),
   * although no arc that is neither fake nor throwing leads to it.
   */
  lemma FakeArcReaches()
    ensures var nodes := [BlockInfo(0, 0, None, 0, []), BlockInfo(0, 1, None, 0, [])];
      var edges := [Edge(0, 1, ArcInfo(0, 0, None, ARC_ATTR_FAKE))];
      Reachable(nodes, edges, 1, true) && !Reachable(nodes, edges, 1, false)
  {
    var nodes := [BlockInfo(0, 0, None, 0, []), BlockInfo(0, 1, None, 0, [])];
    var edges := [Edge(0, 1, ArcInfo(0, 0, None, ARC_ATTR_FAKE))];
    assert Walk(edges, [0, 1], [0], true);
    forall p, a | Walk(edges, p, a, false) && p[0] < |nodes| && IsEntryBlock(nodes[p[0]])
      ensures p[|p| - 1] != 1
    {
      LastArc(edges, p, a, false);
    }
  }
}

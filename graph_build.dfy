/**
 * How GCNO and GCDA files are merged into the graph (`Graph::merge` and the
 * construction helpers of cov/src/graph.rs), as functions on `GraphState`.
 */
module GraphBuild {
  import opened Options
  import opened CovErrors
  import opened Raw
  import opened GraphModel
  import Intern

  /** The state after a merge, and the error that stopped it (the state keeps what was done before). */
  datatype Merged = Merged(state: GraphState, error: Option<ErrorKind>)

  // ----- First GCNO pass: group records by function -----

  /** A record that belongs to the most recently announced function. */
  predicate Attached(r: Record)
  {
    r.BlocksRecord? || r.ArcsRecord? || r.LinesRecord?
  }

  /** No function is announced among `records[i..j]`. */
  predicate NoFunctionBetween(records: seq<Record>, i: nat, j: nat)
    requires i <= j <= |records|
  {
    forall k :: i <= k < j ==> !records[k].FunctionRecord?
  }

  /** The (identifier, function) pairs announced in `records[i..]`, in order. */
  function AnnouncedFrom(records: seq<Record>, i: nat): seq<(bv32, Function)>
    requires i <= |records|
    decreases |records| - i
  {
    if i == |records| then []
    else if records[i].FunctionRecord? then [(records[i].ident, records[i].fn)] + AnnouncedFrom(records, i + 1)
    else AnnouncedFrom(records, i + 1)
  }

  /** The identifiers and function headers of collected identities. */
  function Announced(fis: seq<(bv32, GcnoIdentity)>): seq<(bv32, Function)>
  {
    if fis == [] then [] else Announced(fis[..|fis| - 1]) + [(fis[|fis| - 1].0, fis[|fis| - 1].1.fn)]
  }

  /** The identity being collected, with `update` applied to the last one. */
  function UpdateLast(fis: seq<(bv32, GcnoIdentity)>, fi: GcnoIdentity): (r: seq<(bv32, GcnoIdentity)>)
    requires fis != []
    ensures |r| == |fis|
  {
    fis[..|fis| - 1] + [(fis[|fis| - 1].0, fi)]
  }

  /**
   * The first pass of `merge_gcno` from record `i` on: a function record
   * starts a new identity, a blocks record replaces its blocks, arcs and lines
   * records are appended; other records are skipped. A blocks, arcs or lines
   * record before any function is `RecordWithoutFunction`.
   */
  function CollectFrom(records: seq<Record>, i: nat, fis: seq<(bv32, GcnoIdentity)>): Result<seq<(bv32, GcnoIdentity)>>
    requires i <= |records|
    decreases |records| - i
  {
    if i == |records| then Ok(fis)
    else match records[i]
      case FunctionRecord(ident, fn) =>
        CollectFrom(records, i + 1, fis + [(ident, GcnoIdentity(fn, Blocks([]), [], []))])
      case BlocksRecord(b) =>
        if fis == [] then Err(RecordWithoutFunction)
        else CollectFrom(records, i + 1, UpdateLast(fis, fis[|fis| - 1].1.(blocks := b)))
      case ArcsRecord(a) =>
        if fis == [] then Err(RecordWithoutFunction)
        else CollectFrom(records, i + 1, UpdateLast(fis, fis[|fis| - 1].1.(arcs := fis[|fis| - 1].1.arcs + [a])))
      case LinesRecord(l) =>
        if fis == [] then Err(RecordWithoutFunction)
        else CollectFrom(records, i + 1, UpdateLast(fis, fis[|fis| - 1].1.(lines := fis[|fis| - 1].1.lines + [l])))
      case _ => CollectFrom(records, i + 1, fis)
  }

  function Collect(records: seq<Record>): Result<seq<(bv32, GcnoIdentity)>>
  {
    CollectFrom(records, 0, [])
  }

  /** From record `i` on, collection fails, with `RecordWithoutFunction`, exactly when nothing is being collected and an attached record comes before the next function. */
  lemma {:induction false} CollectFromFails(records: seq<Record>, i: nat, fis: seq<(bv32, GcnoIdentity)>)
    requires i <= |records|
    ensures CollectFrom(records, i, fis).Err? <==>
      fis == [] && exists j :: i <= j < |records| && Attached(records[j]) && NoFunctionBetween(records, i, j)
    ensures CollectFrom(records, i, fis).Err? ==> CollectFrom(records, i, fis).error == RecordWithoutFunction
    decreases |records| - i
  {
    if i < |records| {
      var r := records[i];
      if r.FunctionRecord? {
        CollectFromFails(records, i + 1, fis + [(r.ident, GcnoIdentity(r.fn, Blocks([]), [], []))]);
        forall j | i <= j < |records| && Attached(records[j])
          ensures !NoFunctionBetween(records, i, j)
        {
          assert j != i;
          assert records[i].FunctionRecord?;
        }
      } else if Attached(r) && fis == [] {
        assert NoFunctionBetween(records, i, i);
      } else if Attached(r) {
        var fi := if r.BlocksRecord? then fis[|fis| - 1].1.(blocks := r.blocks)
          else if r.ArcsRecord? then fis[|fis| - 1].1.(arcs := fis[|fis| - 1].1.arcs + [r.arcs])
          else fis[|fis| - 1].1.(lines := fis[|fis| - 1].1.lines + [r.lines]);
        var next := UpdateLast(fis, fi);
        assert CollectFrom(records, i, fis) == CollectFrom(records, i + 1, next);
        CollectFromFails(records, i + 1, next);
      } else {
        CollectFromFails(records, i + 1, fis);
        if fis == [] {
          forall j | i + 1 <= j < |records| && Attached(records[j]) && NoFunctionBetween(records, i + 1, j)
            ensures NoFunctionBetween(records, i, j)
          {
          }
          if exists j :: i <= j < |records| && Attached(records[j]) && NoFunctionBetween(records, i, j) {
            var j :| i <= j < |records| && Attached(records[j]) && NoFunctionBetween(records, i, j);
            assert j != i;
            assert NoFunctionBetween(records, i + 1, j);
          }
        }
      }
    }
  }

  /** From record `i` on, a collection that succeeds adds one identity per function record, in order. */
  lemma {:induction false} CollectFromAnnounces(records: seq<Record>, i: nat, fis: seq<(bv32, GcnoIdentity)>)
    requires i <= |records|
    ensures CollectFrom(records, i, fis).Ok? ==>
      Announced(CollectFrom(records, i, fis).value) == Announced(fis) + AnnouncedFrom(records, i)
    decreases |records| - i
  {
    if i < |records| {
      var r := records[i];
      if r.FunctionRecord? {
        var next := fis + [(r.ident, GcnoIdentity(r.fn, Blocks([]), [], []))];
        CollectFromAnnounces(records, i + 1, next);
        assert next[..|next| - 1] == fis;
        assert Announced(next) == Announced(fis) + [(r.ident, r.fn)];
        assert (Announced(fis) + [(r.ident, r.fn)]) + AnnouncedFrom(records, i + 1) ==
          Announced(fis) + ([(r.ident, r.fn)] + AnnouncedFrom(records, i + 1));
      } else if Attached(r) && fis != [] {
        var fi := if r.BlocksRecord? then fis[|fis| - 1].1.(blocks := r.blocks)
          else if r.ArcsRecord? then fis[|fis| - 1].1.(arcs := fis[|fis| - 1].1.arcs + [r.arcs])
          else fis[|fis| - 1].1.(lines := fis[|fis| - 1].1.lines + [r.lines]);
        var next := UpdateLast(fis, fi);
        assert CollectFrom(records, i, fis) == CollectFrom(records, i + 1, next);
        CollectFromAnnounces(records, i + 1, next);
        assert next[..|next| - 1] == fis[..|fis| - 1];
        assert Announced(next) == Announced(fis);
      } else if !Attached(r) {
        CollectFromAnnounces(records, i + 1, fis);
      }
    }
  }

  /**
   * The first pass fails exactly when a blocks, arcs or lines record comes
   * before every function record; otherwise it yields one identity per
   * announced function, in order.
   */
  lemma CollectShape(records: seq<Record>)
    ensures Collect(records).Err? <==>
      exists j :: 0 <= j < |records| && Attached(records[j]) && NoFunctionBetween(records, 0, j)
    ensures Collect(records).Err? ==> Collect(records).error == RecordWithoutFunction
    ensures Collect(records).Ok? ==> Announced(Collect(records).value) == AnnouncedFrom(records, 0)
  {
    CollectFromFails(records, 0, []);
    CollectFromAnnounces(records, 0, []);
  }

  // ----- add_function -----

  /** The arcs of an `Arcs` record join blocks the function has (`FunctionInfo::node` would panic otherwise). */
  predicate ArcsFit(a: Arcs, blockCount: nat)
  {
    a.srcBlock < blockCount && forall j :: 0 <= j < |a.arcs| ==> a.arcs[j].destBlock < blockCount
  }

  predicate IdentityFits(fi: GcnoIdentity)
  {
    forall i :: 0 <= i < |fi.arcs| ==> ArcsFit(fi.arcs[i], |fi.blocks.flags|)
  }

  /** An arc is instrumented (counted by GCDA files) unless it is on the spanning tree. */
  predicate IsReal(attr: ArcAttr)
  {
    !Has(attr, ARC_ATTR_ON_TREE)
  }

  /** The edge `add_arcs` adds for arc `j` of an `Arcs` record of function `index`, whose blocks start at `base`. */
  function ArcEdge(a: Arcs, index: nat, base: nat, j: nat): Edge
    requires j < |a.arcs|
  {
    Edge(base + a.srcBlock, base + a.arcs[j].destBlock,
         ArcInfo(index, j, if IsReal(a.arcs[j].flags) then Some(0) else None, a.arcs[j].flags))
  }

  /** The edges `add_arcs` adds for the first `n` arcs of a record, in order. */
  function ArcEdgesUpTo(a: Arcs, index: nat, base: nat, n: nat): (r: seq<Edge>)
    requires n <= |a.arcs|
    ensures |r| == n
  {
    if n == 0 then [] else ArcEdgesUpTo(a, index, base, n - 1) + [ArcEdge(a, index, base, n - 1)]
  }

  /** The edges `add_arcs` adds for one `Arcs` record. */
  function ArcEdges(a: Arcs, index: nat, base: nat): (r: seq<Edge>)
    ensures |r| == |a.arcs|
  {
    ArcEdgesUpTo(a, index, base, |a.arcs|)
  }

  /**
   * Arc `j` of the record joins its source block to its destination, keeps
   * its flags and its position in the record, and starts at count 0 when it
   * is instrumented and without a count when it is on the spanning tree.
   */
  lemma {:induction false} ArcEdgesShape(a: Arcs, index: nat, base: nat, n: nat)
    requires n <= |a.arcs|
    ensures var r := ArcEdgesUpTo(a, index, base, n);
      forall j :: 0 <= j < |r| ==>
        r[j].source == base + a.srcBlock && r[j].target == base + a.arcs[j].destBlock &&
        r[j].weight.index == index && r[j].weight.arc == j && r[j].weight.attr == a.arcs[j].flags &&
        (r[j].weight.count.None? <==> !IsReal(a.arcs[j].flags)) &&
        (r[j].weight.count.Some? ==> r[j].weight.count.value == 0)
  {
    if n > 0 {
      ArcEdgesShape(a, index, base, n - 1);
    }
  }

  /** The edges added for all `Arcs` records, in order; they stay among the function's blocks. */
  function ArcsEdges(arcs: seq<Arcs>, index: nat, base: nat, blockCount: nat): (r: seq<Edge>)
    requires forall i :: 0 <= i < |arcs| ==> ArcsFit(arcs[i], blockCount)
    ensures forall e :: 0 <= e < |r| ==>
      base <= r[e].source < base + blockCount && base <= r[e].target < base + blockCount &&
      r[e].weight.index == index &&
      (r[e].weight.count.None? <==> !IsReal(r[e].weight.attr)) &&
      (r[e].weight.count.Some? ==> r[e].weight.count.value == 0)
  {
    if arcs == [] then []
    else
      var prefix := arcs[..|arcs| - 1];
      assert forall i :: 0 <= i < |prefix| ==> prefix[i] == arcs[i];
      var head := ArcsEdges(prefix, index, base, blockCount);
      var last := ArcEdges(arcs[|arcs| - 1], index, base);
      ArcEdgesShape(arcs[|arcs| - 1], index, base, |arcs[|arcs| - 1].arcs|);
      assert ArcsFit(arcs[|arcs| - 1], blockCount);
      assert forall e :: 0 <= e < |last| ==> base <= last[e].source < base + blockCount && base <= last[e].target < base + blockCount;
      head + last
  }

  /** The edges of the first `k + 1` records are those of the first `k` and then those of record `k`. */
  lemma ArcsEdgesStep(arcs: seq<Arcs>, index: nat, base: nat, blockCount: nat, k: nat)
    requires (forall i :: 0 <= i < |arcs| ==> ArcsFit(arcs[i], blockCount)) && k < |arcs|
    ensures ArcsEdges(arcs[..k + 1], index, base, blockCount) ==
      ArcsEdges(arcs[..k], index, base, blockCount) + ArcEdges(arcs[k], index, base)
  {
    assert arcs[..k + 1][..k] == arcs[..k];
  }

  /** The positions (offset by `base`) of the instrumented arcs among `es`, in increasing order. */
  function RealArcs(es: seq<Edge>, base: nat): (r: seq<nat>)
    ensures forall k :: 0 <= k < |r| ==> base <= r[k] < base + |es|
  {
    if es == [] then []
    else RealArcs(es[..|es| - 1], base) + (if IsReal(es[|es| - 1].weight.attr) then [base + |es| - 1] else [])
  }

  /** The positions `RealArcs` lists are strictly increasing, so no arc is listed twice. */
  lemma {:induction false} RealArcsIncreasing(es: seq<Edge>, base: nat)
    ensures forall i, j :: 0 <= i < j < |RealArcs(es, base)| ==> RealArcs(es, base)[i] < RealArcs(es, base)[j]
  {
    if es != [] {
      var r := RealArcs(es, base);
      var p := RealArcs(es[..|es| - 1], base);
      RealArcsIncreasing(es[..|es| - 1], base);
      forall i, j | 0 <= i < j < |r|
        ensures r[i] < r[j]
      {
        assert r[i] == p[i];
        if j < |p| {
          assert r[j] == p[j];
        } else {
          assert r[j] == base + |es| - 1;
          assert p[i] < base + |es[..|es| - 1]|;
        }
      }
    }
  }

  /** One more edge: it is listed when it is instrumented. */
  lemma RealArcsSnoc(es: seq<Edge>, e: Edge, base: nat)
    ensures RealArcs(es + [e], base) == RealArcs(es, base) + (if IsReal(e.weight.attr) then [base + |es|] else [])
  {
    assert (es + [e])[..|es|] == es;
  }

  /** The positions `RealArcs` lists are exactly those of the instrumented arcs. */
  lemma {:induction false} RealArcsExact(es: seq<Edge>, base: nat)
    ensures forall j :: 0 <= j < |es| ==> (base + j in RealArcs(es, base) <==> IsReal(es[j].weight.attr))
  {
    if es != [] {
      var n := |es| - 1;
      RealArcsExact(es[..n], base);
      forall j | 0 <= j < |es|
        ensures base + j in RealArcs(es, base) <==> IsReal(es[j].weight.attr)
      {
        if j < n {
          assert es[..n][j] == es[j];
        }
      }
    }
  }

  /** Listing the instrumented arcs of two runs of arcs one after the other lists each run's. */
  lemma {:induction false} RealArcsAppend(xs: seq<Edge>, ys: seq<Edge>, base: nat)
    ensures RealArcs(xs + ys, base) == RealArcs(xs, base) + RealArcs(ys, base + |xs|)
  {
    if ys == [] {
      assert xs + ys == xs;
    } else {
      var n := |ys| - 1;
      assert (xs + ys)[..|xs + ys| - 1] == xs + ys[..n];
      assert (xs + ys)[|xs + ys| - 1] == ys[n];
      RealArcsAppend(xs, ys[..n], base);
    }
  }

  /** `block_number_to_lines`: later lines records for the same block replace earlier ones. */
  function LinesMap(ls: seq<Lines>): map<nat, seq<Line>>
  {
    if ls == [] then map[]
    else LinesMap(ls[..|ls| - 1])[ls[|ls| - 1].blockNumber := ls[|ls| - 1].lines]
  }

  /** The position of the last lines record for block `b`. */
  function LastRecordFor(ls: seq<Lines>, b: nat): (r: Option<nat>)
    ensures r.Some? ==> r.value < |ls| && ls[r.value].blockNumber == b
    ensures r.Some? ==> forall j :: r.value < j < |ls| ==> ls[j].blockNumber != b
    ensures r.None? ==> forall j :: 0 <= j < |ls| ==> ls[j].blockNumber != b
  {
    if ls == [] then None
    else if ls[|ls| - 1].blockNumber == b then Some(|ls| - 1)
    else
      var prefix := ls[..|ls| - 1];
      assert forall j :: 0 <= j < |prefix| ==> prefix[j] == ls[j];
      LastRecordFor(prefix, b)
  }

  /** A block has lines exactly when some lines record names it, and they are those of the last such record. */
  lemma {:induction false} LinesMapLast(ls: seq<Lines>, b: nat)
    ensures b in LinesMap(ls) <==> LastRecordFor(ls, b).Some?
    ensures b in LinesMap(ls) ==> LinesMap(ls)[b] == ls[LastRecordFor(ls, b).value].lines
  {
    if ls != [] {
      LinesMapLast(ls[..|ls| - 1], b);
    }
  }

  /** The largest key of `m` that is at most `b` (`range(..=b).next_back()`). */
  function FloorKey(m: map<nat, seq<Line>>, b: nat): (r: Option<nat>)
    ensures r.None? <==> forall k :: k in m ==> k > b
    ensures r.Some? ==> r.value in m && r.value <= b && forall k :: k in m && k <= b ==> k <= r.value
  {
    if b in m then Some(b)
    else if b == 0 then None
    else FloorKey(m, b - 1)
  }

  /** Whether a line entry is a file name (`fileName`) or a line number (otherwise). */
  predicate IsKind(l: Line, fileName: bool)
  {
    if fileName then l.FileName? else l.LineNumber?
  }

  /** The position of the last entry of the given kind, found by scanning from the end. */
  function LastOfKind(lines: seq<Line>, fileName: bool): (r: Option<nat>)
    ensures r.Some? ==> r.value < |lines| && IsKind(lines[r.value], fileName)
    ensures r.Some? ==> forall j :: r.value < j < |lines| ==> !IsKind(lines[j], fileName)
    ensures r.None? ==> forall j :: 0 <= j < |lines| ==> !IsKind(lines[j], fileName)
  {
    if lines == [] then None
    else if IsKind(lines[|lines| - 1], fileName) then Some(|lines| - 1)
    else
      var prefix := lines[..|lines| - 1];
      assert forall j :: 0 <= j < |prefix| ==> prefix[j] == lines[j];
      LastOfKind(prefix, fileName)
  }

  /** The file name the line list ends in: the last `FileName`, or `UNKNOWN_SYMBOL` when there is none. */
  function LastFileName(lines: seq<Line>): Symbol
  {
    match LastOfKind(lines, true)
    case None => Intern.UNKNOWN_SYMBOL
    case Some(k) => lines[k].name
  }

  /** The line number the line list ends in: the last `LineNumber`, or 0 when there is none. */
  function LastLineNumber(lines: seq<Line>): bv32
  {
    match LastOfKind(lines, false)
    case None => 0
    case Some(k) => lines[k].number
  }

  /**
   * The lines of block `b`: its own lines record if it has one; otherwise the
   * last file name and line of the nearest earlier block that has one; nothing
   * when no earlier block has lines.
   */
  function BlockLines(m: map<nat, seq<Line>>, b: nat): seq<Line>
  {
    match FloorKey(m, b)
    case None => []
    case Some(k) => if k == b then m[k] else [FileName(LastFileName(m[k])), LineNumber(LastLineNumber(m[k]))]
  }

  /** The positions `base`, `base + 1`, ..., `base + n - 1` of a function's blocks in the graph. */
  function Positions(base: nat, n: nat): (r: seq<nat>)
    ensures |r| == n && forall j :: 0 <= j < n ==> r[j] == base + j
  {
    if n == 0 then [] else Positions(base, n - 1) + [base + n - 1]
  }

  /** The blocks `add_blocks` creates for function `index`, before `add_lines` gives them lines. */
  function BlankBlocks(flags: seq<BlockAttr>, index: nat): (r: seq<BlockInfo>)
    ensures |r| == |flags|
    ensures forall k :: 0 <= k < |r| ==> r[k] == BlockInfo(index, k, None, flags[k], [])
  {
    if flags == [] then []
    else
      var n := |flags| - 1;
      var prefix := flags[..n];
      assert forall k :: 0 <= k < n ==> prefix[k] == flags[k];
      BlankBlocks(prefix, index) + [BlockInfo(index, n, None, flags[n], [])]
  }

  /** Blocks given the lines `add_lines` finds for them in `m`. */
  function WithLines(bs: seq<BlockInfo>, m: map<nat, seq<Line>>): (r: seq<BlockInfo>)
    ensures |r| == |bs|
    ensures forall k :: 0 <= k < |r| ==> r[k] == bs[k].(lines := BlockLines(m, bs[k].block))
  {
    if bs == [] then []
    else
      var n := |bs| - 1;
      var prefix := bs[..n];
      assert forall k :: 0 <= k < n ==> prefix[k] == bs[k];
      WithLines(prefix, m) + [bs[n].(lines := BlockLines(m, bs[n].block))]
  }

  /** The blocks `add_blocks` and `add_lines` create for function `index`. */
  function NewNodes(fi: GcnoIdentity, index: nat): (r: seq<BlockInfo>)
    ensures |r| == |fi.blocks.flags|
  {
    WithLines(BlankBlocks(fi.blocks.flags, index), LinesMap(fi.lines))
  }

  /** The arcs `add_arcs` appends for a new function. */
  function NewEdges(s: GraphState, fi: GcnoIdentity): seq<Edge>
    requires IdentityFits(fi)
  {
    ArcsEdges(fi.arcs, |s.functions|, |s.nodes|, |fi.blocks.flags|)
  }

  /** `add_function`: a new function whose blocks, arcs and lines are appended to the graph. */
  function AddFunction(s: GraphState, fi: GcnoIdentity): (r: GraphState)
    requires IdentityFits(fi)
  {
    var newEdges := NewEdges(s, fi);
    var f := FunctionInfo(RealArcs(newEdges, |s.edges|), Positions(|s.nodes|, |fi.blocks.flags|), fi.fn.source);
    s.(functions := s.functions + [f], nodes := s.nodes + NewNodes(fi, |s.functions|), edges := s.edges + newEdges)
  }

  /** Among freshly added arcs, the instrumented ones are those counted 0 and the others carry no count. */
  lemma {:induction false} RealArcsCounted(es: seq<Edge>, base: nat)
    requires forall j :: 0 <= j < |es| ==>
      (es[j].weight.count.None? <==> !IsReal(es[j].weight.attr)) &&
      (es[j].weight.count.Some? ==> es[j].weight.count.value == 0)
    ensures forall j :: 0 <= j < |es| ==> (base + j in RealArcs(es, base) <==> es[j].weight.count == Some(0))
  {
    RealArcsExact(es, base);
  }

  /** A new function's blocks carry no count, and nothing already in the graph changes. */
  lemma AddFunctionShape(s: GraphState, fi: GcnoIdentity)
    requires IdentityFits(fi)
    ensures var r := AddFunction(s, fi); var f := r.functions[|s.functions|];
      |r.functions| == |s.functions| + 1 && r.functions[..|s.functions|] == s.functions &&
      r.nodes[..|s.nodes|] == s.nodes && r.edges[..|s.edges|] == s.edges &&
      |f.nodes| == |fi.blocks.flags| && f.source == fi.fn.source &&
      (forall n :: |s.nodes| <= n < |r.nodes| ==> r.nodes[n].count.None? && r.nodes[n].index == |s.functions|)
  {
  }

  /** The arcs and the instrumented-arc list of a new function, as `add_arcs` appends them. */
  lemma AddFunctionEdges(s: GraphState, fi: GcnoIdentity)
    requires IdentityFits(fi)
    ensures var r := AddFunction(s, fi);
      r.edges == s.edges + NewEdges(s, fi) && |r.functions| == |s.functions| + 1 &&
      r.functions[|s.functions|].arcs == RealArcs(NewEdges(s, fi), |s.edges|)
  {
  }

  /**
   * A new function's instrumented arcs start at count 0 and are exactly the
   * arcs it lists (`AddFunctionEdges` places both in the graph); the arcs on
   * the spanning tree carry no count.
   */
  lemma AddFunctionArcs(s: GraphState, fi: GcnoIdentity)
    requires IdentityFits(fi)
    ensures var ne := NewEdges(s, fi);
      forall j :: 0 <= j < |ne| ==>
        (|s.edges| + j in RealArcs(ne, |s.edges|) <==> ne[j].weight.count == Some(0)) &&
        (ne[j].weight.count.None? <==> !IsReal(ne[j].weight.attr))
  {
    RealArcsCounted(NewEdges(s, fi), |s.edges|);
  }

  /** Appending a function whose blocks, arcs and instrumented arcs stay in range keeps the graph well formed. */
  lemma AppendWellFormed(s: GraphState, f: FunctionInfo, nn: seq<BlockInfo>, ne: seq<Edge>)
    requires WellFormed(s)
    requires forall e :: 0 <= e < |ne| ==> ne[e].source < |s.nodes| + |nn| && ne[e].target < |s.nodes| + |nn|
    requires forall n :: 0 <= n < |nn| ==> nn[n].index <= |s.functions|
    requires FunctionWellFormed(f, |s.nodes| + |nn|, |s.edges| + |ne|)
    ensures WellFormed(s.(functions := s.functions + [f], nodes := s.nodes + nn, edges := s.edges + ne))
  {
    var r := s.(functions := s.functions + [f], nodes := s.nodes + nn, edges := s.edges + ne);
    forall e | 0 <= e < |r.edges|
      ensures r.edges[e].source < |r.nodes| && r.edges[e].target < |r.nodes|
    {
      if e >= |s.edges| {
        assert r.edges[e] == ne[e - |s.edges|];
      }
    }
    forall n | 0 <= n < |r.nodes|
      ensures r.nodes[n].index < |r.functions|
    {
      if n >= |s.nodes| {
        assert r.nodes[n] == nn[n - |s.nodes|];
      }
    }
    forall k | 0 <= k < |r.functions|
      ensures FunctionWellFormed(r.functions[k], |r.nodes|, |r.edges|)
    {
      if k < |s.functions| {
        assert r.functions[k] == s.functions[k];
      }
    }
  }

  lemma AddFunctionWellFormed(s: GraphState, fi: GcnoIdentity)
    requires WellFormed(s) && IdentityFits(fi)
    ensures WellFormed(AddFunction(s, fi))
  {
    var ne := NewEdges(s, fi);
    var nn := NewNodes(fi, |s.functions|);
    var f := FunctionInfo(RealArcs(ne, |s.edges|), Positions(|s.nodes|, |fi.blocks.flags|), fi.fn.source);
    assert forall n :: 0 <= n < |nn| ==> nn[n].index == |s.functions|;
    RealArcsIncreasing(ne, |s.edges|);
    AppendWellFormed(s, f, nn, ne);
  }

  // ----- Second GCNO pass: merge identities -----

  /** The GCDA identity of a function announced with `ident` in a file stamped `checksum`. */
  function GcdaIdentityOf(checksum: bv32, ident: bv32, fn: Function): GcdaIdentity
  {
    GcdaIdentity(checksum, ident, fn.linenoChecksum, fn.cfgChecksum)
  }

  /**
   * One step of the second pass of `merge_gcno`: an identity seen before only
   * gets a GCDA alias; a new one becomes a new function.
   */
  function MergeIdentity(s: GraphState, checksum: bv32, ident: bv32, fi: GcnoIdentity): (r: GraphState)
    requires IdentityFits(fi)
  {
    var g := GcdaIdentityOf(checksum, ident, fi.fn);
    if fi in s.gcnoIndex then s.(gcdaIndex := s.gcdaIndex[g := s.gcnoIndex[fi]])
    else
      var a := AddFunction(s, fi);
      a.(gcnoIndex := a.gcnoIndex[fi := |s.functions|], gcdaIndex := a.gcdaIndex[g := |s.functions|])
  }

  function MergeAll(s: GraphState, checksum: bv32, fis: seq<(bv32, GcnoIdentity)>): GraphState
    requires forall k :: 0 <= k < |fis| ==> IdentityFits(fis[k].1)
  {
    if fis == [] then s
    else MergeIdentity(MergeAll(s, checksum, fis[..|fis| - 1]), checksum, fis[|fis| - 1].0, fis[|fis| - 1].1)
  }

  /** Every identity the first pass collects joins blocks it has (otherwise `add_arcs` panics). */
  predicate GcnoFits(records: seq<Record>)
  {
    Collect(records).Ok? ==> forall k :: 0 <= k < |Collect(records).value| ==> IdentityFits(Collect(records).value[k].1)
  }

  /** `merge_gcno`: nothing is merged when the first pass fails. */
  function MergeGcno(s: GraphState, checksum: bv32, records: seq<Record>): (r: Merged)
    requires GcnoFits(records)
    ensures r.error.Some? <==> Collect(records).Err?
    ensures r.error.Some? ==> r.state == s && r.error.value == RecordWithoutFunction
    ensures r.state.version == s.version
  {
    match Collect(records)
    case Err(e) =>
      CollectShape(records);
      Merged(s, Some(e))
    case Ok(fis) =>
      MergeAllVersionIsVersion(s, checksum, fis);
      Merged(MergeAll(s, checksum, fis), None)
  }

  /** Each distinct GCNO identity has exactly one function, and no two identities share one. */
  ghost predicate Deduplicated(s: GraphState)
  {
    OneToOne(s.gcnoIndex, |s.functions|)
  }

  /** `m` maps its keys one-to-one onto `0..n`. */
  ghost predicate OneToOne(m: map<GcnoIdentity, nat>, n: nat)
  {
    |m| == n &&
    (forall fi :: fi in m ==> m[fi] < n) &&
    (forall a, b :: a in m && b in m && a != b ==> m[a] != m[b])
  }

  /** `add_function` leaves the version and both identity indices alone and adds one function. */
  lemma AddFunctionFields(s: GraphState, fi: GcnoIdentity)
    requires IdentityFits(fi)
    ensures var r := AddFunction(s, fi);
      r.version == s.version && r.gcnoIndex == s.gcnoIndex && r.gcdaIndex == s.gcdaIndex &&
      |r.functions| == |s.functions| + 1
  {
  }

  /** `add_function` does not read the GCNO index (`merge_gcno` moves it out while adding functions). */
  lemma AddFunctionWithoutIndex(s: GraphState, index: map<GcnoIdentity, nat>, fi: GcnoIdentity)
    requires IdentityFits(fi)
    ensures AddFunction(s.(gcnoIndex := index), fi) == AddFunction(s, fi).(gcnoIndex := index)
  {
  }

  /** Merging an identity keeps the graph well formed. */
  lemma MergeIdentityWellFormed(s: GraphState, checksum: bv32, ident: bv32, fi: GcnoIdentity)
    requires IdentityFits(fi) && WellFormed(s)
    ensures WellFormed(MergeIdentity(s, checksum, ident, fi))
  {
    var g := GcdaIdentityOf(checksum, ident, fi.fn);
    if fi in s.gcnoIndex {
      IndexedWellFormed(s, s.gcnoIndex, g, s.gcnoIndex[fi]);
    } else {
      var a := AddFunction(s, fi);
      AddFunctionWellFormed(s, fi);
      AddFunctionFields(s, fi);
      IndexedWellFormed(a, a.gcnoIndex[fi := |s.functions|], g, |s.functions|);
    }
  }

  /** Pointing index entries at an existing function keeps a well-formed graph well formed. */
  lemma IndexedWellFormed(s: GraphState, gcno: map<GcnoIdentity, nat>, g: GcdaIdentity, v: nat)
    requires WellFormed(s) && v < |s.functions|
    requires forall fi :: fi in gcno ==> gcno[fi] < |s.functions|
    ensures WellFormed(s.(gcnoIndex := gcno, gcdaIndex := s.gcdaIndex[g := v]))
  {
  }

  /** Merging an identity keeps each distinct identity on its own function. */
  lemma MergeIdentityDeduplicated(s: GraphState, checksum: bv32, ident: bv32, fi: GcnoIdentity)
    requires IdentityFits(fi) && Deduplicated(s)
    ensures Deduplicated(MergeIdentity(s, checksum, ident, fi))
  {
    if fi !in s.gcnoIndex {
      AddFunctionFields(s, fi);
      var r := MergeIdentity(s, checksum, ident, fi);
      assert r.gcnoIndex == s.gcnoIndex[fi := |s.functions|];
      assert |r.functions| == |s.functions| + 1;
      NewKeyDistinct(s.gcnoIndex, fi, |s.functions|);
    }
  }

  /** A new identity indexed to the next function number keeps the index one-to-one onto the functions. */
  lemma NewKeyDistinct(m: map<GcnoIdentity, nat>, key: GcnoIdentity, n: nat)
    requires key !in m && OneToOne(m, n)
    ensures OneToOne(m[key := n], n + 1)
  {
  }

  /**
   * After merging an identity, its GCDA identity names the function its GCNO
   * identity names, and the function list grows exactly when the identity is
   * new (an old one leaves functions, blocks and arcs unchanged).
   */
  lemma MergeIdentityLinks(s: GraphState, checksum: bv32, ident: bv32, fi: GcnoIdentity)
    requires IdentityFits(fi)
    ensures var r := MergeIdentity(s, checksum, ident, fi);
      fi in r.gcnoIndex && r.gcdaIndex[GcdaIdentityOf(checksum, ident, fi.fn)] == r.gcnoIndex[fi] &&
      (fi in s.gcnoIndex ==> r.functions == s.functions && r.nodes == s.nodes && r.edges == s.edges) &&
      (fi !in s.gcnoIndex ==> |r.functions| == |s.functions| + 1 && r.gcnoIndex[fi] == |s.functions|)
  {
    if fi !in s.gcnoIndex {
      AddFunctionFields(s, fi);
    }
  }

  /** Merging the same identity a second time adds no function, block or arc. */
  lemma MergeIdentityTwice(s: GraphState, c1: bv32, i1: bv32, c2: bv32, i2: bv32, fi: GcnoIdentity)
    requires IdentityFits(fi)
    ensures var r1 := MergeIdentity(s, c1, i1, fi); var r2 := MergeIdentity(r1, c2, i2, fi);
      r2.functions == r1.functions && r2.nodes == r1.nodes && r2.edges == r1.edges && r2.gcnoIndex == r1.gcnoIndex
  {
  }

  lemma {:induction false} MergeAllKeeps(s: GraphState, checksum: bv32, fis: seq<(bv32, GcnoIdentity)>)
    requires forall k :: 0 <= k < |fis| ==> IdentityFits(fis[k].1)
    requires WellFormed(s) && Deduplicated(s)
    ensures WellFormed(MergeAll(s, checksum, fis)) && Deduplicated(MergeAll(s, checksum, fis))
    ensures MergeAll(s, checksum, fis).version == s.version
  {
    if fis != [] {
      MergeAllKeeps(s, checksum, fis[..|fis| - 1]);
      MergeIdentityWellFormed(MergeAll(s, checksum, fis[..|fis| - 1]), checksum, fis[|fis| - 1].0, fis[|fis| - 1].1);
      MergeIdentityDeduplicated(MergeAll(s, checksum, fis[..|fis| - 1]), checksum, fis[|fis| - 1].0, fis[|fis| - 1].1);
    }
  }

  // ----- GCDA -----

  /** `find_function`: the function a GCDA announcement refers to, or `MissingFunction`. */
  function FindFunction(s: GraphState, checksum: bv32, ident: bv32, fn: Function): (r: Result<nat>)
    ensures r.Ok? <==> GcdaIdentityOf(checksum, ident, fn) in s.gcdaIndex
    ensures r.Ok? ==> r.value == s.gcdaIndex[GcdaIdentityOf(checksum, ident, fn)]
    ensures r.Err? ==> r.error == MissingFunction(checksum, ident)
  {
    var g := GcdaIdentityOf(checksum, ident, fn);
    if g in s.gcdaIndex then Ok(s.gcdaIndex[g]) else Err(MissingFunction(checksum, ident))
  }

  /** A GCDA announcement of a function merged from a GCNO with the same stamp finds that function. */
  lemma GcnoThenGcda(s: GraphState, checksum: bv32, ident: bv32, fi: GcnoIdentity)
    requires IdentityFits(fi)
    ensures var r := MergeIdentity(s, checksum, ident, fi);
      FindFunction(r, checksum, ident, fi.fn) == Ok(r.gcnoIndex[fi])
  {
  }

  /** Arc `e` with `c` more executions. */
  function Bump(edges: seq<Edge>, e: nat, c: nat): (r: seq<Edge>)
    requires e < |edges|
  {
    edges[e := edges[e].(weight := edges[e].weight.(count := Some(edges[e].weight.count.UnwrapOr(0) + c)))]
  }

  /** The counts of `add_arc_counts` added to the listed arcs, in order. */
  function AddCounts(edges: seq<Edge>, arcs: seq<nat>, counts: seq<bv64>): (r: seq<Edge>)
    requires |arcs| == |counts| && forall k :: 0 <= k < |arcs| ==> arcs[k] < |edges|
    ensures |r| == |edges|
    ensures forall e :: 0 <= e < |r| ==>
      r[e].source == edges[e].source && r[e].target == edges[e].target &&
      r[e].weight.attr == edges[e].weight.attr && r[e].weight.index == edges[e].weight.index &&
      r[e].weight.arc == edges[e].weight.arc
  {
    if arcs == [] then edges
    else Bump(AddCounts(edges, arcs[..|arcs| - 1], counts[..|counts| - 1]), arcs[|arcs| - 1], counts[|counts| - 1] as nat)
  }

  /** The count added to arc `e` by listing `arcs` with `counts` (at most one position names `e`). */
  function Added(arcs: seq<nat>, counts: seq<bv64>, e: nat): nat
    requires |arcs| == |counts|
  {
    if arcs == [] then 0
    else (if arcs[|arcs| - 1] == e then counts[|counts| - 1] as nat else 0) + Added(arcs[..|arcs| - 1], counts[..|counts| - 1], e)
  }

  /**
   * For distinct arcs, every listed arc gains its count (an arc without a
   * count gets one) and every other arc is unchanged.
   */
  lemma {:induction false} AddCountsAt(edges: seq<Edge>, arcs: seq<nat>, counts: seq<bv64>, e: nat)
    requires |arcs| == |counts| && forall k :: 0 <= k < |arcs| ==> arcs[k] < |edges|
    requires forall i, j :: 0 <= i < j < |arcs| ==> arcs[i] != arcs[j]
    requires e < |edges|
    ensures AddCounts(edges, arcs, counts)[e].weight.count ==
      if e in arcs then Some(edges[e].weight.count.UnwrapOr(0) + Added(arcs, counts, e)) else edges[e].weight.count
  {
    if arcs != [] {
      var n := |arcs| - 1;
      var prev := AddCounts(edges, arcs[..n], counts[..n]);
      assert AddCounts(edges, arcs, counts) == Bump(prev, arcs[n], counts[n] as nat);
      AddCountsAt(edges, arcs[..n], counts[..n], e);
      assert Added(arcs, counts, e) == (if arcs[n] == e then counts[n] as nat else 0) + Added(arcs[..n], counts[..n], e);
      assert e in arcs <==> e in arcs[..n] || e == arcs[n];
      if e == arcs[n] {
        assert e !in arcs[..n];
        AddedAbsent(arcs[..n], counts[..n], e);
      }
    }
  }

  lemma {:induction false} AddedAbsent(arcs: seq<nat>, counts: seq<bv64>, e: nat)
    requires |arcs| == |counts| && e !in arcs
    ensures Added(arcs, counts, e) == 0
  {
    if arcs != [] {
      AddedAbsent(arcs[..|arcs| - 1], counts[..|counts| - 1], e);
    }
  }

  /** Adding two GCDA files' counts to the same arcs gives the same counts in either order. */
  lemma AddCountsCommute(edges: seq<Edge>, arcs: seq<nat>, c1: seq<bv64>, c2: seq<bv64>)
    requires |arcs| == |c1| == |c2| && forall k :: 0 <= k < |arcs| ==> arcs[k] < |edges|
    requires forall i, j :: 0 <= i < j < |arcs| ==> arcs[i] != arcs[j]
    ensures AddCounts(AddCounts(edges, arcs, c1), arcs, c2) == AddCounts(AddCounts(edges, arcs, c2), arcs, c1)
  {
    var m1 := AddCounts(edges, arcs, c1);
    var m2 := AddCounts(edges, arcs, c2);
    var a := AddCounts(m1, arcs, c2);
    var b := AddCounts(m2, arcs, c1);
    forall e | 0 <= e < |a|
      ensures a[e] == b[e]
    {
      AddCountsAt(edges, arcs, c1, e);
      AddCountsAt(edges, arcs, c2, e);
      AddCountsAt(m1, arcs, c2, e);
      AddCountsAt(m2, arcs, c1, e);
      assert a[e].weight == b[e].weight;
    }
  }

  /** `add_arc_counts`: the record must have one count per instrumented arc of the function. */
  function AddArcCounts(s: GraphState, index: nat, counts: seq<bv64>): (r: Result<GraphState>)
    requires WellFormed(s) && index < |s.functions|
    ensures r.Err? <==> |counts| != |s.functions[index].arcs|
    ensures r.Err? ==> r.error == CountsMismatch("arcs", Gcda, |counts|, |s.functions[index].arcs|)
    ensures r.Ok? ==> WellFormed(r.value) && r.value == s.(edges := r.value.edges)
  {
    var f := s.functions[index];
    if |counts| != |f.arcs| then Err(CountsMismatch("arcs", Gcda, |counts|, |f.arcs|))
    else Ok(s.(edges := AddCounts(s.edges, f.arcs, counts)))
  }

  /** Every arc counts record from `i` on follows a function announcement (or `cur` is set); otherwise `merge_gcda` panics. */
  predicate CountsAttached(records: seq<Record>, i: nat, cur: Option<nat>)
    requires i <= |records|
  {
    forall j :: i <= j < |records| && records[j].ArcCountsRecord? ==>
      cur.Some? || exists k :: i <= k < j && records[k].FunctionRecord?
  }

  /** After record `i`, the function last announced is set by a function record and kept otherwise. */
  lemma CountsAttachedStep(records: seq<Record>, i: nat, cur: Option<nat>, next: Option<nat>)
    requires i < |records| && CountsAttached(records, i, cur)
    requires next.Some? || (!records[i].FunctionRecord? && next == cur)
    ensures CountsAttached(records, i + 1, next)
  {
    forall j | i + 1 <= j < |records| && records[j].ArcCountsRecord? && next.None?
      ensures exists k :: i + 1 <= k < j && records[k].FunctionRecord?
    {
      var k :| i <= k < j && records[k].FunctionRecord?;
      assert k != i;
    }
  }

  /**
   * `merge_gcda` from record `i` on, with `cur` the function last announced:
   * a function record selects the function, an arc counts record adds to it,
   * other records are skipped. The first error stops the merge.
   */
  function GcdaFrom(s: GraphState, checksum: bv32, records: seq<Record>, i: nat, cur: Option<nat>): (r: Merged)
    requires WellFormed(s) && i <= |records| && (cur.Some? ==> cur.value < |s.functions|)
    requires CountsAttached(records, i, cur)
    ensures WellFormed(r.state) && r.state == s.(edges := r.state.edges)
    decreases |records| - i
  {
    if i == |records| then Merged(s, None)
    else
      match records[i]
      case FunctionRecord(ident, fn) =>
        var found := FindFunction(s, checksum, ident, fn);
        if found.Err? then Merged(s, Some(found.error))
        else
          CountsAttachedStep(records, i, cur, Some(found.value));
          GcdaFrom(s, checksum, records, i + 1, Some(found.value))
      case ArcCountsRecord(ac) =>
        assert cur.Some?;
        var added := AddArcCounts(s, cur.value, ac.counts);
        if added.Err? then Merged(s, Some(added.error))
        else
          CountsAttachedStep(records, i, cur, cur);
          GcdaFrom(added.value, checksum, records, i + 1, cur)
      case _ =>
        CountsAttachedStep(records, i, cur, cur);
        GcdaFrom(s, checksum, records, i + 1, cur)
  }

  /** What `merge` requires of a file so that it does not panic. */
  predicate MergeFits(gcov: Gcov)
  {
    match gcov.ty
    case Gcno => GcnoFits(gcov.records)
    case Gcda => CountsAttached(gcov.records, 0, None)
  }

  /**
   * `Graph::merge`: all files must have the version of the first one merged
   * (the version is adopted before the file's content is merged).
   */
  function Merge(s: GraphState, gcov: Gcov): (r: Merged)
    requires WellFormed(s) && MergeFits(gcov)
    ensures s.version != INVALID_VERSION && s.version != gcov.version ==>
      r == Merged(s, Some(VersionMismatch(s.version, gcov.version)))
    ensures (s.version == INVALID_VERSION || s.version == gcov.version) ==> r.state.version == gcov.version
    ensures gcov.ty == Gcda ==> r.state.functions == s.functions && r.state.nodes == s.nodes
  {
    if s.version != INVALID_VERSION && s.version != gcov.version then
      Merged(s, Some(VersionMismatch(s.version, gcov.version)))
    else
      var s1 := s.(version := gcov.version);
      match gcov.ty
      case Gcno => MergeGcno(s1, gcov.stamp, gcov.records)
      case Gcda => GcdaFrom(s1, gcov.stamp, gcov.records, 0, None)
  }

  lemma {:induction false} MergeAllVersionIsVersion(s: GraphState, checksum: bv32, fis: seq<(bv32, GcnoIdentity)>)
    requires forall k :: 0 <= k < |fis| ==> IdentityFits(fis[k].1)
    ensures MergeAll(s, checksum, fis).version == s.version
  {
    if fis != [] {
      MergeAllVersionIsVersion(s, checksum, fis[..|fis| - 1]);
    }
  }

  /** Merging keeps the graph well formed and deduplicated. */
  lemma MergeKeeps(s: GraphState, gcov: Gcov)
    requires WellFormed(s) && Deduplicated(s) && MergeFits(gcov)
    ensures WellFormed(Merge(s, gcov).state) && Deduplicated(Merge(s, gcov).state)
  {
    if !(s.version != INVALID_VERSION && s.version != gcov.version) && gcov.ty == Gcno && Collect(gcov.records).Ok? {
      MergeAllKeeps(s.(version := gcov.version), gcov.stamp, Collect(gcov.records).value);
    }
  }
}

/**
 * The data of the combined control-flow graph of cov/src/graph.rs. The petgraph
 * arena becomes two sequences: blocks (nodes) and arcs (edges), addressed by
 * position. Counts are natural numbers (see README for the 64-bit arithmetic).
 */
module GraphModel {
  import opened Options
  import opened Raw
  import Intern

  /** A block: owning function, number within it, count (if known), attributes, source lines. */
  datatype BlockInfo = BlockInfo(index: nat, block: nat, count: Option<nat>, attr: BlockAttr, lines: seq<Line>)

  /** An arc's data: owning function, number within its source block's arc list, count, attributes. */
  datatype ArcInfo = ArcInfo(index: nat, arc: nat, count: Option<nat>, attr: ArcAttr)

  /** A petgraph edge: source block, target block and data. */
  datatype Edge = Edge(source: nat, target: nat, weight: ArcInfo)

  /** A function: its instrumented arcs (those GCDA counts are for), its blocks, its source. */
  datatype FunctionInfo = FunctionInfo(arcs: seq<nat>, nodes: seq<nat>, source: Option<Source>)

  /** How a GCDA function announcement is matched with a GCNO function. */
  datatype GcdaIdentity = GcdaIdentity(fileChecksum: bv32, ident: bv32, linenoChecksum: bv32, cfgChecksum: bv32)

  /** Everything a GCNO says about one function; two equal identities are one function. */
  datatype GcnoIdentity = GcnoIdentity(fn: Function, blocks: Blocks, arcs: seq<Arcs>, lines: seq<Lines>)

  /** The fields of `Graph`. */
  datatype GraphState = GraphState(
    version: Version,
    functions: seq<FunctionInfo>,
    gcnoIndex: map<GcnoIdentity, nat>,
    gcdaIndex: map<GcdaIdentity, nat>,
    nodes: seq<BlockInfo>,
    edges: seq<Edge>)

  const EMPTY_GRAPH := GraphState(INVALID_VERSION, [], map[], map[], [], [])

  /** The indices every operation relies on: arcs join existing blocks, functions own existing blocks and arcs. */
  ghost predicate WellFormed(s: GraphState)
  {
    (forall e :: 0 <= e < |s.edges| ==> s.edges[e].source < |s.nodes| && s.edges[e].target < |s.nodes|) &&
    (forall n :: 0 <= n < |s.nodes| ==> s.nodes[n].index < |s.functions|) &&
    (forall k :: 0 <= k < |s.functions| ==> FunctionWellFormed(s.functions[k], |s.nodes|, |s.edges|)) &&
    (forall fi :: fi in s.gcnoIndex ==> s.gcnoIndex[fi] < |s.functions|) &&
    (forall g :: g in s.gcdaIndex ==> s.gcdaIndex[g] < |s.functions|)
  }

  /** A function's blocks and arcs exist, and its instrumented arcs are listed in increasing order. */
  ghost predicate FunctionWellFormed(f: FunctionInfo, nodeCount: nat, edgeCount: nat)
  {
    (forall j :: 0 <= j < |f.nodes| ==> f.nodes[j] < nodeCount) &&
    (forall j :: 0 <= j < |f.arcs| ==> f.arcs[j] < edgeCount) &&
    (forall i, j :: 0 <= i < j < |f.arcs| ==> f.arcs[i] < f.arcs[j])
  }

  /** `BlockInfo::is_entry_block`. */
  predicate IsEntryBlock(b: BlockInfo)
  {
    b.block == 0
  }

  /** Whether `FunctionInfo::exit_block` can index the function's blocks (and so `entry_block` too). */
  predicate HasExit(f: FunctionInfo, version: Version)
  {
    |f.nodes| > (if version >= VERSION_4_7 then 1 else 0)
  }

  /** `FunctionInfo::entry_block`: the function's first block. */
  function EntryBlock(f: FunctionInfo): (n: nat)
    requires |f.nodes| > 0
    ensures n in f.nodes
  {
    f.nodes[0]
  }

  /** `FunctionInfo::exit_block`: block 1 from GCC 4.7 on, the last block before. */
  function ExitBlock(f: FunctionInfo, version: Version): (n: nat)
    requires HasExit(f, version)
    ensures n in f.nodes
    ensures version >= VERSION_4_7 ==> n == f.nodes[1]
    ensures version < VERSION_4_7 ==> n == f.nodes[|f.nodes| - 1]
  {
    f.nodes[if version >= VERSION_4_7 then 1 else |f.nodes| - 1]
  }

  /**
   * The arcs leaving block `n`, as petgraph's `edges(n)` lists them: most
   * recently added first (only arcs below `hi` are considered).
   */
  function OutEdges(edges: seq<Edge>, n: nat, hi: nat): (r: seq<nat>)
    requires hi <= |edges|
    ensures forall k :: 0 <= k < |r| ==> r[k] < hi && edges[r[k]].source == n
    ensures forall e :: 0 <= e < hi && edges[e].source == n ==> e in r
    ensures forall i, j :: 0 <= i < j < |r| ==> r[i] > r[j]
  {
    if hi == 0 then []
    else if edges[hi - 1].source == n then [hi - 1] + OutEdges(edges, n, hi - 1)
    else OutEdges(edges, n, hi - 1)
  }

  /** The arcs entering block `n`, most recently added first (`edges_directed(n, Incoming)`). */
  function InEdges(edges: seq<Edge>, n: nat, hi: nat): (r: seq<nat>)
    requires hi <= |edges|
    ensures forall k :: 0 <= k < |r| ==> r[k] < hi && edges[r[k]].target == n
    ensures forall e :: 0 <= e < hi && edges[e].target == n ==> e in r
    ensures forall i, j :: 0 <= i < j < |r| ==> r[i] > r[j]
  {
    if hi == 0 then []
    else if edges[hi - 1].target == n then [hi - 1] + InEdges(edges, n, hi - 1)
    else InEdges(edges, n, hi - 1)
  }

  /**
   * What `IterLines` yields for a block's line list: each line number paired
   * with the file name most recently named before it (`filename` at first).
   */
  function LinePairs(lines: seq<Line>, filename: Symbol): (r: seq<(Symbol, bv32)>)
    ensures |r| <= |lines|
  {
    if lines == [] then []
    else match lines[0]
      case FileName(f) => LinePairs(lines[1..], f)
      case LineNumber(n) => [(filename, n)] + LinePairs(lines[1..], filename)
  }

  /** How many line numbers a block's line list holds. */
  function LineNumberCount(lines: seq<Line>): nat
  {
    if lines == [] then 0
    else (if lines[0].LineNumber? then 1 else 0) + LineNumberCount(lines[1..])
  }

  /** Every pair `IterLines` yields carries one of the block's line numbers, and there is one pair per line number. */
  lemma {:induction false} LinePairsNumbers(lines: seq<Line>, filename: Symbol)
    ensures forall k :: 0 <= k < |LinePairs(lines, filename)| ==> LineNumber(LinePairs(lines, filename)[k].1) in lines
    ensures |LinePairs(lines, filename)| == LineNumberCount(lines)
  {
    if lines != [] {
      var f := if lines[0].FileName? then lines[0].name else filename;
      LinePairsNumbers(lines[1..], f);
      var r := LinePairs(lines, filename);
      var tail := LinePairs(lines[1..], f);
      forall k | 0 <= k < |r|
        ensures LineNumber(r[k].1) in lines
      {
        if lines[0].LineNumber? && k == 0 {
        } else {
          var j := if lines[0].LineNumber? then k - 1 else k;
          assert r[k] == tail[j];
          assert LineNumber(tail[j].1) in lines[1..];
        }
      }
    }
  }
}

/**
 * The graph that the editor's "Run" action builds from the editor text: one
 * node per '\n'-separated line, in document order, and one edge from each
 * line's node to the next line's node.
 */
module FlowGraph {
  import opened JsStrings

  /** Every node sits in one column, ... */
  const NodeX: int := 250
  /** ... the first at this height, ... */
  const FirstY: int := 100
  /** ... and each following line this much lower. */
  const RowGap: int := 100

  const NodePrefix: string := "node-"
  const EdgePrefix: string := "edge-"

  /**
   * A graph node: its id, its display label (the source's `data.label`; the
   * field is called `text` because `label` is a reserved word in Dafny) and
   * its canvas position.
   */
  datatype Node = Node(id: string, text: string, x: int, y: int)

  /** A directed graph edge between two node ids. */
  datatype Edge = Edge(id: string, source: string, target: string)

  /** The node list and the edge list the conversion produces. */
  datatype Flow = Flow(nodes: seq<Node>, edges: seq<Edge>)

  /** `node-${index}` */
  function NodeId(i: nat): string {
    NodePrefix + Decimal(i)
  }

  /** `edge-${index}` */
  function EdgeId(i: nat): string {
    EdgePrefix + Decimal(i)
  }

  /** The editor text cut at every line feed, empty lines kept. */
  function Lines(code: string): seq<string> {
    Split(code, '\n')
  }

  /** The node for line `i`. */
  function LineNode(i: nat, line: string): Node {
    Node(NodeId(i), Trim(line), NodeX, FirstY + i * RowGap)
  }

  /** The edge pushed for line `i` (only for `i > 0`): from line `i - 1` to line `i`. */
  function LinkEdge(i: nat): Edge
    requires i > 0
  {
    Edge(EdgeId(i), NodeId(i - 1), NodeId(i))
  }

  /** The graph of a list of lines: node `i` for line `i`, an edge into every line but the first. */
  function LinesFlow(lines: seq<string>): Flow {
    Flow(seq(|lines|, i requires 0 <= i < |lines| => LineNode(i, lines[i])),
         seq(if lines == [] then 0 else |lines| - 1, k requires 0 <= k < |lines| - 1 => LinkEdge(k + 1)))
  }

  /** One more line adds its node at the end; the nodes already built stay as they are. */
  lemma LinesFlowExtendNodes(lines: seq<string>, line: string)
    ensures LinesFlow(lines + [line]).nodes == LinesFlow(lines).nodes + [LineNode(|lines|, line)]
  {
    var longer := lines + [line];
    var grown := LinesFlow(longer).nodes;
    var expected := LinesFlow(lines).nodes + [LineNode(|lines|, line)];
    forall i | 0 <= i < |grown| ensures grown[i] == expected[i] {
      if i < |lines| {
        assert longer[i] == lines[i];
      }
    }
  }

  /**
   * One more line adds, unless it is the first line, one edge from the
   * previous last node to its node; the edges already built stay as they are.
   */
  lemma LinesFlowExtendEdges(lines: seq<string>, line: string)
    ensures LinesFlow(lines + [line]).edges
            == LinesFlow(lines).edges + (if lines == [] then [] else [LinkEdge(|lines|)])
  {
  }

  /** The graph of a text, built line by line as the conversion does. */
  function FlowOf(code: string): Flow {
    LinesFlow(Lines(code))
  }

  // ---------------------------------------------------------------------------
  // Properties of the produced graph
  // ---------------------------------------------------------------------------

  /**
   * There is one node per line feed plus one (so the empty text gives one
   * node) and one edge fewer than nodes.
   */
  lemma FlowCounts(code: string)
    ensures |FlowOf(code).nodes| == multiset(code)['\n'] + 1
    ensures |FlowOf(code).edges| == |FlowOf(code).nodes| - 1
  {
  }

  /**
   * Node `i` carries id `node-i`, the trimmed text of line `i` as its label,
   * and stands at (250, 100 + 100 * i); the lines are the pieces that join
   * back, with line feeds, into the text.
   */
  lemma FlowNodes(code: string)
    ensures Join(Lines(code), '\n') == code
    ensures |FlowOf(code).nodes| == |Lines(code)|
    ensures forall i :: 0 <= i < |Lines(code)| ==>
              FlowOf(code).nodes[i] == Node(NodeId(i), Trim(Lines(code)[i]), 250, 100 + 100 * i)
  {
    JoinSplit(code, '\n');
  }

  /** Node heights strictly increase in document order. */
  lemma FlowNodesDescend(code: string, i: nat, j: nat)
    requires i < j < |FlowOf(code).nodes|
    ensures FlowOf(code).nodes[i].y < FlowOf(code).nodes[j].y
  {
  }

  /** Node ids are pairwise distinct, and so are edge ids. */
  lemma {:induction false} FlowIdsDistinct(code: string)
    ensures forall i, j :: 0 <= i < j < |FlowOf(code).nodes| ==>
              FlowOf(code).nodes[i].id != FlowOf(code).nodes[j].id
    ensures forall i, j :: 0 <= i < j < |FlowOf(code).edges| ==>
              FlowOf(code).edges[i].id != FlowOf(code).edges[j].id
  {
    var f := FlowOf(code);
    forall i, j | 0 <= i < j < |f.nodes| ensures f.nodes[i].id != f.nodes[j].id {
      NodeIdInjective(i, j);
    }
    forall i, j | 0 <= i < j < |f.edges| ensures f.edges[i].id != f.edges[j].id {
      EdgeIdInjective(i + 1, j + 1);
    }
  }

  /** `node-i` names exactly one index. */
  lemma NodeIdInjective(i: nat, j: nat)
    ensures NodeId(i) == NodeId(j) <==> i == j
  {
    if NodeId(i) == NodeId(j) {
      assert Decimal(i) == NodeId(i)[|NodePrefix|..];
      assert Decimal(j) == NodeId(j)[|NodePrefix|..];
      DecimalInjective(i, j);
    }
  }

  /** `edge-i` names exactly one index. */
  lemma EdgeIdInjective(i: nat, j: nat)
    ensures EdgeId(i) == EdgeId(j) <==> i == j
  {
    if EdgeId(i) == EdgeId(j) {
      assert Decimal(i) == EdgeId(i)[|EdgePrefix|..];
      assert Decimal(j) == EdgeId(j)[|EdgePrefix|..];
      DecimalInjective(i, j);
    }
  }

  /**
   * The edges, taken in order, form one path through all nodes in document
   * order: edge `k` has id `edge-(k+1)` and runs from node `k` to node
   * `k + 1`, so it starts at `node-0` and ends at the last node.
   */
  lemma FlowIsPath(code: string)
    ensures forall k :: 0 <= k < |FlowOf(code).edges| ==>
              && FlowOf(code).edges[k].id == EdgeId(k + 1)
              && FlowOf(code).edges[k].source == FlowOf(code).nodes[k].id
              && FlowOf(code).edges[k].target == FlowOf(code).nodes[k + 1].id
    ensures |FlowOf(code).edges| > 0 ==>
              && FlowOf(code).edges[0].source == NodeId(0)
              && FlowOf(code).edges[|FlowOf(code).edges| - 1].target
                 == FlowOf(code).nodes[|FlowOf(code).nodes| - 1].id
  {
    var f := FlowOf(code);
    forall k | 0 <= k < |f.edges|
      ensures f.edges[k].id == EdgeId(k + 1)
      ensures f.edges[k].source == f.nodes[k].id && f.edges[k].target == f.nodes[k + 1].id
    {
      assert f.edges[k] == LinkEdge(k + 1);
    }
  }

  /** Some node of `f` has the id `id`. */
  predicate IsNodeIdOf(f: Flow, id: string) {
    exists i :: 0 <= i < |f.nodes| && f.nodes[i].id == id
  }

  /** Every edge endpoint names a produced node: no edge dangles. */
  lemma {:induction false} FlowEndpointsAreNodes(code: string)
    ensures forall e :: e in FlowOf(code).edges ==>
              IsNodeIdOf(FlowOf(code), e.source) && IsNodeIdOf(FlowOf(code), e.target)
  {
    var f := FlowOf(code);
    forall e | e in f.edges
      ensures IsNodeIdOf(f, e.source) && IsNodeIdOf(f, e.target)
    {
      var k :| 0 <= k < |f.edges| && f.edges[k] == e;
      assert f.nodes[k].id == e.source;
      assert f.nodes[k + 1].id == e.target;
    }
  }

  /**
   * A walk: a non-empty sequence of edge positions in which each edge ends
   * where the next one starts.
   */
  predicate IsWalk(edges: seq<Edge>, walk: seq<nat>) {
    && |walk| > 0
    && (forall k :: 0 <= k < |walk| ==> walk[k] < |edges|)
    && (forall k :: 0 <= k < |walk| - 1 ==> edges[walk[k]].target == edges[walk[k + 1]].source)
  }

  /** Along a walk in a produced graph each step moves one line down. */
  lemma {:induction false} WalkAdvances(code: string, walk: seq<nat>)
    requires IsWalk(FlowOf(code).edges, walk)
    ensures walk[|walk| - 1] == walk[0] + |walk| - 1
  {
    var edges := FlowOf(code).edges;
    if |walk| > 1 {
      var front := walk[..|walk| - 1];
      assert IsWalk(edges, front);
      WalkAdvances(code, front);
      var a, b := walk[|walk| - 2], walk[|walk| - 1];
      assert NodeId(a + 1) == NodeId(b);
      NodeIdInjective(a + 1, b);
    }
  }

  /**
   * The graph has no cycle: no walk along its edges returns to the node it
   * started from.
   */
  lemma FlowAcyclic(code: string, walk: seq<nat>)
    requires IsWalk(FlowOf(code).edges, walk)
    ensures FlowOf(code).edges[walk[0]].source != FlowOf(code).edges[walk[|walk| - 1]].target
  {
    WalkAdvances(code, walk);
    var first, last := walk[0], walk[|walk| - 1];
    NodeIdInjective(first, last + 1);
  }

  /** Every label is already trimmed: no leading or trailing whitespace, in particular no "\r". */
  lemma FlowLabelsTrimmed(code: string)
    ensures forall i :: 0 <= i < |FlowOf(code).nodes| ==>
              && Trim(FlowOf(code).nodes[i].text) == FlowOf(code).nodes[i].text
              && (FlowOf(code).nodes[i].text == []
                  || (!IsWhitespace(FlowOf(code).nodes[i].text[0])
                      && !IsWhitespace(FlowOf(code).nodes[i].text[|FlowOf(code).nodes[i].text| - 1])))
  {
    var f := FlowOf(code);
    forall i | 0 <= i < |f.nodes| ensures Trim(f.nodes[i].text) == f.nodes[i].text {
      TrimIdempotent(Lines(code)[i]);
    }
  }

  /**
   * A line read from CRLF text still ends in "\r" after the split at line
   * feeds; its node is the same as for the line without it.
   */
  lemma CarriageReturnIgnored(i: nat, line: string)
    ensures LineNode(i, line + "\r") == LineNode(i, line)
  {
    assert AllWhitespace("\r");
    TrimIgnoresPadding([], line, "\r");
    assert [] + line + "\r" == line + "\r";
  }

  /**
   * The empty text is one empty line: it gives a single node `node-0` with
   * the empty label at (250, 100), and no edge.
   */
  lemma EmptyCodeFlow()
    ensures FlowOf("") == Flow([Node("node-0", "", 250, 100)], [])
  {
    assert Lines("") == [""];
    assert Trim("") == "";
    FirstIds();
    assert FlowOf("").nodes == [LineNode(0, "")];
  }

  /** The text "a\nb\nc" has the three lines "a", "b" and "c". */
  lemma ThreeLines()
    ensures Lines("a\nb\nc") == ["a", "b", "c"]
  {
    var pieces := ["a", "b", "c"];
    assert forall k :: 0 <= k < |pieces| ==> '\n' !in pieces[k];
    assert Join(pieces[2..], '\n') == "c";
    assert Join(pieces[1..], '\n') == "b\nc";
    assert Join(pieces, '\n') == "a\nb\nc";
    SplitJoin(pieces, '\n');
  }

  /**
   * "a\nb\nc" gives nodes a, b, c with ids node-0 .. node-2 and edges
   * edge-1 (node-0 to node-1) and edge-2 (node-1 to node-2).
   */
  lemma ThreeLineFlow()
    ensures FlowOf("a\nb\nc") == Flow(
              [Node("node-0", "a", 250, 100), Node("node-1", "b", 250, 200), Node("node-2", "c", 250, 300)],
              [Edge("edge-1", "node-0", "node-1"), Edge("edge-2", "node-1", "node-2")])
  {
    ThreeLines();
    ThreeLineShape(["a", "b", "c"]);
    ThreeLineLayout();
  }

  /** The nodes and edges of a three-line text, one line at a time. */
  lemma ThreeLineShape(lines: seq<string>)
    requires |lines| == 3
    ensures LinesFlow(lines) == Flow([LineNode(0, lines[0]), LineNode(1, lines[1]), LineNode(2, lines[2])],
                                     [LinkEdge(1), LinkEdge(2)])
  {
  }

  /** The concrete ids, labels and positions for the lines "a", "b" and "c". */
  lemma ThreeLineLayout()
    ensures Flow([LineNode(0, "a"), LineNode(1, "b"), LineNode(2, "c")], [LinkEdge(1), LinkEdge(2)])
            == Flow([Node("node-0", "a", 250, 100), Node("node-1", "b", 250, 200), Node("node-2", "c", 250, 300)],
                    [Edge("edge-1", "node-0", "node-1"), Edge("edge-2", "node-1", "node-2")])
  {
    FirstIds();
    TrimKeepsUnpadded("a");
    TrimKeepsUnpadded("b");
    TrimKeepsUnpadded("c");
  }

  /** The first few ids spelled out. */
  lemma FirstIds()
    ensures NodeId(0) == "node-0" && NodeId(1) == "node-1" && NodeId(2) == "node-2"
    ensures EdgeId(1) == "edge-1" && EdgeId(2) == "edge-2"
  {
    assert Decimal(0) == "0" && Decimal(1) == "1" && Decimal(2) == "2";
  }
}

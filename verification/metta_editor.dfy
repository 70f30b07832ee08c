/**
 * The editor component's state and the two actions that change the graph:
 * "Run" (`interpretCode`) and "Reset" (`resetFlow`). The state is the editor
 * text `code`, the status text `output`, and the graph on display, `nodes`
 * and `edges`.
 */
module MettaEditor {
  import opened JsStrings
  import opened FlowGraph

  datatype Option<T> = None | Some(value: T)

  /** The status text after a successful run. */
  const SuccessMessage: string := "Code interpreted successfully"

  /** The text the editor starts with: a small factorial definition. */
  const DefaultCode: string :=
    "! define factorial\n(= (factorial $n)\n   (if (== $n 0)\n       1\n       (* $n (factorial (- $n 1)))))"

  /**
   * The body of the conversion: split the text at line feeds, then for each
   * line push its node and, after the first line, an edge from the previous
   * line's node. The result is the graph of the text.
   */
  method BuildFlow(code: string) returns (newNodes: seq<Node>, newEdges: seq<Edge>)
    ensures Flow(newNodes, newEdges) == FlowOf(code)
  {
    var lines := Split(code, '\n');
    newNodes, newEdges := [], [];
    var index := 0;
    while index < |lines|
      invariant 0 <= index <= |lines|
      invariant newNodes == LinesFlow(lines[..index]).nodes
      invariant newEdges == LinesFlow(lines[..index]).edges
    {
      var done, line := lines[..index], lines[index];
      assert lines[..index + 1] == done + [line];
      LinesFlowExtendNodes(done, line);
      LinesFlowExtendEdges(done, line);
      var node := Node(NodeId(index), Trim(line), NodeX, FirstY + index * RowGap);
      assert node == LineNode(|done|, line);
      newNodes := newNodes + [node];
      if index > 0 {
        var edge := Edge(EdgeId(index), NodeId(index - 1), NodeId(index));
        assert edge == LinkEdge(|done|);
        newEdges := newEdges + [edge];
      }
      index := index + 1;
    }
    assert lines[..index] == lines;
  }

  class Editor {
    var code: string
    var output: string
    var nodes: seq<Node>
    var edges: seq<Edge>

    /** The text whose graph is on display; None while no graph is shown. */
    ghost var shown: Option<string>

    /**
     * The graph on display is either empty, with an empty status, or exactly
     * the graph of some earlier text, with the success status. It may be
     * stale: editing the text does not redraw it.
     */
    ghost predicate Valid()
      reads this
    {
      match shown
      case None => nodes == [] && edges == [] && output == ""
      case Some(text) => nodes == FlowOf(text).nodes && edges == FlowOf(text).edges && output == SuccessMessage
    }

    /**
     * Whatever the buttons did last, the graph on display is well formed:
     * either empty, or at least one node, one edge fewer than nodes, edge `k`
     * running from node `k` to node `k + 1`, and no two nodes sharing an id.
     */
    lemma ShownGraphIsPath()
      requires Valid()
      ensures || (nodes == [] && edges == [])
              || (&& |nodes| >= 1 && |edges| == |nodes| - 1
                  && (forall k :: 0 <= k < |edges| ==>
                        edges[k].source == nodes[k].id && edges[k].target == nodes[k + 1].id)
                  && (forall i, j :: 0 <= i < j < |nodes| ==> nodes[i].id != nodes[j].id))
    {
      match shown
      case None =>
      case Some(text) =>
        FlowCounts(text);
        FlowIsPath(text);
        FlowIdsDistinct(text);
    }

    /** A fresh editor: the default text, no graph, no status. */
    constructor ()
      ensures Valid() && shown == None
      ensures code == DefaultCode && output == "" && nodes == [] && edges == []
    {
      code := DefaultCode;
      output := "";
      nodes := [];
      edges := [];
      shown := None;
    }

    /**
     * Replaces the text verbatim (typing in the editor, picking an example,
     * opening a file); the graph and the status stay as they were.
     */
    method SetCode(text: string)
      requires Valid()
      modifies this`code
      ensures Valid()
      ensures code == text
      ensures output == old(output) && nodes == old(nodes) && edges == old(edges) && shown == old(shown)
    {
      code := text;
    }

    /**
     * "Run": one node per line of the text and one edge from each line's node
     * to the next one's, replacing the previous graph entirely, and the
     * success status. The text itself is not touched.
     */
    method Interpret()
      modifies this`output, this`nodes, this`edges, this`shown
      ensures Valid() && shown == Some(code)
      ensures code == old(code)
      ensures output == SuccessMessage
      ensures nodes == FlowOf(code).nodes && edges == FlowOf(code).edges
      ensures |nodes| == multiset(code)['\n'] + 1 && |edges| == |nodes| - 1
    {
      var newNodes, newEdges := BuildFlow(code);
      nodes := newNodes;
      edges := newEdges;
      output := SuccessMessage;
      shown := Some(code);
    }

    /**
     * "Reset": no nodes, no edges, empty status, whatever was shown before;
     * the text is not touched. The new state does not depend on the old
     * graph, so resetting twice is the same as resetting once.
     */
    method Reset()
      modifies this`output, this`nodes, this`edges, this`shown
      ensures Valid() && shown == None
      ensures nodes == [] && edges == [] && output == ""
      ensures code == old(code)
    {
      nodes := [];
      edges := [];
      output := "";
      shown := None;
    }
  }

  /**
   * A session as the buttons drive it: "Run" twice shows the same graph as
   * once, "Reset" twice leaves the same empty state as once, and neither
   * touches the text.
   */
  method Session(text: string)
  {
    var editor := new Editor();
    editor.SetCode(text);
    editor.Interpret();
    var nodes1, edges1 := editor.nodes, editor.edges;
    editor.Interpret();
    assert editor.nodes == nodes1 && editor.edges == edges1 && editor.code == text;
    editor.Reset();
    editor.Reset();
    assert editor.nodes == [] && editor.edges == [] && editor.output == "" && editor.code == text;
  }
}

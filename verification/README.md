# VegaMetta editor: line-to-graph conversion in Dafny

VegaMetta is a browser front end for writing MeTTa text and showing it as a
graph. The "Run" button calls `interpretCode`. It cuts the editor text at
every line feed and makes one graph node per line, in document order. Each
node is labelled with its line's trimmed text and placed in one column, 100
units below the previous node. It also adds one edge from each line's node to
the next line's node. The result replaces the shown graph, and the status
becomes "Code interpreted successfully". The "Reset" button calls
`resetFlow`, which clears the graph and the status. Nothing parses or
evaluates MeTTa.

The model has three modules:

- `JsStrings` (`js_strings.dfy`): the JavaScript built-ins the conversion
  uses, as functions. `Split` is `String.prototype.split` with a
  one-character separator. `Trim` is `String.prototype.trim`, with the
  ECMAScript WhiteSpace and LineTerminator characters. `Decimal` is how
  `${index}` prints an array index (an integer below 2^32, which JavaScript
  always prints as plain decimal digits). Each has a partner: `Join` for
  `Split`, a slice characterisation and idempotence for `Trim`, and
  `DecimalValue` for `Decimal`.
- `FlowGraph` (`flow_graph.dfy`): the `Node`, `Edge` and `Flow` values and
  `FlowOf(code)`, the graph of a text. Its lemmas cover the counts, ids,
  labels, positions and path shape of the graph.
- `MettaEditor` (`metta_editor.dfy`): the component state as a class
  `Editor`, with fields `code`, `output`, `nodes` and `edges`. Its methods
  are `SetCode`, `Interpret` and `Reset`. The loop of `interpretCode` is the
  method `BuildFlow`. A ghost field `shown` records which text the shown
  graph came from. `Valid()` says that the shown graph is either empty with
  an empty status, or exactly `FlowOf` of some earlier text with the success
  status.

`"".split('\n')` is `[""]`, so the empty text gives one node `node-0` with
the empty label and no edge (`FlowGraph.EmptyCodeFlow`).

## Model

| member | source | states |
|---|---|---|
| `JsStrings.Split` | components/metta-editor.tsx:73 | splitting at `'\n'` yields one piece more than the text has line feeds (so `""` yields one piece), and no piece contains a line feed |
| `JsStrings.JoinSplit` | components/metta-editor.tsx:73 | joining the pieces again with the separator gives back the text exactly: split loses no character |
| `JsStrings.SplitJoin` | components/metta-editor.tsx:73 | any non-empty list of separator-free pieces is what splitting its join returns, so the split is the only such decomposition |
| `JsStrings.Trim` | components/metta-editor.tsx:81 | the trimmed line neither starts nor ends with a whitespace character |
| `JsStrings.TrimIsSlice` | components/metta-editor.tsx:81 | the trimmed line is a contiguous slice of the line, with only whitespace before and after that slice |
| `JsStrings.TrimIdempotent` | components/metta-editor.tsx:81 | trimming an already trimmed text changes nothing |
| `JsStrings.TrimKeepsUnpadded` | components/metta-editor.tsx:81 | a text with no whitespace at either end is left as it is |
| `JsStrings.TrimIgnoresPadding` | components/metta-editor.tsx:81 | whitespace added before or after a line does not change its trimmed form |
| `JsStrings.AllWhitespaceTrimsAway` | components/metta-editor.tsx:81 | a blank or whitespace-only line trims to the empty label |
| `JsStrings.Decimal` | components/metta-editor.tsx:79 | an index prints as at least one decimal digit, with a leading `0` only for zero |
| `JsStrings.DecimalRoundTrip` | components/metta-editor.tsx:79 | reading the printed digits back gives the index |
| `JsStrings.DecimalInjective` | components/metta-editor.tsx:79 | two indices print the same exactly when they are equal |
| `FlowGraph.LinesFlowExtendNodes` | components/metta-editor.tsx:77-85 | handling one more line appends exactly its node and leaves the nodes already pushed unchanged |
| `FlowGraph.LinesFlowExtendEdges` | components/metta-editor.tsx:87-95 | handling one more line appends one edge into it, except for the first line, which appends none |
| `FlowGraph.FlowCounts` | components/metta-editor.tsx:73-95 | the node count is the number of line feeds plus one, and the edge count is one less than the node count |
| `FlowGraph.FlowNodes` | components/metta-editor.tsx:77-85 | node `i` is `node-i`, labelled with the trimmed line `i`, at (250, 100 + 100·i); the lines join back into the text |
| `FlowGraph.FlowNodesDescend` | components/metta-editor.tsx:83 | node heights strictly increase in document order |
| `FlowGraph.NodeIdInjective` | components/metta-editor.tsx:79 | `node-i` and `node-j` are the same id exactly when i = j |
| `FlowGraph.EdgeIdInjective` | components/metta-editor.tsx:89 | `edge-i` and `edge-j` are the same id exactly when i = j |
| `FlowGraph.FlowIdsDistinct` | components/metta-editor.tsx:77-95 | no two nodes share an id and no two edges share an id |
| `FlowGraph.FlowIsPath` | components/metta-editor.tsx:87-95 | edge `k` is `edge-(k+1)` from node `k` to node `k+1`, so the edges run from `node-0` to the last node through every node in order |
| `FlowGraph.FlowEndpointsAreNodes` | components/metta-editor.tsx:88-92 | every edge source and target is the id of a produced node |
| `FlowGraph.WalkAdvances` | components/metta-editor.tsx:87-95 | every step of a walk along the edges moves exactly one line down |
| `FlowGraph.FlowAcyclic` | components/metta-editor.tsx:87-95 | no walk along the edges ends at the node it started from |
| `FlowGraph.FlowLabelsTrimmed` | components/metta-editor.tsx:81 | every label is its own trimmed form and has no leading or trailing whitespace, so it has no trailing `\r` |
| `FlowGraph.CarriageReturnIgnored` | components/metta-editor.tsx:81 | a line that keeps the `\r` of a CRLF line ending gives the same node as the line without it |
| `FlowGraph.EmptyCodeFlow` | components/metta-editor.tsx:73-96 | the empty text gives one node `node-0` with the empty label at (250, 100) and no edge |
| `FlowGraph.ThreeLines` | components/metta-editor.tsx:73 | `"a\nb\nc"` splits into `"a"`, `"b"` and `"c"` |
| `FlowGraph.ThreeLineFlow` | components/metta-editor.tsx:73-96 | `"a\nb\nc"` gives nodes a, b, c as `node-0` to `node-2`, plus `edge-1` (node-0 to node-1) and `edge-2` (node-1 to node-2) |
| `MettaEditor.Editor.ShownGraphIsPath` | components/metta-editor.tsx:71-110 | after any sequence of runs and resets the graph on display is either empty, or one edge fewer than its nodes with edge `k` running from node `k` to node `k + 1` and no two nodes sharing an id |
| `MettaEditor.BuildFlow` | components/metta-editor.tsx:73-96 | the `forEach` loop that pushes one node per line and one edge per later line builds exactly `FlowOf(code)` |
| `MettaEditor.Editor.constructor` | components/metta-editor.tsx:41-44 | a new editor holds the default factorial text, no nodes, no edges and an empty status |
| `MettaEditor.Editor.SetCode` | components/metta-editor.tsx:164 | replacing the text stores it verbatim and leaves the graph, the status and `Valid()` unchanged |
| `MettaEditor.Editor.Interpret` | components/metta-editor.tsx:71-104 | the graph becomes exactly `FlowOf(code)`, with nothing left of the previous one; it has one node per line feed plus one and one edge fewer; the status is the success string; the text is unchanged |
| `MettaEditor.Editor.Reset` | components/metta-editor.tsx:106-110 | nodes and edges become empty and the status `""`, whatever was shown before; the text is unchanged, so resetting twice equals resetting once |

`MettaEditor.Session` is a client with no contract. It checks that running
twice shows the same graph as running once, and that resetting twice leaves
the same state as resetting once.

## Left out

- Zoom in and zoom out (components/metta-editor.tsx:112-128) are left out. They parse a CSS transform with `parseFloat` and scale it by 1.2 or 0.8, which is floating-point DOM work. Zooming in and then out leaves the scale at 0.96 of the original, not at the original.
- Fit-view (components/metta-editor.tsx:130-135) is left out: it only dispatches a DOM event.
- Local storage is left out (components/metta-editor.tsx:47-69). So are restoring the text on mount, saving it on every change, and the `codeLoaded` window event. `Editor.SetCode` models what these do to the state: they replace `code` verbatim. The Monaco change handler's `value || ''` (the empty text when no value is given) is not modelled separately.
- The `catch` branch (components/metta-editor.tsx:101-103) is left out: splitting, trimming and pushing onto arrays cannot throw here.
- ReactFlow's `onNodesChange` and `onEdgesChange` are left out. These are drags, selections and deletions on the canvas. `Editor.Valid` describes the graph as the two buttons leave it, without canvas edits.
- Rendering-only fields are left out: `className`, the edge `type: 'smoothstep'`, `defaultEdgeOptions`, the sidebar toggle, and the Monaco and ReactFlow widgets.
- components/navbar.tsx, components/examples-sidebar.tsx and app/page.tsx are left out. They do file save and open through browser APIs, show links, toggle the theme, list static examples, and lay out the page. The example picker only calls `setCode`, which `Editor.SetCode` models.
- JavaScript strings are sequences of UTF-16 code units. The model uses Dafny's `char`, a Unicode scalar value, so it cannot represent a lone surrogate. Splitting at `'\n'` and trimming act the same on both views, because every whitespace character `trim` removes is a single code unit.
- Node coordinates are JavaScript numbers (doubles). The model uses unbounded integers. The lines come from a JavaScript Array, which has fewer than 2^32 elements, so every index is below 2^32 and every y = 100 + 100·index is below 2^39. Doubles represent every integer of that size exactly, so the integer and double results agree.

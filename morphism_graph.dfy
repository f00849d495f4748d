/**
 * `build_morphism_graph_data`: the node and edge lists behind the morphism
 * visualization. The database schema (`fetch_table_structure()`) enters as
 * its table names in the dictionary's iteration order, and the optional
 * PDF as a flag saying whether one was supplied.
 */
module MorphismGraph {
  import opened PyText

  datatype Node = Node(id: string, caption: string)
  datatype Edge = Edge(from: string, to: string, caption: string)
  datatype GraphData = GraphData(nodes: seq<Node>, edges: seq<Edge>)

  const RootNode := Node("SR", "User Requirements")
  const DbNode := Node("DB", "Database Tables")
  const PdfNode := Node("PDF", "PDF Document")
  const ArtifactNodes: seq<Node> := [
    Node("SD", "System Designs"),
    Node("VR", "Verification Requirements"),
    Node("VM", "Verification Models")
  ]

  const PdfEdge := Edge("SR", "PDF", "details in")
  const MorphismEdges: seq<Edge> := [
    Edge("SR", "SD", "design mapping"),
    Edge("SD", "VM", "verification mapping"),
    Edge("SR", "VR", "verification derivation"),
    Edge("VR", "VM", "morphism proof")
  ]

  // ---------------------------------------------------------------------
  // Per-table nodes and edges
  // ---------------------------------------------------------------------

  const TablePrefix := "DB_"

  function TableNodeId(table: string): string {
    TablePrefix + table
  }

  predicate HasTablePrefix(id: string) {
    |id| >= 3 && id[..3] == TablePrefix
  }

  /** Table node ids are exactly the prefixed ids, and the prefix can be stripped again. */
  lemma TableNodeIdMatches(table: string, id: string)
    ensures TableNodeId(table) == id <==> HasTablePrefix(id) && id[3..] == table
  {
    if HasTablePrefix(id) && id[3..] == table {
      assert id == id[..3] + id[3..];
    }
    if TableNodeId(table) == id {
      assert id[3..] == TableNodeId(table)[3..] == table;
    }
  }

  function TableNode(table: string): Node {
    Node(TableNodeId(table), table)
  }

  function ContainsEdge(table: string): Edge {
    Edge("DB", TableNodeId(table), "contains")
  }

  function ReferencesEdge(table: string): Edge {
    Edge("SR", TableNodeId(table), "references")
  }

  /** `table.lower() in user_requirements.lower()`. */
  predicate References(userRequirements: string, table: string) {
    Contains(Lower(userRequirements), Lower(table))
  }

  /** The edges one iteration of the table loop appends. */
  function EdgesForTable(userRequirements: string, table: string): seq<Edge> {
    [ContainsEdge(table)] + if References(userRequirements, table) then [ReferencesEdge(table)] else []
  }

  function TableNodes(tables: seq<string>): seq<Node> {
    seq(|tables|, j requires 0 <= j < |tables| => TableNode(tables[j]))
  }

  lemma TableNodesExtend(tables: seq<string>, i: nat)
    requires i < |tables|
    ensures TableNodes(tables[..i + 1]) == TableNodes(tables[..i]) + [TableNode(tables[i])]
  {
  }

  lemma TableNodesAll(tables: seq<string>)
    ensures TableNodes(tables[..|tables|]) == TableNodes(tables)
  {
    assert tables[..|tables|] == tables;
  }

  function TableEdges(userRequirements: string, tables: seq<string>): seq<Edge>
    decreases |tables|
  {
    if tables == [] then []
    else TableEdges(userRequirements, tables[..|tables| - 1]) + EdgesForTable(userRequirements, tables[|tables| - 1])
  }

  lemma TableEdgesExtend(userRequirements: string, tables: seq<string>, i: nat)
    requires i < |tables|
    ensures TableEdges(userRequirements, tables[..i + 1])
            == TableEdges(userRequirements, tables[..i]) + EdgesForTable(userRequirements, tables[i])
  {
    assert tables[..i + 1][..i] == tables[..i];
  }

  lemma TableEdgesAll(userRequirements: string, tables: seq<string>)
    ensures TableEdges(userRequirements, tables[..|tables|]) == TableEdges(userRequirements, tables)
  {
    assert tables[..|tables|] == tables;
  }

  // ---------------------------------------------------------------------
  // The graph as a function of the inputs
  // ---------------------------------------------------------------------

  function DbNodes(tables: seq<string>): seq<Node> {
    if |tables| == 0 then [] else [DbNode] + TableNodes(tables)
  }

  function PdfNodes(pdfSupplied: bool): seq<Node> {
    if pdfSupplied then [PdfNode] else []
  }

  function PdfEdges(pdfSupplied: bool): seq<Edge> {
    if pdfSupplied then [PdfEdge] else []
  }

  /** The node list, in the order the source appends to it. */
  function GraphNodes(tables: seq<string>, pdfSupplied: bool): seq<Node> {
    [RootNode] + DbNodes(tables) + PdfNodes(pdfSupplied) + ArtifactNodes
  }

  /** The edge list, in the order the source appends to it. */
  function GraphEdges(userRequirements: string, tables: seq<string>, pdfSupplied: bool): seq<Edge> {
    TableEdges(userRequirements, tables) + PdfEdges(pdfSupplied) + MorphismEdges
  }

  /** The list the table loop leaves behind is the root followed by the database part. */
  lemma DbNodesFollowRoot(tables: seq<string>)
    requires |tables| > 0
    ensures [RootNode, DbNode] + TableNodes(tables) == [RootNode] + DbNodes(tables)
  {
    PairThenRest(RootNode, DbNode, TableNodes(tables));
  }

  lemma PairThenRest<T>(a: T, b: T, rest: seq<T>)
    ensures [a, b] + rest == [a] + ([b] + rest)
  {
    assert [a, b] == [a] + [b];
  }

  lemma IndexInFront<T>(front: seq<T>, back: seq<T>, i: nat)
    requires i < |front|
    ensures (front + back)[i] == front[i]
  {
  }

  lemma IndexInBack<T>(front: seq<T>, back: seq<T>, i: nat)
    requires |front| <= i < |front| + |back|
    ensures (front + back)[i] == back[i - |front|]
  {
  }

  /**
   * The node list starts with the requirements root, then the database
   * node and one node per table in the schema's iteration order, then the
   * PDF node, and ends with the three artifact nodes SD, VR, VM.
   */
  lemma NodeOrder(tables: seq<string>, pdfSupplied: bool)
    ensures var ns := GraphNodes(tables, pdfSupplied);
      && |ns| == 4 + (if |tables| > 0 then 1 + |tables| else 0) + (if pdfSupplied then 1 else 0)
      && ns[0] == RootNode
      && ns[|ns| - 3] == ArtifactNodes[0] && ns[|ns| - 2] == ArtifactNodes[1] && ns[|ns| - 1] == ArtifactNodes[2]
      && (|tables| > 0 ==> ns[1] == DbNode)
      && (pdfSupplied ==> ns[|ns| - 4] == PdfNode)
  {
  }

  /** The table nodes follow the `DB` node, one per table, in the schema's iteration order. */
  lemma TableNodesInOrder(tables: seq<string>, pdfSupplied: bool, j: nat)
    requires j < |tables|
    ensures GraphNodes(tables, pdfSupplied)[2 + j] == TableNode(tables[j])
  {
    var db := DbNodes(tables);
    var front := [RootNode] + db;
    assert db == [DbNode] + TableNodes(tables);
    IndexInFront(front + PdfNodes(pdfSupplied), ArtifactNodes, 2 + j);
    IndexInFront(front, PdfNodes(pdfSupplied), 2 + j);
    IndexInBack([RootNode], db, 2 + j);
    IndexInBack([DbNode], TableNodes(tables), 1 + j);
  }

  /**
   * The edge list ends with SR->SD, SD->VM, SR->VR, VR->VM, preceded by the
   * SR->PDF edge when a PDF was supplied; at least one edge per table comes first.
   */
  lemma EdgeOrder(userRequirements: string, tables: seq<string>, pdfSupplied: bool)
    ensures var es := GraphEdges(userRequirements, tables, pdfSupplied);
      && |es| >= 4 + |tables| + (if pdfSupplied then 1 else 0)
      && es[|es| - 4..] == MorphismEdges
      && (pdfSupplied ==> es[|es| - 5] == PdfEdge)
  {
    TableEdgesLength(userRequirements, tables);
  }

  lemma {:induction false} TableEdgesLength(userRequirements: string, tables: seq<string>)
    ensures |tables| <= |TableEdges(userRequirements, tables)| <= 2 * |tables|
    decreases |tables|
  {
    if tables != [] {
      TableEdgesLength(userRequirements, tables[..|tables| - 1]);
    }
  }

  function MorphismGraphOf(userRequirements: string, tables: seq<string>, pdfSupplied: bool): GraphData {
    GraphData(GraphNodes(tables, pdfSupplied), GraphEdges(userRequirements, tables, pdfSupplied))
  }

  // ---------------------------------------------------------------------
  // The builder
  // ---------------------------------------------------------------------

  /**
   * `build_morphism_graph_data(user_requirements, pdf_data)` with the
   * schema's table names and the PDF flag passed in: grows the node and
   * edge lists step by step, as the source appends to them.
   */
  method BuildMorphismGraphData(userRequirements: string, tableStructure: seq<string>, pdfSupplied: bool)
    returns (g: GraphData)
    ensures g == MorphismGraphOf(userRequirements, tableStructure, pdfSupplied)
  {
    var nodes: seq<Node> := [];
    var edges: seq<Edge> := [];

    nodes := nodes + [RootNode];

    if |tableStructure| > 0 {
      nodes := nodes + [DbNode];
      for i := 0 to |tableStructure|
        invariant nodes == [RootNode, DbNode] + TableNodes(tableStructure[..i])
        invariant edges == TableEdges(userRequirements, tableStructure[..i])
      {
        var table := tableStructure[i];
        var tableNodeId := TablePrefix + table;
        nodes := nodes + [Node(tableNodeId, table)];
        edges := edges + [Edge("DB", tableNodeId, "contains")];
        if Contains(Lower(userRequirements), Lower(table)) {
          edges := edges + [Edge("SR", tableNodeId, "references")];
        }
        TableNodesExtend(tableStructure, i);
        TableEdgesExtend(userRequirements, tableStructure, i);
      }
      TableNodesAll(tableStructure);
      TableEdgesAll(userRequirements, tableStructure);
      DbNodesFollowRoot(tableStructure);
    }
    assert nodes == [RootNode] + DbNodes(tableStructure);
    assert edges == TableEdges(userRequirements, tableStructure);

    ghost var nodesBeforePdf, edgesBeforePdf := nodes, edges;
    if pdfSupplied {
      nodes := nodes + [PdfNode];
      edges := edges + [PdfEdge];
    }
    assert nodes == nodesBeforePdf + PdfNodes(pdfSupplied);
    assert edges == edgesBeforePdf + PdfEdges(pdfSupplied);

    nodes := nodes + ArtifactNodes;
    edges := edges + MorphismEdges;

    g := GraphData(nodes, edges);
  }
}

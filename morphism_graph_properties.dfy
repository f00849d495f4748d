/**
 * What `build_morphism_graph_data` guarantees about the lists it returns:
 * which nodes and edges are present and how often, in terms of the table
 * names, the requirement text and the PDF flag; that no edge dangles; and
 * that node ids are distinct exactly when table names are.
 */
module MorphismGraphProperties {
  import opened MorphismGraph

  /** The `id` of every node, in list order. */
  function Ids(ns: seq<Node>): seq<string> {
    seq(|ns|, i requires 0 <= i < |ns| => ns[i].id)
  }

  predicate Distinct<T(==)>(s: seq<T>) {
    forall i, j :: 0 <= i < j < |s| ==> s[i] != s[j]
  }

  // ---------------------------------------------------------------------
  // Sequences: ids of concatenations, distinctness as counting
  // ---------------------------------------------------------------------

  lemma IdsConcat(a: seq<Node>, b: seq<Node>)
    ensures Ids(a + b) == Ids(a) + Ids(b)
  {
  }

  /** An element found at two positions occurs at least twice. */
  lemma TwoPositions<T>(s: seq<T>, i: nat, j: nat)
    requires i < j < |s| && s[i] == s[j]
    ensures multiset(s)[s[i]] >= 2
  {
    assert s == s[..j] + s[j..];
    assert s[..j][i] == s[i] && s[j..][0] == s[i];
    assert multiset(s)[s[i]] == multiset(s[..j])[s[i]] + multiset(s[j..])[s[i]];
  }

  /** A sequence has no repeated element exactly when nothing occurs in it twice. */
  lemma {:induction false} DistinctByCount<T>(s: seq<T>)
    ensures Distinct(s) <==> forall x :: multiset(s)[x] <= 1
    decreases |s|
  {
    if s == [] {
      return;
    }
    var init, last := s[..|s| - 1], s[|s| - 1];
    assert s == init + [last];
    DistinctByCount(init);
    if Distinct(s) {
      assert Distinct(init);
      forall x ensures multiset(s)[x] <= 1 {
        assert multiset(s)[x] == multiset(init)[x] + multiset([last])[x];
      }
    }
    if forall x :: multiset(s)[x] <= 1 {
      forall i, j | 0 <= i < j < |s| ensures s[i] != s[j] {
        if s[i] == s[j] {
          TwoPositions(s, i, j);
        }
      }
    }
  }

  // ---------------------------------------------------------------------
  // Node ids
  // ---------------------------------------------------------------------

  /** A `DB_<table>` id occurs among the table nodes once per occurrence of that table. */
  lemma {:induction false} TableIdCount(tables: seq<string>, x: string)
    ensures multiset(Ids(TableNodes(tables)))[x] == if HasTablePrefix(x) then multiset(tables)[x[3..]] else 0
    decreases |tables|
  {
    if tables != [] {
      var init, last := tables[..|tables| - 1], tables[|tables| - 1];
      TableIdCount(init, x);
      assert tables == init + [last];
      assert Ids(TableNodes(tables)) == Ids(TableNodes(init)) + [TableNodeId(last)];
      TableNodeIdMatches(last, x);
    }
  }

  /** The ids of the `DB` node and the table nodes. */
  function DbIds(tables: seq<string>): seq<string> {
    if |tables| == 0 then [] else ["DB"] + Ids(TableNodes(tables))
  }

  function PdfIds(pdfSupplied: bool): seq<string> {
    if pdfSupplied then ["PDF"] else []
  }

  lemma FixedNodeIds()
    ensures Ids([RootNode]) == ["SR"] && Ids([DbNode]) == ["DB"] && Ids([PdfNode]) == ["PDF"]
    ensures Ids(ArtifactNodes) == ["SD", "VR", "VM"]
  {
  }

  lemma GraphNodeIds(tables: seq<string>, pdfSupplied: bool)
    ensures Ids(GraphNodes(tables, pdfSupplied)) == ["SR"] + DbIds(tables) + PdfIds(pdfSupplied) + ["SD", "VR", "VM"]
  {
    var root, db, pdf := [RootNode], DbNodes(tables), PdfNodes(pdfSupplied);
    FixedNodeIds();
    assert Ids(db) == DbIds(tables) by {
      if |tables| > 0 {
        IdsConcat([DbNode], TableNodes(tables));
      }
    }
    assert Ids(pdf) == PdfIds(pdfSupplied);
    assert Ids(root + db + pdf + ArtifactNodes) == Ids(root) + Ids(db) + Ids(pdf) + Ids(ArtifactNodes) by {
      IdsConcat(root + db + pdf, ArtifactNodes);
      IdsConcat(root + db, pdf);
      IdsConcat(root, db);
    }
  }

  /** None of the fixed ids has the `DB_` prefix of table node ids. */
  lemma FixedIdsAreNotTableIds(x: string)
    requires HasTablePrefix(x)
    ensures x != "SR" && x != "SD" && x != "VR" && x != "VM" && x != "DB" && x != "PDF"
  {
    assert x[..3][0] == x[0] == 'D';
  }

  /**
   * How many nodes carry the id `x`: one for each of SR, SD, VR and VM;
   * one for DB exactly when there are tables; one for PDF exactly when a
   * PDF was supplied; one for `DB_<t>` per occurrence of table `t`; none
   * for any other id.
   */
  lemma NodeIdCount(tables: seq<string>, pdfSupplied: bool, x: string)
    ensures multiset(Ids(GraphNodes(tables, pdfSupplied)))[x] ==
      if x == "SR" || x == "SD" || x == "VR" || x == "VM" then 1
      else if x == "DB" then (if |tables| > 0 then 1 else 0)
      else if x == "PDF" then (if pdfSupplied then 1 else 0)
      else if HasTablePrefix(x) then multiset(tables)[x[3..]]
      else 0
  {
    NodeIdCountByPart(tables, pdfSupplied, x);
    DbIdCount(tables, x);
    FixedIdCount(pdfSupplied, x);
    if HasTablePrefix(x) {
      FixedIdsAreNotTableIds(x);
    }
  }

  lemma NodeIdCountByPart(tables: seq<string>, pdfSupplied: bool, x: string)
    ensures multiset(Ids(GraphNodes(tables, pdfSupplied)))[x] ==
            multiset(["SR"])[x] + multiset(DbIds(tables))[x] + multiset(PdfIds(pdfSupplied))[x] + multiset(["SD", "VR", "VM"])[x]
  {
    GraphNodeIds(tables, pdfSupplied);
  }

  lemma FixedIdCount(pdfSupplied: bool, x: string)
    ensures multiset(["SR"])[x] + multiset(PdfIds(pdfSupplied))[x] + multiset(["SD", "VR", "VM"])[x] ==
            if x == "SR" || x == "SD" || x == "VR" || x == "VM" then 1
            else if x == "PDF" && pdfSupplied then 1
            else 0
  {
  }

  /** The `DB` id once when there are tables, and a `DB_<t>` id per occurrence of `t`. */
  lemma DbIdCount(tables: seq<string>, x: string)
    ensures multiset(DbIds(tables))[x] ==
            (if x == "DB" && |tables| > 0 then 1 else 0) + (if HasTablePrefix(x) then multiset(tables)[x[3..]] else 0)
  {
    TableIdCount(tables, x);
    if |tables| > 0 {
      assert multiset(DbIds(tables))[x] == multiset(["DB"])[x] + multiset(Ids(TableNodes(tables)))[x];
    }
    if HasTablePrefix(x) {
      FixedIdsAreNotTableIds(x);
    }
  }

  /** The `DB` node is present exactly when the schema has tables. */
  lemma DbNodePresentIff(tables: seq<string>, pdfSupplied: bool)
    ensures "DB" in Ids(GraphNodes(tables, pdfSupplied)) <==> |tables| > 0
    ensures DbNode in GraphNodes(tables, pdfSupplied) <==> |tables| > 0
  {
    var ns := GraphNodes(tables, pdfSupplied);
    NodeIdCount(tables, pdfSupplied, "DB");
    if DbNode in ns {
      var i :| 0 <= i < |ns| && ns[i] == DbNode;
      assert Ids(ns)[i] == "DB";
    }
  }

  /** A node per table: exactly one `DB_<t>` node for each distinct table `t`, labelled `t`. */
  lemma TableNodeExactlyOnce(tables: seq<string>, pdfSupplied: bool, t: string)
    requires Distinct(tables) && t in tables
    ensures multiset(Ids(GraphNodes(tables, pdfSupplied)))[TableNodeId(t)] == 1
    ensures TableNode(t) in GraphNodes(tables, pdfSupplied)
    ensures forall n :: n in GraphNodes(tables, pdfSupplied) && n.id == TableNodeId(t) ==> n == TableNode(t)
  {
    var ns := GraphNodes(tables, pdfSupplied);
    TableIdOnce(tables, pdfSupplied, t);
    var j :| 0 <= j < |tables| && tables[j] == t;
    TableNodesInOrder(tables, pdfSupplied, j);
    forall n | n in ns && n.id == TableNodeId(t) ensures n == TableNode(t) {
      var k :| 0 <= k < |ns| && ns[k] == n;
      UniqueIdPosition(ns, 2 + j, k);
    }
  }

  lemma TableIdOnce(tables: seq<string>, pdfSupplied: bool, t: string)
    requires Distinct(tables) && t in tables
    ensures multiset(Ids(GraphNodes(tables, pdfSupplied)))[TableNodeId(t)] == 1
  {
    var id := TableNodeId(t);
    TableNodeIdMatches(t, id);
    FixedIdsAreNotTableIds(id);
    NodeIdCount(tables, pdfSupplied, id);
    DistinctByCount(tables);
  }

  /** An id that occurs once among the nodes belongs to one position only. */
  lemma UniqueIdPosition(ns: seq<Node>, i: nat, k: nat)
    requires i < |ns| && k < |ns| && ns[k].id == ns[i].id
    requires multiset(Ids(ns))[ns[i].id] == 1
    ensures k == i
  {
    var ids := Ids(ns);
    if k < i {
      TwoPositions(ids, k, i);
    } else if i < k {
      TwoPositions(ids, i, k);
    }
  }

  /** Node ids are pairwise distinct exactly when the table names are. */
  lemma DistinctIdsIff(tables: seq<string>, pdfSupplied: bool)
    ensures Distinct(Ids(GraphNodes(tables, pdfSupplied))) <==> Distinct(tables)
  {
    var ids := Ids(GraphNodes(tables, pdfSupplied));
    DistinctByCount(ids);
    DistinctByCount(tables);
    if Distinct(tables) {
      forall x ensures multiset(ids)[x] <= 1 {
        NodeIdCount(tables, pdfSupplied, x);
      }
    }
    if Distinct(ids) {
      forall t ensures multiset(tables)[t] <= 1 {
        TableNodeIdMatches(t, TableNodeId(t));
        NodeIdCount(tables, pdfSupplied, TableNodeId(t));
        FixedIdsAreNotTableIds(TableNodeId(t));
        assert multiset(ids)[TableNodeId(t)] <= 1;
      }
    }
  }

  // ---------------------------------------------------------------------
  // Edges
  // ---------------------------------------------------------------------

  /** Every edge the table loop adds is a `contains` edge or a `references` edge of one of the tables. */
  lemma {:induction false} TableEdgeShape(userRequirements: string, tables: seq<string>, e: Edge)
    requires e in TableEdges(userRequirements, tables)
    ensures exists t :: t in tables && (e == ContainsEdge(t) || (e == ReferencesEdge(t) && References(userRequirements, t)))
    decreases |tables|
  {
    var init, last := tables[..|tables| - 1], tables[|tables| - 1];
    assert tables == init + [last];
    if e in TableEdges(userRequirements, init) {
      TableEdgeShape(userRequirements, init, e);
      var t :| t in init && (e == ContainsEdge(t) || (e == ReferencesEdge(t) && References(userRequirements, t)));
      assert t in tables;
    } else {
      assert e in EdgesForTable(userRequirements, last);
    }
  }

  /** The table loop adds one `contains` edge per table occurrence and one `references` edge per referenced one. */
  lemma {:induction false} TableEdgeCount(userRequirements: string, tables: seq<string>, t: string)
    ensures multiset(TableEdges(userRequirements, tables))[ContainsEdge(t)] == multiset(tables)[t]
    ensures multiset(TableEdges(userRequirements, tables))[ReferencesEdge(t)] ==
            if References(userRequirements, t) then multiset(tables)[t] else 0
    decreases |tables|
  {
    if tables != [] {
      var init, last := tables[..|tables| - 1], tables[|tables| - 1];
      assert tables == init + [last];
      TableEdgeCount(userRequirements, init, t);
      EdgesForTableCount(userRequirements, last, t);
      assert multiset(TableEdges(userRequirements, tables)) ==
             multiset(TableEdges(userRequirements, init)) + multiset(EdgesForTable(userRequirements, last));
    }
  }

  /** One iteration of the table loop adds the edges of its own table only. */
  lemma EdgesForTableCount(userRequirements: string, table: string, t: string)
    ensures multiset(EdgesForTable(userRequirements, table))[ContainsEdge(t)] == if table == t then 1 else 0
    ensures multiset(EdgesForTable(userRequirements, table))[ReferencesEdge(t)] ==
            if table == t && References(userRequirements, t) then 1 else 0
  {
    TableNodeIdMatches(table, TableNodeId(t));
    TableNodeIdMatches(t, TableNodeId(t));
  }

  /**
   * Nothing else is wired: every edge is one of the four morphism edges,
   * the PDF edge (only when a PDF was supplied), or a `contains` or
   * `references` edge of a table (the latter only when referenced).
   */
  lemma EdgeShape(userRequirements: string, tables: seq<string>, pdfSupplied: bool, e: Edge)
    requires e in GraphEdges(userRequirements, tables, pdfSupplied)
    ensures || e in MorphismEdges
            || (pdfSupplied && e == PdfEdge)
            || exists t :: t in tables && (e == ContainsEdge(t) || (e == ReferencesEdge(t) && References(userRequirements, t)))
  {
    if e in TableEdges(userRequirements, tables) {
      TableEdgeShape(userRequirements, tables, e);
    }
  }

  /** An edge into a table node can only come from the table loop. */
  lemma TableTargetedEdgeCount(userRequirements: string, tables: seq<string>, pdfSupplied: bool, e: Edge)
    requires HasTablePrefix(e.to)
    ensures multiset(GraphEdges(userRequirements, tables, pdfSupplied))[e] == multiset(TableEdges(userRequirements, tables))[e]
  {
    FixedIdsAreNotTableIds(e.to);
    assert multiset(MorphismEdges)[e] == 0 by {
      assert e !in MorphismEdges;
    }
    assert multiset(PdfEdges(pdfSupplied))[e] == 0 by {
      assert e !in PdfEdges(pdfSupplied);
    }
    assert multiset(GraphEdges(userRequirements, tables, pdfSupplied)) ==
           multiset(TableEdges(userRequirements, tables)) + multiset(PdfEdges(pdfSupplied)) + multiset(MorphismEdges);
  }

  /** One `contains` edge DB -> DB_<t> per occurrence of table `t`. */
  lemma ContainsEdgeCount(userRequirements: string, tables: seq<string>, pdfSupplied: bool, t: string)
    ensures multiset(GraphEdges(userRequirements, tables, pdfSupplied))[ContainsEdge(t)] == multiset(tables)[t]
  {
    TableNodeIdMatches(t, TableNodeId(t));
    TableTargetedEdgeCount(userRequirements, tables, pdfSupplied, ContainsEdge(t));
    TableEdgeCount(userRequirements, tables, t);
  }

  /**
   * An SR -> DB_<t> `references` edge exists exactly when `t` is a table and
   * `t.lower()` occurs in the lower-cased requirement text; with distinct
   * table names there is at most one.
   */
  lemma ReferencesEdgeIff(userRequirements: string, tables: seq<string>, pdfSupplied: bool, t: string)
    ensures ReferencesEdge(t) in GraphEdges(userRequirements, tables, pdfSupplied)
            <==> t in tables && References(userRequirements, t)
    ensures Distinct(tables) ==> multiset(GraphEdges(userRequirements, tables, pdfSupplied))[ReferencesEdge(t)] <= 1
  {
    var count := multiset(GraphEdges(userRequirements, tables, pdfSupplied))[ReferencesEdge(t)];
    assert count == if References(userRequirements, t) then multiset(tables)[t] else 0 by {
      TableNodeIdMatches(t, TableNodeId(t));
      TableTargetedEdgeCount(userRequirements, tables, pdfSupplied, ReferencesEdge(t));
      TableEdgeCount(userRequirements, tables, t);
    }
    if Distinct(tables) {
      DistinctByCount(tables);
    }
  }

  /** The PDF node and the SR -> PDF `details in` edge appear exactly when a PDF was supplied, once each. */
  lemma PdfPresentIff(userRequirements: string, tables: seq<string>, pdfSupplied: bool)
    ensures "PDF" in Ids(GraphNodes(tables, pdfSupplied)) <==> pdfSupplied
    ensures multiset(Ids(GraphNodes(tables, pdfSupplied)))["PDF"] == if pdfSupplied then 1 else 0
    ensures multiset(GraphEdges(userRequirements, tables, pdfSupplied))[PdfEdge] == if pdfSupplied then 1 else 0
  {
    NodeIdCount(tables, pdfSupplied, "PDF");
    PdfEdgeCount(userRequirements, tables, pdfSupplied);
  }

  lemma PdfEdgeCount(userRequirements: string, tables: seq<string>, pdfSupplied: bool)
    ensures multiset(GraphEdges(userRequirements, tables, pdfSupplied))[PdfEdge] == if pdfSupplied then 1 else 0
  {
    var tableEdges := TableEdges(userRequirements, tables);
    assert multiset(tableEdges)[PdfEdge] == 0 by {
      if PdfEdge in tableEdges {
        TableEdgeShape(userRequirements, tables, PdfEdge);
      }
    }
    assert multiset(MorphismEdges)[PdfEdge] == 0;
    assert multiset(GraphEdges(userRequirements, tables, pdfSupplied))[PdfEdge] ==
           multiset(tableEdges)[PdfEdge] + multiset(PdfEdges(pdfSupplied))[PdfEdge] + multiset(MorphismEdges)[PdfEdge];
  }

  /** The fixed ids that are always present, and those present under their conditions. */
  lemma FixedIdsPresent(tables: seq<string>, pdfSupplied: bool)
    ensures var ids := Ids(GraphNodes(tables, pdfSupplied));
            && "SR" in ids && "SD" in ids && "VR" in ids && "VM" in ids
            && (|tables| > 0 ==> "DB" in ids)
            && (pdfSupplied ==> "PDF" in ids)
  {
    var ns := GraphNodes(tables, pdfSupplied);
    var ids := Ids(ns);
    NodeOrder(tables, pdfSupplied);
    assert ids[0] == "SR";
    assert ids[|ns| - 3] == "SD" && ids[|ns| - 2] == "VR" && ids[|ns| - 1] == "VM";
    if |tables| > 0 {
      assert ids[1] == "DB";
    }
    if pdfSupplied {
      assert ids[|ns| - 4] == "PDF";
    }
  }

  /** Both ends of one edge are node ids. */
  lemma EdgeEndsAreNodes(userRequirements: string, tables: seq<string>, pdfSupplied: bool, e: Edge)
    requires e in GraphEdges(userRequirements, tables, pdfSupplied)
    ensures e.from in Ids(GraphNodes(tables, pdfSupplied)) && e.to in Ids(GraphNodes(tables, pdfSupplied))
  {
    var ids := Ids(GraphNodes(tables, pdfSupplied));
    EdgeShape(userRequirements, tables, pdfSupplied, e);
    FixedIdsPresent(tables, pdfSupplied);
    if e in MorphismEdges {
      assert e.from in ["SR", "SD", "VR"] && e.to in ["SD", "VM", "VR"];
    } else if !(pdfSupplied && e == PdfEdge) {
      var t :| t in tables && (e == ContainsEdge(t) || (e == ReferencesEdge(t) && References(userRequirements, t)));
      assert e.to in ids by {
        TableNodeIdMatches(t, e.to);
        FixedIdsAreNotTableIds(e.to);
        NodeIdCount(tables, pdfSupplied, e.to);
        assert multiset(tables)[t] >= 1;
      }
    }
  }

  /** No dangling edges: both ends of every edge are ids of returned nodes. */
  lemma NoDanglingEdges(userRequirements: string, tables: seq<string>, pdfSupplied: bool)
    ensures forall e :: e in GraphEdges(userRequirements, tables, pdfSupplied) ==>
              e.from in Ids(GraphNodes(tables, pdfSupplied)) && e.to in Ids(GraphNodes(tables, pdfSupplied))
  {
    forall e | e in GraphEdges(userRequirements, tables, pdfSupplied)
      ensures e.from in Ids(GraphNodes(tables, pdfSupplied)) && e.to in Ids(GraphNodes(tables, pdfSupplied))
    {
      EdgeEndsAreNodes(userRequirements, tables, pdfSupplied, e);
    }
  }
}

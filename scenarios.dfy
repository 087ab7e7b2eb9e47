/** Concrete graphs that illustrate the operations. */
module Scenarios {
  import opened Wrappers
  import opened Adjacency
  import opened Dfs

  /** The graph the source's insertion test builds: root "A" with children
      "B", "C" and "D", and "E" and "F" under "D". */
  function InsertTestLinks(): (m: Links<string>)
    ensures m.Keys == {"A", "B", "C", "D", "E", "F"} && WellFormed(m)
  {
    var m0 := map["A" := {}];
    var m1 := Connect(m0["B" := {}], "A", "B");
    var m2 := Connect(m1["C" := {}], "A", "C");
    var m3 := Connect(m2["D" := {}], "A", "D");
    var m4 := Connect(m3["E" := {}], "D", "E");
    Connect(m4["F" := {}], "D", "F")
  }

  /** Every link the insertion test asserts is present in both directions;
      "D" and "E" are already linked, so linking them again answers false,
      while "E" and "F" are not. */
  lemma InsertTestGraph()
    ensures var m := InsertTestLinks();
            && Symmetric(m)
            && HasEdge(m, "A", "B") && HasEdge(m, "A", "C") && HasEdge(m, "A", "D")
            && HasEdge(m, "D", "E") && HasEdge(m, "D", "F")
            && !HasEdge(m, "E", "F") && !HasEdge(m, "B", "D")
  {
  }

  /** Every node of the insertion test's graph is reachable from the root, so
      `areLinked` finds both ends of each link the test asserts. */
  lemma InsertTestReachable()
    ensures var m := InsertTestLinks();
            && Reachable(m, "A", "B") && Reachable(m, "A", "C") && Reachable(m, "A", "D")
            && Reachable(m, "A", "E") && Reachable(m, "A", "F")
  {
    var m := InsertTestLinks();
    InsertTestGraph();
    assert IsPath(m, ["A", "B"]);
    assert IsPath(m, ["A", "C"]);
    assert IsPath(m, ["A", "D", "E"]);
    assert IsPath(m, ["A", "D", "F"]);
  }

  /** The edge sets of the insertion test's graph, node by node. */
  lemma InsertTestEdgeSets()
    ensures var m := InsertTestLinks();
            && m["A"] == {Edge("A", "B"), Edge("A", "C"), Edge("A", "D")}
            && m["B"] == {Edge("B", "A")} && m["C"] == {Edge("C", "A")}
            && m["D"] == {Edge("D", "A"), Edge("D", "E"), Edge("D", "F")}
            && m["E"] == {Edge("E", "D")} && m["F"] == {Edge("F", "D")}
  {
  }

  /** The order in which the JDK's hash sets yield the edges of the insertion
      test's graph: the bucket order of the edges' hash codes in a table of 16
      buckets, which puts the edges of "A" in the order B, C, D and those of "D"
      in the order E, F, A. */
  function InsertTestOrder(): (order: map<string, seq<Edge<string>>>)
    ensures IterationOrder(order, InsertTestLinks())
  {
    InsertTestEdgeSets();
    map["A" := [Edge("A", "B"), Edge("A", "C"), Edge("A", "D")],
        "B" := [Edge("B", "A")], "C" := [Edge("C", "A")],
        "D" := [Edge("D", "E"), Edge("D", "F"), Edge("D", "A")],
        "E" := [Edge("E", "D")], "F" := [Edge("F", "D")]]
  }

  /** m and order are the insertion test's edge sets and their hash order,
      stated node by node so that the traces below need not unfold how the
      graph was built. */
  ghost predicate TestGraph(m: Links<string>, order: map<string, seq<Edge<string>>>) {
    && m.Keys == {"A", "B", "C", "D", "E", "F"} && WellFormed(m) && IterationOrder(order, m)
    && m["A"] == {Edge("A", "B"), Edge("A", "C"), Edge("A", "D")}
    && m["C"] == {Edge("C", "A")} && m["E"] == {Edge("E", "D")} && m["F"] == {Edge("F", "D")}
    && order["A"] == [Edge("A", "B"), Edge("A", "C"), Edge("A", "D")]
    && order["C"] == [Edge("C", "A")] && order["E"] == [Edge("E", "D")] && order["F"] == [Edge("F", "D")]
    && order["D"] == [Edge("D", "E"), Edge("D", "F"), Edge("D", "A")]
  }

  /** The search as written into "C", "E" or "F" finds nothing: the only edge
      of each leads back to a checked node. */
  lemma InsertTestLeafMisses(m: Links<string>, order: map<string, seq<Edge<string>>>,
                             checked: set<string>, leaf: string)
    requires TestGraph(m, order)
    requires (leaf == "C" && checked == {"A"})
          || (leaf == "E" && checked == {"A", "C", "D"})
          || (leaf == "F" && checked == {"A", "C", "D", "E"})
    ensures SearchAsWritten(m, order, checked, leaf, "B") == (None, checked + {leaf})
  {
    assert order[leaf][0].target in checked + {leaf};
    assert LoopAsWritten(m, order, checked + {leaf}, leaf, 1, None, "B") == (None, checked + {leaf});
  }

  /** The search as written into "D" finds nothing and checks "D", "E" and "F". */
  lemma InsertTestSubtreeMisses(m: Links<string>, order: map<string, seq<Edge<string>>>)
    requires TestGraph(m, order)
    ensures SearchAsWritten(m, order, {"A", "C"}, "D", "B") == (None, {"A", "C", "D", "E", "F"})
  {
    var all := {"A", "C", "D", "E", "F"};
    InsertTestLeafMisses(m, order, {"A", "C", "D"}, "E");
    InsertTestLeafMisses(m, order, {"A", "C", "D", "E"}, "F");
    assert {"A", "C", "D"} + {"E"} == {"A", "C", "D", "E"};
    assert {"A", "C", "D", "E"} + {"F"} == all;
    assert LoopAsWritten(m, order, all, "D", 2, None, "B") == (None, all);
    assert LoopAsWritten(m, order, {"A", "C", "D", "E"}, "D", 1, None, "B") == (None, all);
    assert {"A", "C"} + {"D"} == {"A", "C", "D"};
    assert LoopAsWritten(m, order, {"A", "C", "D"}, "D", 0, None, "B") == (None, all);
  }

  /** The lookup of "B" from "A" with the search as written on the test graph. */
  lemma InsertTestTrace(m: Links<string>, order: map<string, seq<Edge<string>>>)
    requires TestGraph(m, order)
    ensures SearchAsWritten(m, order, {}, "A", "B").0 == None
  {
    var all := {"A", "C", "D", "E", "F"};
    InsertTestLeafMisses(m, order, {"A"}, "C");
    assert {"A"} + {"C"} == {"A", "C"};
    InsertTestSubtreeMisses(m, order);
    assert LoopAsWritten(m, order, {"A", "C"}, "A", 2, None, "B") == (None, all);
    assert LoopAsWritten(m, order, {"A"}, "A", 1, Some("B"), "B") == (None, all);
    assert SearchAsWritten(m, order, {"A"}, "B", "B") == (Some("B"), {"A"});
    assert LoopAsWritten(m, order, {"A"}, "A", 0, None, "B") == (None, all);
    assert {} + {"A"} == {"A"};
  }

  /** The insertion test's lookup of "B" with the search as written, in the
      order of InsertTestOrder. The call into "B" finds it, but the later calls
      into "C" and "D" return nothing and overwrite the result, so
      `areLinked("A", "B")` answers false although "B" is reachable. */
  lemma InsertTestSearchMisses()
    ensures var m, order := InsertTestLinks(), InsertTestOrder();
            && Reachable(m, "A", "B")
            && SearchAsWritten(m, order, {}, "A", "B").0 == None
  {
    InsertTestReachable();
    InsertTestEdgeSets();
    InsertTestTrace(InsertTestLinks(), InsertTestOrder());
  }

  /** What `remove` as written leaves behind: node 0 is linked to 1 and 2 and
      its edge to 1 is iterated first. Only the link to 1 goes before the
      iterator fails, so 0 and 2 stay linked; removal over a snapshot leaves
      0 without any link. */
  lemma RemoveAsWrittenKeepsLink()
    ensures var m := map[0 := {Edge(0, 1), Edge(0, 2)}, 1 := {Edge(1, 0)}, 2 := {Edge(2, 0)}];
            var order := map[0 := [Edge(0, 1), Edge(0, 2)], 1 := [Edge(1, 0)], 2 := [Edge(2, 0)]];
            && WellFormed(m) && Symmetric(m) && IterationOrder(order, m)
            && HasEdge(Disconnect(m, 0, order[0][0].target), 0, 2)
            && HasEdge(Disconnect(m, 0, order[0][0].target), 2, 0)
            && !HasEdge(Isolate(m, 0), 0, 2)
            && !HasEdge(Isolate(m, 0), 2, 0)
  {
  }
}

/**
  The two depth-first walks of the graph, `depthFirstSearch` (behind `findNode`)
  and the private `forEach`, as functions of the edge sets.

  A node's edge set is a hash set whose iteration order is unspecified. Every
  walk therefore takes that order as a parameter: order[x] lists the edges of x
  in the order in which iterating x's set yields them. Each property below holds
  for every such order.

  The set of already checked nodes, shared by reference between the recursive
  calls of the source, is threaded through as an argument and returned as the
  second component of each result.
 */
module Dfs {
  import opened Wrappers
  import opened Adjacency

  /** s lists every edge of `es` exactly once. */
  ghost predicate Enumerates<T(!new)>(s: seq<Edge<T>>, es: set<Edge<T>>) {
    && (forall e :: e in es <==> e in s)
    && (forall i, j :: 0 <= i < j < |s| ==> s[i] != s[j])
  }

  /** order gives an iteration order for the edge set of every node. */
  ghost predicate IterationOrder<T(!new)>(order: map<T, seq<Edge<T>>>, m: Links<T>) {
    forall x :: x in m ==> x in order && Enumerates(order[x], m[x])
  }

  /** The edges of the node `start` in iteration order, with their targets known nodes. */
  lemma OrderedEdge<T(!new)>(m: Links<T>, order: map<T, seq<Edge<T>>>, start: T, i: int)
    requires WellFormed(m) && IterationOrder(order, m) && start in m
    requires 0 <= i < |order[start]|
    ensures order[start][i] in m[start]
    ensures order[start][i].target in m && HasEdge(m, start, order[start][i].target)
  {
  }

  lemma CardinalityShrinks<T>(k: set<T>, c: set<T>, c': set<T>)
    requires c <= c'
    ensures |k - c'| <= |k - c|
  {
    assert k - c' <= k - c;
    SubsetCardinality(k - c', k - c);
  }

  /** Checking one more node of k leaves fewer of k unchecked. */
  lemma CardinalityDrops<T>(k: set<T>, c: set<T>, c': set<T>, x: T)
    requires c + {x} <= c' && x in k && x !in c
    ensures |k - c'| < |k - c|
  {
    assert k - c' <= (k - c) - {x};
    SubsetCardinality(k - c', (k - c) - {x});
  }

  lemma {:induction false} SubsetCardinality<T>(a: set<T>, b: set<T>)
    requires a <= b
    ensures |a| <= |b|
    decreases b
  {
    if a != {} {
      var x :| x in a;
      SubsetCardinality(a - {x}, b - {x});
    }
  }

  /*
   * The search as written: `result` takes the value of every recursive call
   * made in the loop, so a later call that finds nothing discards what an
   * earlier one found.
   */

  function SearchAsWritten<T(!new)>(m: Links<T>, order: map<T, seq<Edge<T>>>,
                                   checked: set<T>, start: T, criteria: T): (r: (Option<T>, set<T>))
    requires WellFormed(m) && IterationOrder(order, m)
    requires start in m && start !in checked && checked <= m.Keys
    ensures checked <= r.1 <= m.Keys
    ensures r.0.Some? ==> r.0.value == criteria
    decreases |m.Keys - checked|, 1
  {
    if start == criteria then (Some(start), checked)
    else
      assert m.Keys - (checked + {start}) == (m.Keys - checked) - {start};
      LoopAsWritten(m, order, checked + {start}, start, 0, None, criteria)
  }

  function LoopAsWritten<T(!new)>(m: Links<T>, order: map<T, seq<Edge<T>>>, checked: set<T>,
                                 start: T, i: nat, result: Option<T>, criteria: T): (r: (Option<T>, set<T>))
    requires WellFormed(m) && IterationOrder(order, m)
    requires start in m && start in checked && checked <= m.Keys && i <= |order[start]|
    requires result.Some? ==> result.value == criteria
    ensures checked <= r.1 <= m.Keys
    ensures r.0.Some? ==> r.0.value == criteria
    decreases |m.Keys - checked| + 1, 0, |order[start]| - i
  {
    if i == |order[start]| then (result, checked)
    else
      OrderedEdge(m, order, start, i);
      var t := order[start][i].target;
      if t in checked then LoopAsWritten(m, order, checked, start, i + 1, result, criteria)
      else
        var (found, checked') := SearchAsWritten(m, order, checked, t, criteria);
        CardinalityShrinks(m.Keys, checked, checked');
        LoopAsWritten(m, order, checked', start, i + 1, found, criteria)
  }

  /** A reachable node that the search as written does not find: node 0 is
      linked to 1 and 2, and its edge to 1 is iterated first. */
  lemma SearchAsWrittenMissesReachable()
    ensures var m := map[0 := {Edge(0, 1), Edge(0, 2)}, 1 := {Edge(1, 0)}, 2 := {Edge(2, 0)}];
            var order := map[0 := [Edge(0, 1), Edge(0, 2)], 1 := [Edge(1, 0)], 2 := [Edge(2, 0)]];
            && WellFormed(m) && Symmetric(m) && IterationOrder(order, m)
            && Reachable(m, 0, 1)
            && SearchAsWritten(m, order, {}, 0, 1).0 == None
  {
    var m := map[0 := {Edge(0, 1), Edge(0, 2)}, 1 := {Edge(1, 0)}, 2 := {Edge(2, 0)}];
    var order := map[0 := [Edge(0, 1), Edge(0, 2)], 1 := [Edge(1, 0)], 2 := [Edge(2, 0)]];
    assert IsPath(m, [0, 1]);
    assert IterationOrder(order, m) by {
      forall x | x in m
        ensures x in order && Enumerates(order[x], m[x])
      {
        assert x == 0 || x == 1 || x == 2;
      }
    }
    assert LoopAsWritten(m, order, {0, 2}, 2, 1, None, 1) == (None, {0, 2});
    assert LoopAsWritten(m, order, {0, 2}, 2, 0, None, 1) == (None, {0, 2});
    assert {0} + {2} == {0, 2};
    assert SearchAsWritten(m, order, {0}, 2, 1) == (None, {0, 2});
    assert LoopAsWritten(m, order, {0, 2}, 0, 2, None, 1) == (None, {0, 2});
    assert LoopAsWritten(m, order, {0}, 0, 1, Some(1), 1) == (None, {0, 2});
    assert SearchAsWritten(m, order, {0}, 1, 1) == (Some(1), {0});
    assert LoopAsWritten(m, order, {0}, 0, 0, None, 1) == (None, {0, 2});
    assert {} + {0} == {0};
  }

  /** Whatever the search as written returns is reachable from where it started. */
  lemma {:induction false} SearchAsWrittenFindsReachable<T(!new)>(m: Links<T>, order: map<T, seq<Edge<T>>>,
                                                                  checked: set<T>, start: T, criteria: T)
    requires WellFormed(m) && IterationOrder(order, m)
    requires start in m && start !in checked && checked <= m.Keys
    ensures SearchAsWritten(m, order, checked, start, criteria).0.Some? ==> Reachable(m, start, criteria)
    decreases |m.Keys - checked|, 1
  {
    if start == criteria {
      ReachableSelf(m, start);
    } else {
      assert m.Keys - (checked + {start}) == (m.Keys - checked) - {start};
      LoopAsWrittenFindsReachable(m, order, checked + {start}, start, 0, None, criteria);
    }
  }

  /** The loop as written returns either the result it was given or one found
      through an edge of `start`; both are reachable from `start`. */
  lemma {:induction false} LoopAsWrittenFindsReachable<T(!new)>(m: Links<T>, order: map<T, seq<Edge<T>>>, checked: set<T>,
                                                                start: T, i: nat, result: Option<T>, criteria: T)
    requires WellFormed(m) && IterationOrder(order, m)
    requires start in m && start in checked && checked <= m.Keys && i <= |order[start]|
    requires result.Some? ==> result.value == criteria
    requires result.Some? ==> Reachable(m, start, criteria)
    ensures LoopAsWritten(m, order, checked, start, i, result, criteria).0.Some? ==> Reachable(m, start, criteria)
    decreases |m.Keys - checked| + 1, 0, |order[start]| - i
  {
    if i < |order[start]| {
      OrderedEdge(m, order, start, i);
      var t := order[start][i].target;
      if t in checked {
        LoopAsWrittenFindsReachable(m, order, checked, start, i + 1, result, criteria);
      } else {
        var (found, checked') := SearchAsWritten(m, order, checked, t, criteria);
        SearchAsWrittenFindsReachable(m, order, checked, t, criteria);
        if found.Some? {
          ReachableStep(m, start, t, criteria);
        }
        CardinalityShrinks(m.Keys, checked, checked');
        LoopAsWrittenFindsReachable(m, order, checked', start, i + 1, found, criteria);
      }
    }
  }

  /*
   * The corrected search: the walk stops at the first node whose data equal
   * the criteria.
   */

  function Search<T(!new)>(m: Links<T>, order: map<T, seq<Edge<T>>>,
                          checked: set<T>, start: T, criteria: T): (r: (Option<T>, set<T>))
    requires WellFormed(m) && IterationOrder(order, m)
    requires start in m && start !in checked && checked <= m.Keys
    ensures checked <= r.1 <= m.Keys
    ensures r.0.Some? ==> r.0.value == criteria
    ensures criteria !in r.1 - checked
    ensures r.0.None? ==> start in r.1
    decreases |m.Keys - checked|, 1
  {
    if start == criteria then (Some(start), checked)
    else
      assert m.Keys - (checked + {start}) == (m.Keys - checked) - {start};
      SearchEdges(m, order, checked + {start}, start, 0, criteria)
  }

  function SearchEdges<T(!new)>(m: Links<T>, order: map<T, seq<Edge<T>>>, checked: set<T>,
                               start: T, i: nat, criteria: T): (r: (Option<T>, set<T>))
    requires WellFormed(m) && IterationOrder(order, m)
    requires start in m && start in checked && checked <= m.Keys && i <= |order[start]|
    ensures checked <= r.1 <= m.Keys
    ensures r.0.Some? ==> r.0.value == criteria
    ensures criteria !in r.1 - checked
    decreases |m.Keys - checked| + 1, 0, |order[start]| - i
  {
    if i == |order[start]| then (None, checked)
    else
      OrderedEdge(m, order, start, i);
      var t := order[start][i].target;
      if t in checked then SearchEdges(m, order, checked, start, i + 1, criteria)
      else
        var (found, checked') := Search(m, order, checked, t, criteria);
        if found.Some? then (found, checked')
        else
          CardinalityShrinks(m.Keys, checked, checked');
          SearchEdges(m, order, checked', start, i + 1, criteria)
  }

  /** Whatever the search finds is reachable from where it started. */
  lemma {:induction false} SearchFindsReachable<T(!new)>(m: Links<T>, order: map<T, seq<Edge<T>>>,
                                                         checked: set<T>, start: T, criteria: T)
    requires WellFormed(m) && IterationOrder(order, m)
    requires start in m && start !in checked && checked <= m.Keys
    ensures Search(m, order, checked, start, criteria).0.Some? ==> Reachable(m, start, criteria)
    decreases |m.Keys - checked|, 1
  {
    if start == criteria {
      ReachableSelf(m, start);
    } else {
      assert m.Keys - (checked + {start}) == (m.Keys - checked) - {start};
      SearchEdgesFindsReachable(m, order, checked + {start}, start, 0, criteria);
    }
  }

  lemma {:induction false} SearchEdgesFindsReachable<T(!new)>(m: Links<T>, order: map<T, seq<Edge<T>>>,
                                                              checked: set<T>, start: T, i: nat, criteria: T)
    requires WellFormed(m) && IterationOrder(order, m)
    requires start in m && start in checked && checked <= m.Keys && i <= |order[start]|
    ensures SearchEdges(m, order, checked, start, i, criteria).0.Some? ==> Reachable(m, start, criteria)
    decreases |m.Keys - checked| + 1, 0, |order[start]| - i
  {
    if i < |order[start]| {
      OrderedEdge(m, order, start, i);
      var t := order[start][i].target;
      if t in checked {
        SearchEdgesFindsReachable(m, order, checked, start, i + 1, criteria);
      } else {
        var (found, checked') := Search(m, order, checked, t, criteria);
        SearchFindsReachable(m, order, checked, t, criteria);
        if found.Some? {
          ReachableStep(m, start, t, criteria);
        } else {
          CardinalityShrinks(m.Keys, checked, checked');
          SearchEdgesFindsReachable(m, order, checked', start, i + 1, criteria);
        }
      }
    }
  }

  /** A search that finds nothing leaves behind a checked set that no edge
      leaves from a node it added. */
  lemma {:induction false} SearchMissIsClosed<T(!new)>(m: Links<T>, order: map<T, seq<Edge<T>>>,
                                                       checked: set<T>, start: T, criteria: T)
    requires WellFormed(m) && IterationOrder(order, m)
    requires start in m && start !in checked && checked <= m.Keys
    ensures var r := Search(m, order, checked, start, criteria);
            r.0.None? ==> ClosedOver(m, checked, r.1)
    decreases |m.Keys - checked|, 1
  {
    if start != criteria {
      var c := checked + {start};
      assert m.Keys - c == (m.Keys - checked) - {start};
      SearchEdgesMissIsClosed(m, order, c, start, 0, criteria);
      var r := SearchEdges(m, order, c, start, 0, criteria);
      if r.0.None? {
        forall y | HasEdge(m, start, y)
          ensures y in r.1
        {
          var k :| 0 <= k < |order[start]| && order[start][k] == Edge(start, y);
        }
      }
    }
  }

  lemma {:induction false} SearchEdgesMissIsClosed<T(!new)>(m: Links<T>, order: map<T, seq<Edge<T>>>,
                                                            checked: set<T>, start: T, i: nat, criteria: T)
    requires WellFormed(m) && IterationOrder(order, m)
    requires start in m && start in checked && checked <= m.Keys && i <= |order[start]|
    ensures var r := SearchEdges(m, order, checked, start, i, criteria);
            r.0.None? ==> ClosedOver(m, checked, r.1) &&
                          forall k :: i <= k < |order[start]| ==> order[start][k].target in r.1
    decreases |m.Keys - checked| + 1, 0, |order[start]| - i
  {
    if i < |order[start]| {
      OrderedEdge(m, order, start, i);
      var t := order[start][i].target;
      if t in checked {
        SearchEdgesMissIsClosed(m, order, checked, start, i + 1, criteria);
      } else {
        var (found, checked') := Search(m, order, checked, t, criteria);
        if found.None? {
          SearchMissIsClosed(m, order, checked, t, criteria);
          CardinalityShrinks(m.Keys, checked, checked');
          SearchEdgesMissIsClosed(m, order, checked', start, i + 1, criteria);
        }
      }
    }
  }

  /** The corrected search from an unchecked root finds exactly the data
      reachable from the root. */
  lemma SearchFindsExactlyReachable<T(!new)>(m: Links<T>, order: map<T, seq<Edge<T>>>, root: T, criteria: T)
    requires WellFormed(m) && IterationOrder(order, m) && root in m
    ensures Search(m, order, {}, root, criteria).0 == if Reachable(m, root, criteria) then Some(criteria) else None
  {
    var r := Search(m, order, {}, root, criteria);
    SearchFindsReachable(m, order, {}, root, criteria);
    if r.0.None? {
      SearchMissIsClosed(m, order, {}, root, criteria);
      if Reachable(m, root, criteria) {
        ClosedHoldsReachable(m, r.1, root, criteria);
        assert false;
      }
    }
  }

  /*
   * `forEach`: the node is handed to the consumer, marked as iterated, and the
   * walk goes on into every target not yet iterated. The first component of a
   * result is the sequence of data handed to the consumer.
   */

  /** No value occurs twice in s. */
  predicate NoRepeats<T(==)>(s: seq<T>) {
    forall i, j :: 0 <= i < j < |s| ==> s[i] != s[j]
  }

  lemma JoinNoRepeats<T>(a: seq<T>, b: seq<T>)
    requires NoRepeats(a) && NoRepeats(b)
    requires forall x :: x in a ==> x !in b
    ensures NoRepeats(a + b)
    ensures forall x :: x in a + b <==> x in a || x in b
  {
    forall i, j | 0 <= i < j < |a + b|
      ensures (a + b)[i] != (a + b)[j]
    {
      if i < |a| && j >= |a| {
        assert (a + b)[i] in a && (a + b)[j] in b;
      }
    }
  }

  function Visit<T(!new)>(m: Links<T>, order: map<T, seq<Edge<T>>>,
                         iterated: set<T>, start: T): (r: (seq<T>, set<T>))
    requires WellFormed(m) && IterationOrder(order, m)
    requires start in m && start !in iterated && iterated <= m.Keys
    ensures iterated + {start} <= r.1 <= m.Keys
    ensures |r.0| > 0 && r.0[0] == start
    decreases |m.Keys - iterated|, 1
  {
    assert m.Keys - (iterated + {start}) == (m.Keys - iterated) - {start};
    var (out, iterated') := VisitEdges(m, order, iterated + {start}, start, 0);
    ([start] + out, iterated')
  }

  function VisitEdges<T(!new)>(m: Links<T>, order: map<T, seq<Edge<T>>>,
                              iterated: set<T>, start: T, i: nat): (r: (seq<T>, set<T>))
    requires WellFormed(m) && IterationOrder(order, m)
    requires start in m && start in iterated && iterated <= m.Keys && i <= |order[start]|
    ensures iterated <= r.1 <= m.Keys
    decreases |m.Keys - iterated| + 1, 0, |order[start]| - i
  {
    if i == |order[start]| then ([], iterated)
    else
      OrderedEdge(m, order, start, i);
      var t := order[start][i].target;
      if t in iterated then VisitEdges(m, order, iterated, start, i + 1)
      else
        var (out1, iterated1) := Visit(m, order, iterated, t);
        CardinalityShrinks(m.Keys, iterated, iterated1);
        var (out2, iterated2) := VisitEdges(m, order, iterated1, start, i + 1);
        (out1 + out2, iterated2)
  }

  /** A walk hands the consumer exactly the nodes it adds to the iterated
      set, each of them once. */
  lemma {:induction false} VisitOutput<T(!new)>(m: Links<T>, order: map<T, seq<Edge<T>>>,
                                                iterated: set<T>, start: T)
    requires WellFormed(m) && IterationOrder(order, m)
    requires start in m && start !in iterated && iterated <= m.Keys
    ensures var r := Visit(m, order, iterated, start);
            NoRepeats(r.0) && forall x :: x in r.0 <==> x in r.1 && x !in iterated
    decreases |m.Keys - iterated|, 1
  {
    assert m.Keys - (iterated + {start}) == (m.Keys - iterated) - {start};
    VisitEdgesOutput(m, order, iterated + {start}, start, 0);
    var r := VisitEdges(m, order, iterated + {start}, start, 0);
    JoinNoRepeats([start], r.0);
  }

  lemma {:induction false} VisitEdgesOutput<T(!new)>(m: Links<T>, order: map<T, seq<Edge<T>>>,
                                                     iterated: set<T>, start: T, i: nat)
    requires WellFormed(m) && IterationOrder(order, m)
    requires start in m && start in iterated && iterated <= m.Keys && i <= |order[start]|
    ensures var r := VisitEdges(m, order, iterated, start, i);
            NoRepeats(r.0) && forall x :: x in r.0 <==> x in r.1 && x !in iterated
    decreases |m.Keys - iterated| + 1, 0, |order[start]| - i
  {
    if i < |order[start]| {
      OrderedEdge(m, order, start, i);
      var t := order[start][i].target;
      if t in iterated {
        VisitEdgesOutput(m, order, iterated, start, i + 1);
      } else {
        var (out1, iterated1) := Visit(m, order, iterated, t);
        VisitOutput(m, order, iterated, t);
        CardinalityShrinks(m.Keys, iterated, iterated1);
        VisitEdgesOutput(m, order, iterated1, start, i + 1);
        var (out2, iterated2) := VisitEdges(m, order, iterated1, start, i + 1);
        JoinNoRepeats(out1, out2);
      }
    }
  }

  /** Every node handed to the consumer is reachable from where the walk started. */
  lemma {:induction false} VisitReachesOnly<T(!new)>(m: Links<T>, order: map<T, seq<Edge<T>>>,
                                                     iterated: set<T>, start: T)
    requires WellFormed(m) && IterationOrder(order, m)
    requires start in m && start !in iterated && iterated <= m.Keys
    ensures forall x :: x in Visit(m, order, iterated, start).0 ==> Reachable(m, start, x)
    decreases |m.Keys - iterated|, 1
  {
    assert m.Keys - (iterated + {start}) == (m.Keys - iterated) - {start};
    VisitEdgesReachesOnly(m, order, iterated + {start}, start, 0);
    ReachableSelf(m, start);
  }

  lemma {:induction false} VisitEdgesReachesOnly<T(!new)>(m: Links<T>, order: map<T, seq<Edge<T>>>,
                                                          iterated: set<T>, start: T, i: nat)
    requires WellFormed(m) && IterationOrder(order, m)
    requires start in m && start in iterated && iterated <= m.Keys && i <= |order[start]|
    ensures forall x :: x in VisitEdges(m, order, iterated, start, i).0 ==> Reachable(m, start, x)
    decreases |m.Keys - iterated| + 1, 0, |order[start]| - i
  {
    if i < |order[start]| {
      OrderedEdge(m, order, start, i);
      var t := order[start][i].target;
      if t in iterated {
        VisitEdgesReachesOnly(m, order, iterated, start, i + 1);
      } else {
        var (out1, iterated1) := Visit(m, order, iterated, t);
        VisitReachesOnly(m, order, iterated, t);
        CardinalityShrinks(m.Keys, iterated, iterated1);
        VisitEdgesReachesOnly(m, order, iterated1, start, i + 1);
        forall x | x in out1
          ensures Reachable(m, start, x)
        {
          ReachableStep(m, start, t, x);
        }
      }
    }
  }

  /** The iterated set a walk leaves behind is left by no edge from a node the
      walk added. */
  lemma {:induction false} VisitIsClosed<T(!new)>(m: Links<T>, order: map<T, seq<Edge<T>>>,
                                                  iterated: set<T>, start: T)
    requires WellFormed(m) && IterationOrder(order, m)
    requires start in m && start !in iterated && iterated <= m.Keys
    ensures ClosedOver(m, iterated, Visit(m, order, iterated, start).1)
    decreases |m.Keys - iterated|, 1
  {
    var c := iterated + {start};
    assert m.Keys - c == (m.Keys - iterated) - {start};
    VisitEdgesIsClosed(m, order, c, start, 0);
    var r := VisitEdges(m, order, c, start, 0);
    forall y | HasEdge(m, start, y)
      ensures y in r.1
    {
      var k :| 0 <= k < |order[start]| && order[start][k] == Edge(start, y);
    }
  }

  lemma {:induction false} VisitEdgesIsClosed<T(!new)>(m: Links<T>, order: map<T, seq<Edge<T>>>,
                                                       iterated: set<T>, start: T, i: nat)
    requires WellFormed(m) && IterationOrder(order, m)
    requires start in m && start in iterated && iterated <= m.Keys && i <= |order[start]|
    ensures var r := VisitEdges(m, order, iterated, start, i);
            ClosedOver(m, iterated, r.1) &&
            forall k :: i <= k < |order[start]| ==> order[start][k].target in r.1
    decreases |m.Keys - iterated| + 1, 0, |order[start]| - i
  {
    if i < |order[start]| {
      OrderedEdge(m, order, start, i);
      var t := order[start][i].target;
      if t in iterated {
        VisitEdgesIsClosed(m, order, iterated, start, i + 1);
      } else {
        var (out1, iterated1) := Visit(m, order, iterated, t);
        VisitIsClosed(m, order, iterated, t);
        CardinalityShrinks(m.Keys, iterated, iterated1);
        VisitEdgesIsClosed(m, order, iterated1, start, i + 1);
      }
    }
  }

  /** A walk from the root hands every node reachable from the root to the
      consumer, the root first, and no node twice. */
  lemma VisitCoversReachable<T(!new)>(m: Links<T>, order: map<T, seq<Edge<T>>>, root: T)
    requires WellFormed(m) && IterationOrder(order, m) && root in m
    ensures var out := Visit(m, order, {}, root).0;
            && out[0] == root
            && NoRepeats(out)
            && forall x :: x in out <==> Reachable(m, root, x)
  {
    var r := Visit(m, order, {}, root);
    VisitOutput(m, order, {}, root);
    VisitReachesOnly(m, order, {}, root);
    VisitIsClosed(m, order, {}, root);
    forall x | Reachable(m, root, x)
      ensures x in r.0
    {
      ClosedHoldsReachable(m, r.1, root, x);
    }
  }
}

/**
  The graph object: a root node and the edge sets of its nodes, changed in place
  by insertion, linking, unlinking and removal.

  Node objects are identified by their data, so `links` maps the data of every
  node created so far to that node's edge set, and a node argument of the
  source is its data here. The iteration order of the edge sets is the
  parameter `order` of every operation that walks the graph (see module Dfs).
 */
module Graphs {
  import opened Wrappers
  import opened Adjacency
  import opened Dfs

  /** The exceptions the graph operations raise. */
  datatype Error = IllegalArgument | ConcurrentModification

  /** Normal completion, or the exception raised. */
  datatype Outcome = Pass | Fail(error: Error)

  class Graph<T(==, !new)> {
    /** The node every lookup and traversal starts from; None until the first insertion. */
    var root: Option<T>
    /** The edge set of every node created so far, keyed by the node's data. */
    var links: Links<T>

    ghost predicate Valid()
      reads this
    {
      && WellFormed(links)
      && (root.None? ==> links == map[])
      && (root.Some? ==> root.value in links)
    }

    /** `new Graph()`: no root and no nodes. */
    constructor ()
      ensures Valid() && Symmetric(links)
      ensures root == None && links == map[]
    {
      root := None;
      links := map[];
    }

    /** `new Graph(firstElement)`: a root holding firstElement, without links. */
    constructor Of(firstElement: T)
      ensures Valid() && Symmetric(links)
      ensures root == Some(firstElement) && links == map[firstElement := {}]
    {
      root := Some(firstElement);
      links := map[firstElement := {}];
    }

    /** `Node.addLink`, called on the node holding x with the node holding y. */
    method AddLink(x: T, y: T) returns (added: bool)
      requires Valid() && x in links && y in links
      modifies this
      ensures Valid() && root == old(root)
      ensures added == !HasEdge(old(links), x, y)
      ensures links == if added then Connect(old(links), x, y) else old(links)
      decreases (if HasEdge(links, x, y) then 0 else 1) + (if HasEdge(links, y, x) then 0 else 1)
    {
      if HasEdge(links, x, y) {
        return false;
      }
      ghost var before := links;
      links := links[x := links[x] + {Edge(x, y)}];
      added := true;
      ContainsLinkIsHasEdge(links, y, x);
      if !ContainsLink(links, y, x) {
        var back := AddLink(y, x);
        added := added && back;
      }
      ConnectAddsExactly(before, x, y);
      forall z | z in links
        ensures links[z] == Connect(before, x, y)[z]
      {
      }
    }

    /** `Node.removeLink`, called on the node holding x with the node holding y. */
    method RemoveLink(x: T, y: T) returns (removed: bool)
      requires Valid() && x in links && y in links
      modifies this
      ensures Valid() && root == old(root)
      ensures removed == HasEdge(old(links), x, y)
      ensures links == if removed then Disconnect(old(links), x, y) else old(links)
      decreases (if HasEdge(links, x, y) then 1 else 0) + (if HasEdge(links, y, x) then 1 else 0)
    {
      if !HasEdge(links, x, y) {
        return false;
      }
      ghost var before := links;
      links := links[x := links[x] - {Edge(x, y)}];
      removed := true;
      ContainsLinkIsHasEdge(links, y, x);
      if ContainsLink(links, y, x) {
        var back := RemoveLink(y, x);
        removed := removed && back;
      }
      DisconnectRemovesExactly(before, x, y);
      forall z | z in links
        ensures links[z] == Disconnect(before, x, y)[z]
      {
      }
    }

    /** `depthFirstSearch` as the source has it: `result` is overwritten by
        every recursive call of the loop. */
    method DepthFirstSearchAsWritten(checked: set<T>, start: T, criteria: T, order: map<T, seq<Edge<T>>>)
      returns (result: Option<T>, checked': set<T>)
      requires Valid() && IterationOrder(order, links)
      requires start in links && start !in checked && checked <= links.Keys
      ensures (result, checked') == SearchAsWritten(links, order, checked, start, criteria)
      decreases |links.Keys - checked|, 1
    {
      if start == criteria {
        return Some(start), checked;
      }
      checked' := checked + {start};
      result := None;
      var edges := order[start];
      for i := 0 to |edges|
        invariant checked + {start} <= checked' <= links.Keys
        invariant result.Some? ==> result.value == criteria
        invariant LoopAsWritten(links, order, checked', start, i, result, criteria)
               == SearchAsWritten(links, order, checked, start, criteria)
      {
        OrderedEdge(links, order, start, i);
        var t := edges[i].target;
        if t !in checked' {
          CardinalityDrops(links.Keys, checked, checked', start);
          result, checked' := DepthFirstSearchAsWritten(checked', t, criteria, order);
        }
      }
    }

    /** `depthFirstSearch` returning at the first node that matches; the
        source's loop keeps going and can lose that node (see
        SearchAsWrittenMissesReachable). */
    method DepthFirstSearch(checked: set<T>, start: T, criteria: T, order: map<T, seq<Edge<T>>>)
      returns (result: Option<T>, checked': set<T>)
      requires Valid() && IterationOrder(order, links)
      requires start in links && start !in checked && checked <= links.Keys
      ensures (result, checked') == Search(links, order, checked, start, criteria)
      decreases |links.Keys - checked|, 1
    {
      if start == criteria {
        return Some(start), checked;
      }
      checked' := checked + {start};
      var edges := order[start];
      for i := 0 to |edges|
        invariant checked + {start} <= checked' <= links.Keys
        invariant SearchEdges(links, order, checked', start, i, criteria)
               == Search(links, order, checked, start, criteria)
      {
        OrderedEdge(links, order, start, i);
        var t := edges[i].target;
        if t !in checked' {
          CardinalityDrops(links.Keys, checked, checked', start);
          var found;
          found, checked' := DepthFirstSearch(checked', t, criteria, order);
          if found.Some? {
            return found, checked';
          }
        }
      }
      result := None;
    }

    /** `findNode`: the node holding data, if the root reaches it. */
    method FindNode(data: T, order: map<T, seq<Edge<T>>>) returns (found: Option<T>)
      requires Valid() && root.Some? && IterationOrder(order, links)
      ensures found == if Reachable(links, root.value, data) then Some(data) else None
    {
      var checked;
      found, checked := DepthFirstSearch({}, root.value, data, order);
      SearchFindsExactlyReachable(links, order, root.value, data);
    }

    /** `insert(data)`; `data` is None for a null argument. */
    method Insert(data: Option<T>) returns (outcome: Outcome)
      requires Valid()
      requires data.Some? ==> Unused(links, data.value) && root != data
      modifies this
      ensures Valid()
      ensures outcome == if data.None? then Fail(IllegalArgument) else Pass
      ensures data.None? ==> root == old(root) && links == old(links)
      ensures data.Some? && old(root).None? ==> root == data && links == map[data.value := {}]
      ensures data.Some? && old(root).Some? ==>
                root == old(root) && links == Connect(old(links)[data.value := {}], root.value, data.value)
      ensures data.Some? ==> root.Some? && Reachable(links, root.value, data.value)
      ensures Symmetric(old(links)) ==> Symmetric(links)
    {
      if data.None? {
        return Fail(IllegalArgument);
      }
      var d := data.value;
      outcome := Pass;
      if root.None? {
        root := Some(d);
        links := map[d := {}];
        ReachableSelf(links, d);
      } else {
        ghost var before := links;
        AddNodeKeepsSymmetric(links, d);
        links := links[d := {}];
        var added := AddLink(root.value, d);
        if Symmetric(before) {
          ConnectKeepsSymmetric(before[d := {}], root.value, d);
        }
        ReachableSelf(links, d);
        ReachableStep(links, root.value, d, d);
      }
    }

    /** `insert(parent, data)`; `data` is None for a null argument. */
    method InsertUnder(parent: T, data: Option<T>, order: map<T, seq<Edge<T>>>) returns (outcome: Outcome)
      requires Valid() && IterationOrder(order, links)
      requires data.Some? ==> root.Some? && Unused(links, data.value) && root != data
      modifies this
      ensures Valid() && root == old(root)
      ensures outcome == if data.None? || !Reachable(old(links), root.value, parent) then Fail(IllegalArgument)
                         else Pass
      ensures outcome.Fail? ==> links == old(links)
      ensures outcome.Pass? ==> links == Connect(old(links)[data.value := {}], parent, data.value)
      ensures outcome.Pass? ==> Reachable(links, root.value, data.value)
      ensures Symmetric(old(links)) ==> Symmetric(links)
    {
      if data.None? {
        return Fail(IllegalArgument);
      }
      var d := data.value;
      var parentNode := FindNode(parent, order);
      if parentNode.None? {
        return Fail(IllegalArgument);
      }
      ghost var before := links;
      UnusedUnreachable(links, root.value, d);
      AddNodeKeepsSymmetric(links, d);
      links := links[d := {}];
      var added := AddLink(parent, d);
      outcome := Pass;
      if Symmetric(before) {
        ConnectKeepsSymmetric(before[d := {}], parent, d);
      }
      ReachableGrows(before, links, root.value, parent);
      ReachableSelf(links, d);
      ReachableStep(links, parent, d, d);
      JoinReachable(links, root.value, parent, d);
    }

    /** `link`: links the two nodes when both are found. */
    method Link(source: T, target: T, order: map<T, seq<Edge<T>>>) returns (linked: bool)
      requires Valid() && root.Some? && IterationOrder(order, links)
      modifies this
      ensures Valid() && root == old(root)
      ensures linked == (&& Reachable(old(links), root.value, source)
                         && Reachable(old(links), root.value, target)
                         && !HasEdge(old(links), source, target))
      ensures links == if linked then Connect(old(links), source, target) else old(links)
      ensures Symmetric(old(links)) ==> Symmetric(links)
    {
      var sourceNode := FindNode(source, order);
      var targetNode := FindNode(target, order);
      if sourceNode.Some? && targetNode.Some? {
        ghost var before := links;
        linked := AddLink(source, target);
        if linked && Symmetric(before) {
          ConnectKeepsSymmetric(before, source, target);
        }
      } else {
        linked := false;
      }
    }

    /** `unlink`: unlinks the two nodes when both are found. */
    method Unlink(source: T, target: T, order: map<T, seq<Edge<T>>>) returns (unlinked: bool)
      requires Valid() && root.Some? && IterationOrder(order, links)
      modifies this
      ensures Valid() && root == old(root)
      ensures unlinked == (&& Reachable(old(links), root.value, source)
                           && Reachable(old(links), root.value, target)
                           && HasEdge(old(links), source, target))
      ensures links == if unlinked then Disconnect(old(links), source, target) else old(links)
      ensures Symmetric(old(links)) ==> Symmetric(links)
    {
      var sourceNode := FindNode(source, order);
      var targetNode := FindNode(target, order);
      if sourceNode.Some? && targetNode.Some? {
        ghost var before := links;
        unlinked := RemoveLink(source, target);
        if unlinked && Symmetric(before) {
          DisconnectKeepsSymmetric(before, source, target);
        }
      } else {
        unlinked := false;
      }
    }

    /** `areLinked`: both nodes are found and the first has an edge to the second. */
    method AreLinked(source: T, target: T, order: map<T, seq<Edge<T>>>) returns (linked: bool)
      requires Valid() && root.Some? && IterationOrder(order, links)
      ensures linked == (&& Reachable(links, root.value, source)
                         && Reachable(links, root.value, target)
                         && HasEdge(links, source, target))
      ensures Symmetric(links) ==> linked == (&& Reachable(links, root.value, target)
                                              && Reachable(links, root.value, source)
                                              && HasEdge(links, target, source))
    {
      var sourceNode := FindNode(source, order);
      var targetNode := FindNode(target, order);
      if sourceNode.Some? && targetNode.Some? {
        ContainsLinkIsHasEdge(links, source, target);
        linked := ContainsLink(links, source, target);
      } else {
        linked := false;
      }
    }

    /** `remove` as the source has it: it unlinks the node from the targets of
        its edges while iterating the very set that unlinking shrinks, so the
        fail-fast iterator throws after the first unlink when there are two
        edges or more. */
    method RemoveAsWritten(data: T, order: map<T, seq<Edge<T>>>) returns (outcome: Outcome)
      requires Valid() && root.Some? && IterationOrder(order, links)
      modifies this
      ensures Valid() && root == old(root)
      ensures var found := Reachable(old(links), root.value, data);
              && outcome == (if found && |order[data]| >= 2 then Fail(ConcurrentModification) else Pass)
              && links == if found && |order[data]| > 0 then Disconnect(old(links), data, order[data][0].target)
                          else old(links)
      ensures Symmetric(old(links)) ==> Symmetric(links)
    {
      outcome := Pass;
      var node := FindNode(data, order);
      if node.Some? {
        var edges := order[data];
        if |edges| > 0 {
          OrderedEdge(links, order, data, 0);
          ghost var before := links;
          var removed := RemoveLink(data, edges[0].target);
          if Symmetric(before) {
            DisconnectKeepsSymmetric(before, data, edges[0].target);
          }
          if |edges| > 1 {
            outcome := Fail(ConcurrentModification);
          }
        }
      }
    }

    /** `remove`, unlinking the node from the targets of a snapshot of its edges. */
    method Remove(data: T, order: map<T, seq<Edge<T>>>)
      requires Valid() && root.Some? && IterationOrder(order, links)
      modifies this
      ensures Valid() && root == old(root)
      ensures links == if Reachable(old(links), root.value, data) then Isolate(old(links), data) else old(links)
      ensures Symmetric(old(links)) ==> Symmetric(links)
    {
      var node := FindNode(data, order);
      if node.None? {
        return;
      }
      ghost var before := links;
      var snapshot := order[data];
      DetachNothing(before, data);
      ghost var done: set<Edge<T>> := {};
      for i := 0 to |snapshot|
        invariant Valid() && root == old(root)
        invariant links == Detach(before, data, done)
        invariant done <= before[data]
        invariant forall k :: 0 <= k < i ==> snapshot[k] in done
        invariant forall k :: i <= k < |snapshot| ==> snapshot[k] !in done
      {
        OrderedEdge(before, order, data, i);
        DetachStep(before, data, done, snapshot[i]);
        var removed := RemoveLink(data, snapshot[i].target);
        done := done + {snapshot[i]};
      }
      assert done == before[data] by {
        forall e | e in before[data]
          ensures e in done
        {
          var k :| 0 <= k < |snapshot| && snapshot[k] == e;
        }
      }
      if Symmetric(before) {
        IsolateUnlinksEverything(before, data);
      }
    }

    /** The private recursive `forEach`: the sequence of data handed to the
        consumer, and the iterated set afterwards. */
    method ForEachFrom(iterated: set<T>, start: T, order: map<T, seq<Edge<T>>>)
      returns (visited: seq<T>, iterated': set<T>)
      requires Valid() && IterationOrder(order, links)
      requires start in links && start !in iterated && iterated <= links.Keys
      ensures (visited, iterated') == Visit(links, order, iterated, start)
      decreases |links.Keys - iterated|, 1
    {
      visited := [start];
      iterated' := iterated + {start};
      var edges := order[start];
      for i := 0 to |edges|
        invariant iterated + {start} <= iterated' <= links.Keys
        invariant Visit(links, order, iterated, start).0 == visited + VisitEdges(links, order, iterated', start, i).0
        invariant Visit(links, order, iterated, start).1 == VisitEdges(links, order, iterated', start, i).1
      {
        OrderedEdge(links, order, start, i);
        var t := edges[i].target;
        if t !in iterated' {
          CardinalityDrops(links.Keys, iterated, iterated', start);
          ghost var prior, was := iterated', visited;
          var more;
          more, iterated' := ForEachFrom(iterated', t, order);
          visited := visited + more;
          ghost var rest := VisitEdges(links, order, iterated', start, i + 1);
          assert VisitEdges(links, order, prior, start, i) == (more + rest.0, rest.1);
        }
      }
      assert visited + [] == visited;
    }

    /** `forEach`, with the consumer recording the data it is handed. */
    method ForEach(order: map<T, seq<Edge<T>>>) returns (visited: seq<T>)
      requires Valid() && root.Some? && IterationOrder(order, links)
      ensures visited == Visit(links, order, {}, root.value).0
      ensures visited[0] == root.value
      ensures NoRepeats(visited)
      ensures forall x :: x in visited <==> Reachable(links, root.value, x)
    {
      var iterated;
      visited, iterated := ForEachFrom({}, root.value, order);
      VisitCoversReachable(links, order, root.value);
    }
  }

  /** Reachability composes along a walk. */
  lemma JoinReachable<T(!new)>(m: Links<T>, s: T, t: T, x: T)
    requires Reachable(m, s, t) && Reachable(m, t, x)
    ensures Reachable(m, s, x)
  {
    var p :| IsPath(m, p) && p[0] == s && p[|p| - 1] == t;
    var q :| IsPath(m, q) && q[0] == t && q[|q| - 1] == x;
    var w := p + q[1..];
    assert forall i :: |p| <= i < |w| ==> w[i] == q[i - |p| + 1];
    assert IsPath(m, w);
  }
}

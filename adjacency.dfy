/** An optional value, standing for a Java reference that may be null. */
module Wrappers {
  datatype Option<T> = None | Some(value: T)
}

/**
  Nodes and edges of the graph, as values.

  A node is identified by its data: two nodes are equal exactly when their data
  are equal, and two edges are equal exactly when their sources and their
  targets are. The edge sets of all nodes together are therefore one map from a
  node's data to the set of edges whose source is that node.
 */
module Adjacency {

  /** A directed edge; a link between two nodes is a pair of opposite edges. */
  datatype Edge<T> = Edge(source: T, target: T)

  /** links[x] is the edge set of the node holding x. */
  type Links<T(==)> = map<T, set<Edge<T>>>

  /** Every edge sits in the set of its own source and points at a known node. */
  ghost predicate WellFormed<T(!new)>(m: Links<T>) {
    forall x, e :: x in m && e in m[x] ==> e.source == x && e.target in m
  }

  /** `links.contains(Edge.of(this, target))`: membership of the edge x -> y. */
  predicate HasEdge<T(!new)>(m: Links<T>, x: T, y: T)
    ensures HasEdge(m, x, y) && WellFormed(m) ==> y in m
  {
    x in m && Edge(x, y) in m[x]
  }

  /** `containsLink`: some edge of x has a target equal to y. */
  predicate ContainsLink<T(!new)>(m: Links<T>, x: T, y: T)
    requires x in m
    ensures ContainsLink(m, x, y) && WellFormed(m) ==> y in m
  {
    exists e | e in m[x] :: e.target == y
  }

  /** Every edge x -> y is matched by an edge y -> x. */
  ghost predicate Symmetric<T(!new)>(m: Links<T>) {
    forall x, y :: HasEdge(m, x, y) ==> HasEdge(m, y, x)
  }

  /** The two membership tests the source uses, the edge lookup of `addLink`
      and `removeLink` and the target scan of `containsLink`, agree. */
  lemma ContainsLinkIsHasEdge<T(!new)>(m: Links<T>, x: T, y: T)
    requires WellFormed(m) && x in m
    ensures ContainsLink(m, x, y) <==> HasEdge(m, x, y)
  {
  }

  /** The edge sets after the nodes holding x and y become linked both ways. */
  function Connect<T(!new)>(m: Links<T>, x: T, y: T): (r: Links<T>)
    requires x in m && y in m
    ensures r.Keys == m.Keys
    ensures HasEdge(r, x, y) && HasEdge(r, y, x)
    ensures forall z :: z in m && z != x && z != y ==> r[z] == m[z]
  {
    var m1 := m[x := m[x] + {Edge(x, y)}];
    m1[y := m1[y] + {Edge(y, x)}]
  }

  /** The edge sets after the edges x -> y and y -> x are removed. */
  function Disconnect<T(!new)>(m: Links<T>, x: T, y: T): (r: Links<T>)
    requires x in m && y in m
    ensures r.Keys == m.Keys
    ensures !HasEdge(r, x, y) && !HasEdge(r, y, x)
    ensures forall z :: z in m && z != x && z != y ==> r[z] == m[z]
  {
    var m1 := m[x := m[x] - {Edge(x, y)}];
    m1[y := m1[y] - {Edge(y, x)}]
  }

  /** Linking adds exactly the two edges x -> y and y -> x; a self-link adds the
      single edge x -> x. */
  lemma ConnectAddsExactly<T(!new)>(m: Links<T>, x: T, y: T)
    requires x in m && y in m
    ensures x != y ==> Connect(m, x, y)[x] == m[x] + {Edge(x, y)}
    ensures x != y ==> Connect(m, x, y)[y] == m[y] + {Edge(y, x)}
    ensures x == y ==> Connect(m, x, y)[x] == m[x] + {Edge(x, x)}
  {
  }

  /** Unlinking removes exactly the two edges x -> y and y -> x. */
  lemma DisconnectRemovesExactly<T(!new)>(m: Links<T>, x: T, y: T)
    requires x in m && y in m
    ensures x != y ==> Disconnect(m, x, y)[x] == m[x] - {Edge(x, y)}
    ensures x != y ==> Disconnect(m, x, y)[y] == m[y] - {Edge(y, x)}
    ensures x == y ==> Disconnect(m, x, y)[x] == m[x] - {Edge(x, x)}
  {
  }

  lemma ConnectKeepsWellFormed<T(!new)>(m: Links<T>, x: T, y: T)
    requires WellFormed(m) && x in m && y in m
    ensures WellFormed(Connect(m, x, y))
  {
  }

  lemma DisconnectKeepsWellFormed<T(!new)>(m: Links<T>, x: T, y: T)
    requires WellFormed(m) && x in m && y in m
    ensures WellFormed(Disconnect(m, x, y))
  {
  }

  /** Linking keeps every edge matched by its reverse. */
  lemma ConnectKeepsSymmetric<T(!new)>(m: Links<T>, x: T, y: T)
    requires Symmetric(m) && x in m && y in m
    ensures Symmetric(Connect(m, x, y))
  {
    var r := Connect(m, x, y);
    forall a, b | HasEdge(r, a, b)
      ensures HasEdge(r, b, a)
    {
      if Edge(a, b) != Edge(x, y) && Edge(a, b) != Edge(y, x) {
        assert HasEdge(m, a, b);
      }
    }
  }

  /** Unlinking keeps every edge matched by its reverse. */
  lemma DisconnectKeepsSymmetric<T(!new)>(m: Links<T>, x: T, y: T)
    requires Symmetric(m) && x in m && y in m
    ensures Symmetric(Disconnect(m, x, y))
  {
    var r := Disconnect(m, x, y);
    forall a, b | HasEdge(r, a, b)
      ensures HasEdge(r, b, a)
    {
      assert HasEdge(m, a, b);
      assert Edge(b, a) != Edge(x, y) && Edge(b, a) != Edge(y, x);
    }
  }

  /** Unlinking two nodes that were just linked restores the graph. */
  lemma DisconnectUndoesConnect<T(!new)>(m: Links<T>, x: T, y: T)
    requires Symmetric(m) && x in m && y in m && !HasEdge(m, x, y)
    ensures Disconnect(Connect(m, x, y), x, y) == m
  {
    assert !HasEdge(m, y, x);
    var r := Disconnect(Connect(m, x, y), x, y);
    forall z | z in m
      ensures r[z] == m[z]
    {
      if z == x || z == y {
        ConnectAddsExactly(m, x, y);
        DisconnectRemovesExactly(Connect(m, x, y), x, y);
      }
    }
  }

  /** Linking two nodes that were just unlinked restores the graph. */
  lemma ConnectUndoesDisconnect<T(!new)>(m: Links<T>, x: T, y: T)
    requires Symmetric(m) && x in m && y in m && HasEdge(m, x, y)
    ensures Connect(Disconnect(m, x, y), x, y) == m
  {
    assert HasEdge(m, y, x);
    var r := Connect(Disconnect(m, x, y), x, y);
    forall z | z in m
      ensures r[z] == m[z]
    {
      if z == x || z == y {
        DisconnectRemovesExactly(m, x, y);
        ConnectAddsExactly(Disconnect(m, x, y), x, y);
      }
    }
  }

  /** The edge sets after the node holding x has been unlinked from the targets
      of the edges in `done`: x loses those edges and each such target loses
      its edge back to x. */
  function Detach<T(!new)>(m: Links<T>, x: T, done: set<Edge<T>>): (r: Links<T>)
    requires x in m
    ensures r.Keys == m.Keys
    ensures r[x] == m[x] - done
  {
    map z | z in m :: if z == x then m[x] - done
                      else if Edge(x, z) in done then m[z] - {Edge(z, x)}
                      else m[z]
  }

  /** Unlinking x from no target changes nothing. */
  lemma DetachNothing<T(!new)>(m: Links<T>, x: T)
    requires x in m
    ensures Detach(m, x, {}) == m
  {
    forall z | z in m
      ensures Detach(m, x, {})[z] == m[z]
    {
    }
  }

  /** No node with data d takes part in any link: d is unknown, or its node has
      no edges and no edge points at it, as a removed node is left. */
  ghost predicate Unused<T(!new)>(m: Links<T>, d: T) {
    d in m ==> m[d] == {} && forall x :: x in m ==> !HasEdge(m, x, d)
  }

  /** A new node without edges, taking the place of an unused one if there is
      one, keeps the edge sets well formed and symmetric. */
  lemma AddNodeKeepsSymmetric<T(!new)>(m: Links<T>, d: T)
    requires Unused(m, d)
    ensures WellFormed(m) ==> WellFormed(m[d := {}])
    ensures Symmetric(m) ==> Symmetric(m[d := {}])
  {
    var m' := m[d := {}];
    if Symmetric(m) {
      forall a, b | HasEdge(m', a, b)
        ensures HasEdge(m', b, a)
      {
        assert HasEdge(m, a, b);
      }
    }
  }

  /** Unlinking x from the target of one more of its edges extends the detached set by that edge. */
  lemma DetachStep<T(!new)>(m: Links<T>, x: T, done: set<Edge<T>>, e: Edge<T>)
    requires WellFormed(m) && x in m && e in m[x] && e !in done
    ensures HasEdge(Detach(m, x, done), x, e.target)
    ensures Disconnect(Detach(m, x, done), x, e.target) == Detach(m, x, done + {e})
  {
    var t := e.target;
    assert e == Edge(x, t);
    var d := Detach(m, x, done);
    var lhs := Disconnect(d, x, t);
    var rhs := Detach(m, x, done + {e});
    forall z | z in m
      ensures lhs[z] == rhs[z]
    {
      if z == x {
        DisconnectRemovesExactly(d, x, t);
      } else if z == t {
        DisconnectRemovesExactly(d, x, t);
      }
    }
  }

  /** The edge sets after `remove` has unlinked x from all of its neighbours. */
  function Isolate<T(!new)>(m: Links<T>, x: T): (r: Links<T>)
    requires x in m
    ensures r.Keys == m.Keys
    ensures r[x] == {}
  {
    Detach(m, x, m[x])
  }

  /** After isolation no node links to x any more (in a symmetric graph), the
      edges not touching x are kept, and symmetry is preserved. */
  lemma IsolateUnlinksEverything<T(!new)>(m: Links<T>, x: T)
    requires WellFormed(m) && Symmetric(m) && x in m
    ensures forall z :: z in m ==> !HasEdge(Isolate(m, x), z, x)
    ensures forall z, e :: z in m && e in m[z] && e.target != x && z != x ==> e in Isolate(m, x)[z]
    ensures WellFormed(Isolate(m, x))
    ensures Symmetric(Isolate(m, x))
  {
    var r := Isolate(m, x);
    forall z | z in m
      ensures !HasEdge(r, z, x)
    {
      if z != x && HasEdge(m, z, x) {
        assert HasEdge(m, x, z);
      }
    }
    forall a, b | HasEdge(r, a, b)
      ensures HasEdge(r, b, a)
    {
      assert HasEdge(m, a, b) && a != x && b != x;
      assert HasEdge(m, b, a);
    }
  }

  /** p is a walk along edges. */
  ghost predicate IsPath<T(!new)>(m: Links<T>, p: seq<T>) {
    && |p| > 0
    && p[|p| - 1] in m
    && forall i :: 0 <= i < |p| - 1 ==> HasEdge(m, p[i], p[i + 1])
  }

  /** The node holding x can be reached from the node holding s. */
  ghost predicate Reachable<T(!new)>(m: Links<T>, s: T, x: T) {
    && s in m && x in m
    && exists p :: IsPath(m, p) && p[0] == s && p[|p| - 1] == x
  }

  /** No edge leaves `inside` from one of its nodes that is not in `before`. */
  ghost predicate ClosedOver<T(!new)>(m: Links<T>, before: set<T>, inside: set<T>) {
    forall z, y :: z in inside && z !in before && HasEdge(m, z, y) ==> y in inside
  }

  lemma ReachableSelf<T(!new)>(m: Links<T>, s: T)
    requires s in m
    ensures Reachable(m, s, s)
  {
    assert IsPath(m, [s]);
  }

  /** One edge followed by a walk is a walk. */
  lemma ReachableStep<T(!new)>(m: Links<T>, s: T, t: T, x: T)
    requires s in m && HasEdge(m, s, t) && Reachable(m, t, x)
    ensures Reachable(m, s, x)
  {
    var p :| IsPath(m, p) && p[0] == t && p[|p| - 1] == x;
    var q := [s] + p;
    assert forall i :: 1 <= i < |q| ==> q[i] == p[i - 1];
    assert IsPath(m, q);
  }

  /** Adding nodes and edges keeps every walk a walk. */
  lemma ReachableGrows<T(!new)>(m: Links<T>, m': Links<T>, s: T, x: T)
    requires m.Keys <= m'.Keys && forall z :: z in m ==> m[z] <= m'[z]
    requires Reachable(m, s, x)
    ensures Reachable(m', s, x)
  {
  }

  /** An unused node is reachable from no other node. */
  lemma UnusedUnreachable<T(!new)>(m: Links<T>, s: T, d: T)
    requires Unused(m, d) && s != d
    ensures !Reachable(m, s, d)
  {
    forall p | IsPath(m, p) && p[0] == s
      ensures p[|p| - 1] != d
    {
      if |p| > 1 {
        assert HasEdge(m, p[|p| - 2], p[|p| - 1]);
      }
    }
  }

  /** A set that holds s and that no edge leaves holds everything reachable
      from s. */
  lemma {:induction false} ClosedHoldsReachable<T(!new)>(m: Links<T>, inside: set<T>, s: T, x: T)
    requires ClosedOver(m, {}, inside) && s in inside && Reachable(m, s, x)
    ensures x in inside
  {
    var p :| IsPath(m, p) && p[0] == s && p[|p| - 1] == x;
    var i := 0;
    while i < |p| - 1
      invariant 0 <= i < |p|
      invariant p[i] in inside
    {
      assert HasEdge(m, p[i], p[i + 1]);
      i := i + 1;
    }
  }
}

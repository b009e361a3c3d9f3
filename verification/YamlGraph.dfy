/**
 The duplicate-key check on composed YAML documents.  Aliases make a document a
 graph, possibly cyclic, so nodes are named and the check keeps a visited set.
 */
module YamlGraph {

  type NodeId = nat

  datatype Node =
    | Scalar(tag: string, value: string)
    | Mapping(pairs: seq<(NodeId, NodeId)>)
    | Sequence(items: seq<NodeId>)

  type Graph = map<NodeId, Node>

  ghost predicate Closed(g: Graph) {
    forall n :: n in g ==>
      match g[n]
      case Scalar(_, _) => true
      case Mapping(pairs) => forall i :: 0 <= i < |pairs| ==> pairs[i].0 in g && pairs[i].1 in g
      case Sequence(items) => forall i :: 0 <= i < |items| ==> items[i] in g
  }

  /** The check follows mapping values and sequence items, never keys. */
  ghost predicate Edge(g: Graph, a: NodeId, b: NodeId) {
    a in g &&
    match g[a]
    case Scalar(_, _) => false
    case Mapping(pairs) => exists i :: 0 <= i < |pairs| && pairs[i].1 == b
    case Sequence(items) => exists i :: 0 <= i < |items| && items[i] == b
  }

  ghost predicate Path(g: Graph, p: seq<NodeId>) {
    forall i :: 0 <= i < |p| - 1 ==> Edge(g, p[i], p[i + 1])
  }

  ghost predicate Reachable(g: Graph, a: NodeId, b: NodeId) {
    exists p :: |p| >= 1 && p[0] == a && p[|p| - 1] == b && Path(g, p)
  }

  /** Scalar keys only, with pairwise different (tag, value). */
  ghost predicate UniqueKeys(g: Graph, n: NodeId)
    requires Closed(g) && n in g
  {
    g[n].Mapping? ==> UniquePrefix(g, g[n].pairs, |g[n].pairs|)
  }

  ghost predicate UniquePrefix(g: Graph, pairs: seq<(NodeId, NodeId)>, n: nat)
    requires n <= |pairs| && forall i :: 0 <= i < |pairs| ==> pairs[i].0 in g
  {
    && (forall i :: 0 <= i < n ==> g[pairs[i].0].Scalar?)
    && (forall i, j :: 0 <= i < j < n ==> g[pairs[i].0] != g[pairs[j].0])
  }

  function Identity(key: Node): (string, string) {
    if key.Scalar? then (key.tag, key.value) else ("", "")
  }

  // ------------------------------------------------------------------
  // Reachability
  // ------------------------------------------------------------------

  lemma ReachesItself(g: Graph, a: NodeId)
    ensures Reachable(g, a, a)
  {
    assert Path(g, [a]);
  }

  lemma ReachesThrough(g: Graph, a: NodeId, b: NodeId, c: NodeId)
    requires Edge(g, a, b) && Reachable(g, b, c)
    ensures Reachable(g, a, c)
  {
    hide Edge;
    var p :| |p| >= 1 && p[0] == b && p[|p| - 1] == c && Path(g, p);
    var q := [a] + p;
    assert forall i :: 1 <= i < |q| ==> q[i] == p[i - 1];
    assert Path(g, q);
  }

  /** A set closed under edges contains whatever its members reach. */
  lemma {:induction false} ClosedSetHoldsPath(g: Graph, s: set<NodeId>, p: seq<NodeId>)
    requires forall a, b :: a in s && Edge(g, a, b) ==> b in s
    requires |p| >= 1 && p[0] in s && Path(g, p)
    ensures p[|p| - 1] in s
    decreases |p|
  {
    hide Edge;
    if |p| > 1 {
      assert Edge(g, p[0], p[1]);
      var q := p[1..];
      assert forall i :: 0 <= i < |q| ==> q[i] == p[i + 1];
      ClosedSetHoldsPath(g, s, q);
    }
  }

  // ------------------------------------------------------------------
  // The walk
  // ------------------------------------------------------------------

  /** Every node of `done` is sound and leads only into `seen`. */
  ghost predicate Explored(g: Graph, done: set<NodeId>, seen: set<NodeId>)
    requires Closed(g)
  {
    forall n :: n in done ==> n in g && UniqueKeys(g, n) && forall b :: Edge(g, n, b) ==> b in seen
  }

  ghost predicate Rejectable(g: Graph, n: NodeId)
    requires Closed(g)
  {
    exists bad :: Reachable(g, n, bad) && bad in g && !UniqueKeys(g, bad)
  }

  lemma RejectableThrough(g: Graph, a: NodeId, b: NodeId)
    requires Closed(g) && Edge(g, a, b) && Rejectable(g, b)
    ensures Rejectable(g, a)
  {
    hide UniqueKeys, Edge;
    var bad :| Reachable(g, b, bad) && bad in g && !UniqueKeys(g, bad);
    ReachesThrough(g, a, b, bad);
  }

  class Walk {
    var visited: set<NodeId>

    constructor ()
      ensures visited == {}
    {
      visited := {};
    }

    /** `open` are the nodes whose visit is still under way. */
    method Visit(g: Graph, node: NodeId, ghost open: set<NodeId>) returns (accepted: bool)
      requires Closed(g) && node in g
      requires open <= visited <= g.Keys && Explored(g, visited - open, visited)
      modifies this
      ensures old(visited) <= visited <= g.Keys
      ensures accepted ==> node in visited && Explored(g, visited - open, visited)
      ensures !accepted ==> Rejectable(g, node)
      decreases g.Keys - visited, 1
    {
      if node in visited {
        return true;
      }
      visited := visited + {node};
      match g[node]
      case Scalar(_, _) =>
        return true;
      case Mapping(_) =>
        accepted := VisitPairs(g, node, open);
      case Sequence(_) =>
        accepted := VisitItems(g, node, open);
    }

    method VisitPairs(g: Graph, node: NodeId, ghost open: set<NodeId>) returns (accepted: bool)
      requires Closed(g) && node in g && g[node].Mapping?
      requires node in visited && node !in open
      requires open <= visited <= g.Keys && Explored(g, visited - open - {node}, visited)
      modifies this
      ensures old(visited) <= visited <= g.Keys
      ensures accepted ==> Explored(g, visited - open, visited)
      ensures !accepted ==> Rejectable(g, node)
      decreases g.Keys - visited, 2
    {
      hide UniqueKeys, Rejectable;
      var pairs := g[node].pairs;
      var keys: set<(string, string)> := {};
      for i := 0 to |pairs|
        invariant old(visited) <= visited <= g.Keys
        invariant Explored(g, visited - open - {node}, visited)
        invariant UniquePrefix(g, pairs, i)
        invariant forall k :: k in keys <==> exists j :: 0 <= j < i && Identity(g[pairs[j].0]) == k
        invariant forall j :: 0 <= j < i ==> pairs[j].1 in visited
      {
        var (keyNode, valueNode) := pairs[i];
        if !g[keyNode].Scalar? {
          DefectRejects(g, node, i);
          return false;
        }
        var identity := (g[keyNode].tag, g[keyNode].value);
        if identity in keys {
          DefectRejects(g, node, i);
          return false;
        }
        keys := keys + {identity};
        assert visited - (open + {node}) == visited - open - {node};
        var below := Visit(g, valueNode, open + {node});
        if !below {
          assert Edge(g, node, valueNode);
          RejectableThrough(g, node, valueNode);
          return false;
        }
        assert visited - (open + {node}) == visited - open - {node};
      }
      WholePrefixIsUnique(g, node);
      return true;
    }

    method VisitItems(g: Graph, node: NodeId, ghost open: set<NodeId>) returns (accepted: bool)
      requires Closed(g) && node in g && g[node].Sequence?
      requires node in visited && node !in open
      requires open <= visited <= g.Keys && Explored(g, visited - open - {node}, visited)
      modifies this
      ensures old(visited) <= visited <= g.Keys
      ensures accepted ==> Explored(g, visited - open, visited)
      ensures !accepted ==> Rejectable(g, node)
      decreases g.Keys - visited, 2
    {
      hide Rejectable;
      var items := g[node].items;
      for i := 0 to |items|
        invariant old(visited) <= visited <= g.Keys
        invariant Explored(g, visited - open - {node}, visited)
        invariant forall j :: 0 <= j < i ==> items[j] in visited
      {
        assert visited - (open + {node}) == visited - open - {node};
        var below := Visit(g, items[i], open + {node});
        if !below {
          assert Edge(g, node, items[i]);
          RejectableThrough(g, node, items[i]);
          return false;
        }
        assert visited - (open + {node}) == visited - open - {node};
      }
      return true;
    }
  }

  lemma WholePrefixIsUnique(g: Graph, node: NodeId)
    requires Closed(g) && node in g && g[node].Mapping? && UniquePrefix(g, g[node].pairs, |g[node].pairs|)
    ensures UniqueKeys(g, node)
  {}

  /** A non-scalar key, or one equal to an earlier key, makes its mapping the reason to reject. */
  lemma DefectRejects(g: Graph, node: NodeId, i: nat)
    requires Closed(g) && node in g && g[node].Mapping? && i < |g[node].pairs|
    requires var key := g[g[node].pairs[i].0];
             !key.Scalar? || exists j :: 0 <= j < i && Identity(g[g[node].pairs[j].0]) == Identity(key)
    ensures Rejectable(g, node)
  {
    ReachesItself(g, node);
    assert !UniqueKeys(g, node);
  }

  /** Accepts exactly the documents in which every reachable mapping has unique scalar keys. */
  method RejectDuplicateKeys(g: Graph, root: NodeId) returns (accepted: bool)
    requires Closed(g) && root in g
    ensures accepted <==> forall n :: n in g && Reachable(g, root, n) ==> UniqueKeys(g, n)
  {
    hide UniqueKeys, Edge;
    var walk := new Walk();
    accepted := walk.Visit(g, root, {});
    if accepted {
      var s := walk.visited;
      assert s - {} == s;
      forall n | n in g && Reachable(g, root, n)
        ensures UniqueKeys(g, n)
      {
        var p :| |p| >= 1 && p[0] == root && p[|p| - 1] == n && Path(g, p);
        ClosedSetHoldsPath(g, s, p);
      }
    }
  }
}

/** The network graph every version keeps: a map from router to its neighbours
    and link weights, edited in place by edge additions and removals. */
module Topology {
  import opened Common

  type Adjacency = map<Node, map<Node, nat>>

  /** Every link is recorded in both directions with the same weight. */
  ghost predicate Symmetric(adj: Adjacency) {
    forall a, b :: a in adj && b in adj[a] ==> b in adj && a in adj[b] && adj[b][a] == adj[a][b]
  }

  /** `get_neighbors` / `neighbors`: the neighbour map of `v`, empty when `v` is unknown. */
  function Links(adj: Adjacency, v: Node): (r: map<Node, nat>)
    ensures v !in adj ==> r == map[]
  {
    if v in adj then adj[v] else map[]
  }

  /** A link between `x` and `y`, in that direction. */
  predicate HasLink(adj: Adjacency, x: Node, y: Node) {
    x in adj && y in adj[x]
  }

  /** The neighbours of `v` are exactly the nodes it has a link to, at the
      link's weight. */
  lemma LinksAreLinks(adj: Adjacency, v: Node)
    ensures forall u :: u in Links(adj, v) <==> HasLink(adj, v, u)
    ensures forall u :: u in Links(adj, v) ==> Links(adj, v)[u] == adj[v][u]
  {
  }

  /** The pair {a, b} as an unordered edge. */
  predicate SameEdge(x: Node, y: Node, a: Node, b: Node) {
    (x == a && y == b) || (x == b && y == a)
  }

  /** A node seen for the first time gets an empty neighbour map. */
  function WithNode(adj: Adjacency, a: Node): (r: Adjacency)
    ensures r.Keys == adj.Keys + {a}
  {
    if a in adj then adj else adj[a := map[]]
  }

  /** `add_edge` / `add_link`: unseen endpoints get an empty neighbour map, then
      both directions are set to `w`. */
  function WithEdge(adj: Adjacency, a: Node, b: Node, w: nat): (r: Adjacency)
    ensures r.Keys == adj.Keys + {a, b}
  {
    var adj2 := WithNode(WithNode(adj, a), b);
    var rowA: map<Node, nat> := adj2[a][b := w];
    var adj3 := adj2[a := rowA];
    var rowB: map<Node, nat> := adj3[b][a := w];
    adj3[b := rowB]
  }

  /** After adding {a, b} both directions carry weight `w`, and every other
      link is as it was. */
  lemma WithEdgeLinks(adj: Adjacency, a: Node, b: Node, w: nat)
    ensures HasLink(WithEdge(adj, a, b, w), a, b) && HasLink(WithEdge(adj, a, b, w), b, a)
    ensures WithEdge(adj, a, b, w)[a][b] == w && WithEdge(adj, a, b, w)[b][a] == w
    ensures forall x, y :: !SameEdge(x, y, a, b) ==>
      && (HasLink(WithEdge(adj, a, b, w), x, y) <==> HasLink(adj, x, y))
      && (HasLink(adj, x, y) ==> WithEdge(adj, a, b, w)[x][y] == adj[x][y])
  {
    forall x, y | !SameEdge(x, y, a, b)
      ensures && (HasLink(WithEdge(adj, a, b, w), x, y) <==> HasLink(adj, x, y))
              && (HasLink(adj, x, y) ==> WithEdge(adj, a, b, w)[x][y] == adj[x][y])
    {
      WithEdgeOther(adj, a, b, w, x, y);
    }
  }

  lemma WithEdgeOther(adj: Adjacency, a: Node, b: Node, w: nat, x: Node, y: Node)
    requires !SameEdge(x, y, a, b)
    ensures HasLink(WithEdge(adj, a, b, w), x, y) <==> HasLink(adj, x, y)
    ensures HasLink(adj, x, y) ==> WithEdge(adj, a, b, w)[x][y] == adj[x][y]
  {
  }

  /** Adding an edge keeps the graph symmetric. */
  lemma WithEdgeKeepsSymmetry(adj: Adjacency, a: Node, b: Node, w: nat)
    requires Symmetric(adj)
    ensures Symmetric(WithEdge(adj, a, b, w))
  {
    var r := WithEdge(adj, a, b, w);
    forall x, y | x in r && y in r[x]
      ensures y in r && x in r[y] && r[y][x] == r[x][y]
    {
      if SameEdge(x, y, a, b) {
        WithEdgeLinks(adj, a, b, w);
      } else {
        WithEdgeOther(adj, a, b, w, x, y);
        WithEdgeOther(adj, a, b, w, y, x);
      }
    }
  }

  /** `remove_edge` of DistanceVector.py and `remove_link` of test.py: each
      direction is deleted when present; no vertex is created or deleted. */
  function WithoutEdge(adj: Adjacency, a: Node, b: Node): (r: Adjacency)
    ensures r.Keys == adj.Keys
  {
    var adj1 := if a in adj && b in adj[a] then adj[a := adj[a] - {b}] else adj;
    if b in adj1 && a in adj1[b] then adj1[b := adj1[b] - {a}] else adj1
  }

  /** After removing {a, b} neither direction is present, and every other link
      is as it was. */
  lemma WithoutEdgeLinks(adj: Adjacency, a: Node, b: Node)
    ensures !HasLink(WithoutEdge(adj, a, b), a, b) && !HasLink(WithoutEdge(adj, a, b), b, a)
    ensures forall x, y :: !SameEdge(x, y, a, b) ==>
      && (HasLink(WithoutEdge(adj, a, b), x, y) <==> HasLink(adj, x, y))
      && (HasLink(adj, x, y) ==> WithoutEdge(adj, a, b)[x][y] == adj[x][y])
  {
  }

  /** Removing an edge keeps the graph symmetric. */
  lemma WithoutEdgeKeepsSymmetry(adj: Adjacency, a: Node, b: Node)
    requires Symmetric(adj)
    ensures Symmetric(WithoutEdge(adj, a, b))
  {
    var r := WithoutEdge(adj, a, b);
    WithoutEdgeLinks(adj, a, b);
    forall x, y | x in r && y in r[x]
      ensures y in r && x in r[y] && r[y][x] == r[x][y]
    {
      assert HasLink(r, x, y);
      assert !SameEdge(x, y, a, b);
      assert HasLink(adj, x, y);
      assert !SameEdge(y, x, a, b);
      assert HasLink(adj, y, x);
    }
  }

  /** `remove_edge` of almost4.py and almost1.py: nothing happens when either
      endpoint is unknown; otherwise each direction is deleted when present. */
  function WithoutEdgeGuarded(adj: Adjacency, a: Node, b: Node): Adjacency {
    if a !in adj || b !in adj then adj else WithoutEdge(adj, a, b)
  }

  /** On a symmetric graph the guard changes nothing: both removals agree, so the
      guarded one also deletes the edge and keeps every other link. */
  lemma GuardedRemovalAgrees(adj: Adjacency, a: Node, b: Node)
    requires Symmetric(adj)
    ensures WithoutEdgeGuarded(adj, a, b) == WithoutEdge(adj, a, b)
  {
    if a !in adj || b !in adj {
      assert !HasLink(adj, a, b) && !HasLink(adj, b, a);
    }
  }

  /** On a symmetric graph `u` is a neighbour of `v` exactly when `v` is a
      neighbour of `u`, at the same weight. */
  lemma LinksSymmetric(adj: Adjacency, u: Node, v: Node)
    requires Symmetric(adj)
    ensures u in Links(adj, v) <==> v in Links(adj, u)
    ensures u in Links(adj, v) ==> Links(adj, v)[u] == Links(adj, u)[v]
  {
  }

  /** One line of the UPDATE section: weight -1 removes the edge, any other
      weight sets it. */
  datatype EdgeChange = EdgeChange(a: Node, b: Node, weight: int)

  predicate ValidChange(c: EdgeChange) {
    c.weight >= -1
  }

  function ApplyChange(adj: Adjacency, c: EdgeChange, guarded: bool): Adjacency
    requires ValidChange(c)
  {
    if c.weight == -1 then
      (if guarded then WithoutEdgeGuarded(adj, c.a, c.b) else WithoutEdge(adj, c.a, c.b))
    else WithEdge(adj, c.a, c.b, c.weight as nat)
  }

  /** The graph after a batch of changes applied in input order. */
  function ApplyChanges(adj: Adjacency, cs: seq<EdgeChange>, guarded: bool): Adjacency
    requires forall i :: 0 <= i < |cs| ==> ValidChange(cs[i])
    decreases |cs|
  {
    if cs == [] then adj
    else ApplyChange(ApplyChanges(adj, cs[..|cs| - 1], guarded), cs[|cs| - 1], guarded)
  }

  /** The batch's first `i + 1` changes are its first `i` and then change `i`. */
  lemma ApplyChangesNext(adj: Adjacency, cs: seq<EdgeChange>, i: nat, guarded: bool)
    requires forall i :: 0 <= i < |cs| ==> ValidChange(cs[i])
    requires i < |cs|
    ensures ApplyChanges(adj, cs[..i + 1], guarded) == ApplyChange(ApplyChanges(adj, cs[..i], guarded), cs[i], guarded)
  {
    assert cs[..i + 1][..i] == cs[..i];
  }

  /** Any batch of additions and removals keeps the graph symmetric. */
  lemma {:induction false} ApplyChangesKeepsSymmetry(adj: Adjacency, cs: seq<EdgeChange>, guarded: bool)
    requires forall i :: 0 <= i < |cs| ==> ValidChange(cs[i])
    requires Symmetric(adj)
    ensures Symmetric(ApplyChanges(adj, cs, guarded))
    decreases |cs|
  {
    if cs != [] {
      var prefix := cs[..|cs| - 1];
      ApplyChangesKeepsSymmetry(adj, prefix, guarded);
      var mid := ApplyChanges(adj, prefix, guarded);
      var c := cs[|cs| - 1];
      if c.weight == -1 {
        GuardedRemovalAgrees(mid, c.a, c.b);
        WithoutEdgeKeepsSymmetry(mid, c.a, c.b);
      } else {
        WithEdgeKeepsSymmetry(mid, c.a, c.b, c.weight as nat);
      }
    }
  }

  class Graph {
    var adj: Adjacency

    /** A graph with no vertices. */
    constructor ()
      ensures adj == map[]
    {
      adj := map[];
    }

    /** `get_neighbors` / `neighbors`: the links of `v` with their weights,
        none for a node the graph does not know. */
    function Neighbors(v: Node): (r: map<Node, nat>)
      reads this
      ensures v !in adj ==> r == map[]
    {
      Links(adj, v)
    }

    /** The neighbours are exactly the linked nodes, at the links' weights. */
    lemma NeighborsAreLinks(v: Node)
      ensures forall u :: u in Neighbors(v) <==> HasLink(adj, v, u)
      ensures forall u :: u in Neighbors(v) ==> HasLink(adj, v, u) && Neighbors(v)[u] == adj[v][u]
    {
      LinksAreLinks(adj, v);
    }

    /** The node section of DistanceVector.py and test.py: the name gets an
        empty neighbour map (replacing any it had). */
    method AddVertex(v: Node)
      modifies this
      ensures adj == old(adj)[v := map[]]
    {
      adj := adj[v := map[]];
    }

    method AddEdge(a: Node, b: Node, w: nat)
      modifies this
      ensures adj == WithEdge(old(adj), a, b, w)
    {
      if a !in adj {
        adj := adj[a := map[]];
      }
      if b !in adj {
        adj := adj[b := map[]];
      }
      var rowA: map<Node, nat> := adj[a][b := w];
      adj := adj[a := rowA];
      var rowB: map<Node, nat> := adj[b][a := w];
      adj := adj[b := rowB];
    }

    /** The guarded removal of almost4.py and almost1.py. */
    method RemoveEdge(a: Node, b: Node)
      modifies this
      ensures adj == WithoutEdgeGuarded(old(adj), a, b)
    {
      if a !in adj || b !in adj {
        return;
      }
      if b in adj[a] {
        adj := adj[a := adj[a] - {b}];
      }
      if a in adj[b] {
        adj := adj[b := adj[b] - {a}];
      }
    }

    /** The removal of DistanceVector.py and test.py: `pop` each direction if present. */
    method RemoveEdgeEach(a: Node, b: Node)
      modifies this
      ensures adj == WithoutEdge(old(adj), a, b)
    {
      if a in adj && b in adj[a] {
        adj := adj[a := adj[a] - {b}];
      }
      if b in adj && a in adj[b] {
        adj := adj[b := adj[b] - {a}];
      }
    }

    /** One line of the UPDATE section: remove on weight -1, otherwise add. */
    method ApplyEdgeChange(c: EdgeChange, guarded: bool)
      requires ValidChange(c)
      modifies this
      ensures adj == ApplyChange(old(adj), c, guarded)
    {
      if c.weight == -1 {
        if guarded {
          RemoveEdge(c.a, c.b);
        } else {
          RemoveEdgeEach(c.a, c.b);
        }
      } else {
        AddEdge(c.a, c.b, c.weight as nat);
      }
    }

    /** The UPDATE-section loop: apply each change in order. */
    method ApplyEdgeChanges(cs: seq<EdgeChange>, guarded: bool)
      requires forall i :: 0 <= i < |cs| ==> ValidChange(cs[i])
      modifies this
      ensures adj == ApplyChanges(old(adj), cs, guarded)
    {
      var i := 0;
      while i < |cs|
        invariant 0 <= i <= |cs|
        invariant adj == ApplyChanges(old(adj), cs[..i], guarded)
      {
        ApplyChangesNext(old(adj), cs, i, guarded);
        ApplyEdgeChange(cs[i], guarded);
        i := i + 1;
      }
      assert cs[..|cs|] == cs;
    }
  }
}

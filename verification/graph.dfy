/** The adjacency-list graph: a `Map` from node name to the list of its
    neighbours' names. A JavaScript `Map` remembers the order in which keys
    were first set, so the model keeps that order beside the mapping. */
module Graphs {

  datatype Graph = Graph(order: seq<string>, adj: map<string, seq<string>>) {
    /** `order` lists every key once, in insertion order, and nothing else. */
    ghost predicate Valid()
    {
      && (forall i, j :: 0 <= i < j < |order| ==> order[i] != order[j])
      && (forall k :: k in adj <==> k in order)
    }
  }

  /** How often `x` occurs in `s`. */
  function Count(s: seq<string>, x: string): nat
  {
    multiset(s)[x]
  }

  /** The constructor: an empty map. */
  function Empty(): (g: Graph)
    ensures g.Valid() && g.adj.Keys == {}
  {
    Graph([], map[])
  }

  /** A name not yet present gets an empty neighbour list; a present one is
      left as it is. */
  function AddNode(g: Graph, node: string): (r: Graph)
    ensures r.adj.Keys == g.adj.Keys + {node}
    ensures node in g.adj ==> r == g
    ensures node !in g.adj ==> r.adj[node] == [] && r.order == g.order + [node]
    ensures forall k :: k in g.adj ==> r.adj[k] == g.adj[k]
    ensures g.Valid() ==> r.Valid()
  {
    if node in g.adj then g else Graph(g.order + [node], g.adj[node := []])
  }

  /** Appends `b` to the list of `a` and then `a` to the list of `b`; each
      append is skipped when its list is missing (the `?.` in the source). */
  function AddEdge(g: Graph, a: string, b: string): (r: Graph)
    ensures r.adj.Keys == g.adj.Keys && r.order == g.order
    ensures forall k :: k in g.adj && k != a && k != b ==> r.adj[k] == g.adj[k]
    ensures g.Valid() ==> r.Valid()
  {
    var afterA := if a in g.adj then g.adj[a := g.adj[a] + [b]] else g.adj;
    var afterB := if b in afterA then afterA[b := afterA[b] + [a]] else afterA;
    Graph(g.order, afterB)
  }

  /** The map itself, as its entries in insertion order. */
  function GetAdjacencyList(g: Graph): (entries: seq<(string, seq<string>)>)
    requires g.Valid()
    ensures |entries| == |g.order|
    ensures forall i :: 0 <= i < |entries| ==> entries[i].0 == g.order[i]
    ensures forall i :: 0 <= i < |entries| ==> entries[i].0 in g.adj && entries[i].1 == g.adj[entries[i].0]
    ensures forall i, j :: 0 <= i < j < |entries| ==> entries[i].0 != entries[j].0
    ensures forall k :: k in g.adj ==> exists i :: 0 <= i < |entries| && entries[i].0 == k
  {
    Entries(g.order, g.adj)
  }

  /** The entries of `adj` for the keys in `keys`, in that order. */
  function Entries(keys: seq<string>, adj: map<string, seq<string>>): (entries: seq<(string, seq<string>)>)
    requires forall i :: 0 <= i < |keys| ==> keys[i] in adj
    ensures |entries| == |keys|
    ensures forall i :: 0 <= i < |keys| ==> entries[i] == (keys[i], adj[keys[i]])
  {
    seq(|keys|, i requires 0 <= i < |keys| => (keys[i], adj[keys[i]]))
  }

  /** Adding a name twice is the same as adding it once. */
  lemma AddNodeIdempotent(g: Graph, node: string)
    ensures AddNode(AddNode(g, node), node) == AddNode(g, node)
  {
  }

  /** A new name shows up as one more entry, last in iteration order, with
      an empty list; the earlier entries are unchanged. */
  lemma AddNodeEntries(g: Graph, node: string)
    requires g.Valid() && node !in g.adj
    ensures GetAdjacencyList(AddNode(g, node)) == GetAdjacencyList(g) + [(node, [])]
  {
    var adj := g.adj[node := []];
    assert AddNode(g, node) == Graph(g.order + [node], adj);
    var before, after := Entries(g.order, g.adj), Entries(g.order + [node], adj);
    forall i | 0 <= i < |after|
      ensures after[i] == (before + [(node, [])])[i]
    {
      if i < |before| {
        assert (g.order + [node])[i] == g.order[i] && g.order[i] != node;
      }
    }
  }

  /** With both ends present and distinct, each end's list gains the other
      end once, at its back, and every other list is unchanged. */
  lemma AddEdgeBothPresent(g: Graph, a: string, b: string)
    requires a in g.adj && b in g.adj && a != b
    ensures AddEdge(g, a, b).adj == g.adj[a := g.adj[a] + [b]][b := g.adj[b] + [a]]
    ensures Count(AddEdge(g, a, b).adj[a], b) == Count(g.adj[a], b) + 1
    ensures Count(AddEdge(g, a, b).adj[b], a) == Count(g.adj[b], a) + 1
  {
  }

  /** A loop on a present name appends that name to its own list twice. */
  lemma AddEdgeSelfLoop(g: Graph, a: string)
    requires a in g.adj
    ensures AddEdge(g, a, a).adj == g.adj[a := g.adj[a] + [a, a]]
  {
    assert g.adj[a] + [a] + [a] == g.adj[a] + [a, a];
  }

  /** A missing end is neither created nor given a list; only the present
      end (if any) records the edge. */
  lemma AddEdgeMissingEnd(g: Graph, a: string, b: string)
    ensures a !in g.adj ==>
      AddEdge(g, a, b).adj == if b in g.adj then g.adj[b := g.adj[b] + [a]] else g.adj
    ensures b !in g.adj ==>
      AddEdge(g, a, b).adj == if a in g.adj then g.adj[a := g.adj[a] + [b]] else g.adj
  {
  }

  /** Nothing stops an edge from being recorded twice. */
  lemma AddEdgeRepeats(g: Graph, a: string, b: string)
    requires a in g.adj && b in g.adj && a != b
    ensures Count(AddEdge(AddEdge(g, a, b), a, b).adj[a], b) == Count(g.adj[a], b) + 2
    ensures Count(AddEdge(AddEdge(g, a, b), a, b).adj[b], a) == Count(g.adj[b], a) + 2
  {
    AddEdgeBothPresent(g, a, b);
    AddEdgeBothPresent(AddEdge(g, a, b), a, b);
  }

  /** Among present names, `v` is listed under `u` as often as `u` under `v`. */
  ghost predicate Symmetric(g: Graph)
  {
    forall u, v :: u in g.adj && v in g.adj ==> Count(g.adj[u], v) == Count(g.adj[v], u)
  }

  /** Every listed neighbour is itself a present name. */
  ghost predicate Closed(g: Graph)
  {
    forall u, i :: u in g.adj && 0 <= i < |g.adj[u]| ==> g.adj[u][i] in g.adj
  }

  /** An undirected graph: symmetric lists naming only present nodes. */
  ghost predicate Undirected(g: Graph)
  {
    Symmetric(g) && Closed(g)
  }

  lemma CountAppend(s: seq<string>, x: string, y: string)
    ensures Count(s + [x], y) == Count(s, y) + (if x == y then 1 else 0)
  {
    assert multiset(s + [x]) == multiset(s) + multiset{x};
  }

  /** A name that no list mentions is counted zero times everywhere. */
  lemma UnlistedCountsZero(g: Graph, x: string, v: string)
    requires Closed(g) && x !in g.adj && v in g.adj
    ensures Count(g.adj[v], x) == 0
  {
  }

  /** Adding a name keeps an undirected graph undirected. */
  lemma AddNodeKeepsUndirected(g: Graph, node: string)
    requires Undirected(g)
    ensures Undirected(AddNode(g, node))
  {
    var r := AddNode(g, node);
    if node !in g.adj {
      forall u, v | u in r.adj && v in r.adj
        ensures Count(r.adj[u], v) == Count(r.adj[v], u)
      {
        if u == node && v != node {
          UnlistedCountsZero(g, node, v);
        } else if v == node && u != node {
          UnlistedCountsZero(g, node, u);
        }
      }
    }
  }

  /** What one `AddEdge` adds to the count of `v` in the list of `u`: one
      for each of its two appends that lands there. */
  function EdgeExtra(a: string, b: string, u: string, v: string): nat
  {
    (if u == a && v == b then 1 else 0) + (if u == b && v == a then 1 else 0)
  }

  lemma AddEdgeCounts(g: Graph, a: string, b: string, u: string, v: string)
    requires a in g.adj && b in g.adj && u in g.adj
    ensures Count(AddEdge(g, a, b).adj[u], v) == Count(g.adj[u], v) + EdgeExtra(a, b, u, v)
  {
    var r := AddEdge(g, a, b);
    if a == b {
      if u == a {
        assert r.adj[a] == g.adj[a] + [a] + [a];
        CountAppend(g.adj[a], a, v);
        CountAppend(g.adj[a] + [a], a, v);
      }
    } else if u == a {
      CountAppend(g.adj[a], b, v);
    } else if u == b {
      CountAppend(g.adj[b], a, v);
    }
  }

  lemma AddEdgeKeepsSymmetric(g: Graph, a: string, b: string)
    requires Symmetric(g) && a in g.adj && b in g.adj
    ensures Symmetric(AddEdge(g, a, b))
  {
    var r := AddEdge(g, a, b);
    forall u, v | u in r.adj && v in r.adj
      ensures Count(r.adj[u], v) == Count(r.adj[v], u)
    {
      AddEdgeCounts(g, a, b, u, v);
      AddEdgeCounts(g, a, b, v, u);
    }
  }

  lemma AddEdgeKeepsClosed(g: Graph, a: string, b: string)
    requires Closed(g) && a in g.adj && b in g.adj
    ensures Closed(AddEdge(g, a, b))
  {
    var r := AddEdge(g, a, b);
    forall u, i | u in r.adj && 0 <= i < |r.adj[u]|
      ensures r.adj[u][i] in r.adj
    {
      if i < |g.adj[u]| {
        assert r.adj[u][i] == g.adj[u][i];
      }
    }
  }

  /** An edge between two present names keeps an undirected graph undirected. */
  lemma AddEdgeKeepsUndirected(g: Graph, a: string, b: string)
    requires Undirected(g)
    ensures a in g.adj && b in g.adj ==> Undirected(AddEdge(g, a, b))
  {
    if a in g.adj && b in g.adj {
      AddEdgeKeepsSymmetric(g, a, b);
      AddEdgeKeepsClosed(g, a, b);
    }
  }

  /** Symmetry among present names alone is not kept by `AddNode`: an edge
      to a missing name leaves that name listed on one side only, and adding
      the name afterwards exposes the imbalance. */
  lemma SymmetryAloneNotKept()
    ensures var g := AddEdge(AddNode(Empty(), "b"), "a", "b");
            Symmetric(g) && !Symmetric(AddNode(g, "a"))
  {
    var g0 := AddNode(Empty(), "b");
    assert g0.adj.Keys == {"b"} && g0.adj["b"] == [];
    var g := AddEdge(g0, "a", "b");
    assert g.adj.Keys == {"b"} && g.adj["b"] == ["a"];
    assert Count(g.adj["b"], "b") == 0;
    var h := AddNode(g, "a");
    assert h.adj["a"] == [] && h.adj["b"] == ["a"];
    assert Count(h.adj["b"], "a") == 1;
    assert Count(h.adj["a"], "b") == 0;
  }
}

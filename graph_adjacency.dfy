/**
 The graph handed to the solver and the undirected adjacency map built from it
 (src/algorithms/dominatingSet.ts, lines 1-13).

 Node ids are listed in order and may repeat; an edge may name ids that are not
 listed. The adjacency map has one entry per listed id, and an edge adds each
 endpoint to the neighbour set of the other endpoint whenever that other
 endpoint is listed.
 */
module GraphAdjacency {

  type Id = string

  /** An undirected edge, written as (source, target). */
  type Edge = (Id, Id)

  /** The `Graph` type: the ids of the nodes, in order, and the edges. */
  datatype Graph = Graph(nodes: seq<Id>, edges: seq<Edge>)

  type AdjacencyMap = map<Id, set<Id>>

  /** The set of listed ids. */
  ghost function Listed(nodes: seq<Id>): set<Id>
  {
    set id | id in nodes
  }

  /** No id is listed twice. */
  ghost predicate DistinctIds(nodes: seq<Id>)
  {
    forall i, j :: 0 <= i < j < |nodes| ==> nodes[i] != nodes[j]
  }

  /** Every endpoint of every edge is a listed id. */
  ghost predicate EdgesListed(g: Graph)
  {
    forall e :: e in g.edges ==> e.0 in g.nodes && e.1 in g.nodes
  }

  /** The ids that share an edge with `id`, in either direction. */
  ghost function Neighbours(edges: seq<Edge>, id: Id): set<Id>
  {
    (set e | e in edges && e.0 == id :: e.1) + (set e | e in edges && e.1 == id :: e.0)
  }

  /**
   The intended adjacency: every listed id, and only those, mapped to its neighbours.
   Each edge puts each endpoint into the set of the other endpoint whenever that
   other endpoint is listed (`AdjacencyDomain` adds that nothing else enters a set).
   */
  ghost function AdjacencyOf(nodes: seq<Id>, edges: seq<Edge>): (adj: AdjacencyMap)
    ensures adj.Keys == Listed(nodes)
    ensures forall e :: e in edges && e.0 in adj ==> e.1 in adj[e.0]
    ensures forall e :: e in edges && e.1 in adj ==> e.0 in adj[e.1]
  {
    map id | id in nodes :: Neighbours(edges, id)
  }

  /** Adding one edge to the edge list adds at most its two endpoints to a neighbour set. */
  lemma NeighboursSnoc(edges: seq<Edge>, e: Edge, id: Id)
    ensures Neighbours(edges + [e], id)
            == Neighbours(edges, id) + (if e.0 == id then {e.1} else {}) + (if e.1 == id then {e.0} else {})
  {
    var lhs := Neighbours(edges + [e], id);
    var rhs := Neighbours(edges, id) + (if e.0 == id then {e.1} else {}) + (if e.1 == id then {e.0} else {});
    forall x | x in lhs ensures x in rhs {
      var f :| f in edges + [e] && ((f.0 == id && f.1 == x) || (f.1 == id && f.0 == x));
      if f != e {
        assert f in edges;
      }
    }
    forall x | x in rhs ensures x in lhs {
      if x in Neighbours(edges, id) {
        var f :| f in edges && ((f.0 == id && f.1 == x) || (f.1 == id && f.0 == x));
        assert f in edges + [e];
      } else {
        assert e in edges + [e];
      }
    }
  }

  /** Listing one more id adds its entry, with an empty set, to the edge-free map (line 9). */
  lemma ListOneMore(nodes: seq<Id>, i: nat)
    requires i < |nodes|
    ensures AdjacencyOf(nodes[..i + 1], []) == AdjacencyOf(nodes[..i], [])[nodes[i] := {}]
  {
    assert Neighbours([], nodes[i]) == {};
    assert nodes[..i + 1] == nodes[..i] + [nodes[i]];
  }

  /** The two guarded insertions that one edge performs (lines 11 and 12). */
  ghost function InsertEdge(adj: AdjacencyMap, e: Edge): (r: AdjacencyMap)
    ensures r.Keys == adj.Keys
    ensures forall id :: id in r ==>
              r[id] == adj[id] + (if id == e.0 then {e.1} else {}) + (if id == e.1 then {e.0} else {})
  {
    var (source, target) := e;
    var a1 := if source in adj then adj[source := adj[source] + {target}] else adj;
    if target in a1 then a1[target := a1[target] + {source}] else a1
  }

  /** Handling one more edge is exactly the two guarded insertions. */
  lemma AdjacencySnoc(nodes: seq<Id>, edges: seq<Edge>, e: Edge)
    ensures AdjacencyOf(nodes, edges + [e]) == InsertEdge(AdjacencyOf(nodes, edges), e)
  {
    var before, after := AdjacencyOf(nodes, edges), AdjacencyOf(nodes, edges + [e]);
    var inserted := InsertEdge(before, e);
    forall id | id in nodes
      ensures after[id] == inserted[id]
    {
      NeighboursSnoc(edges, e, id);
    }
    assert after.Keys == inserted.Keys;
  }

  /**
   Building the adjacency map: one empty set per listed id (line 9), then each edge
   adds `target` to the set of a listed `source` and `source` to the set of a listed
   `target` (lines 10-13).
   */
  method BuildAdjacency(g: Graph) returns (adj: AdjacencyMap)
    ensures adj == AdjacencyOf(g.nodes, g.edges)
    ensures adj.Keys == Listed(g.nodes)
  {
    adj := map[];
    for i := 0 to |g.nodes|
      invariant adj == AdjacencyOf(g.nodes[..i], [])
    {
      ListOneMore(g.nodes, i);
      adj := adj[g.nodes[i] := {}];
    }
    assert g.nodes[..|g.nodes|] == g.nodes;
    assert adj == AdjacencyOf(g.nodes, g.edges[..0]);
    for i := 0 to |g.edges|
      invariant adj == AdjacencyOf(g.nodes, g.edges[..i])
    {
      assert g.edges[..i + 1] == g.edges[..i] + [g.edges[i]];
      AdjacencySnoc(g.nodes, g.edges[..i], g.edges[i]);
      var (source, target) := g.edges[i];
      if source in adj {
        adj := adj[source := adj[source] + {target}];
      }
      if target in adj {
        adj := adj[target := adj[target] + {source}];
      }
    }
    assert g.edges[..|g.edges|] == g.edges;
  }

  /**
   The map has exactly one entry per listed id: an id that occurs only in edges gets
   none, and a listed id that no edge mentions maps to the empty set. The set of a
   listed id holds exactly the ids that share an edge with it.
   */
  lemma AdjacencyDomain(nodes: seq<Id>, edges: seq<Edge>, id: Id)
    ensures id in AdjacencyOf(nodes, edges) <==> id in Listed(nodes)
    ensures id in nodes && (forall e :: e in edges ==> e.0 != id && e.1 != id)
            ==> AdjacencyOf(nodes, edges)[id] == {}
    ensures id in nodes ==> forall x :: x in AdjacencyOf(nodes, edges)[id] <==>
              exists e :: e in edges && ((e.0 == id && e.1 == x) || (e.1 == id && e.0 == x))
  {
  }

  /** Among listed ids the adjacency is symmetric. */
  lemma AdjacencySymmetric(nodes: seq<Id>, edges: seq<Edge>, u: Id, v: Id)
    requires u in nodes && v in nodes
    ensures v in AdjacencyOf(nodes, edges)[u] <==> u in AdjacencyOf(nodes, edges)[v]
  {
    if v in Neighbours(edges, u) {
      var f :| f in edges && ((f.0 == u && f.1 == v) || (f.1 == u && f.0 == v));
      assert u in Neighbours(edges, v);
    }
    if u in Neighbours(edges, v) {
      var f :| f in edges && ((f.0 == v && f.1 == u) || (f.1 == v && f.0 == u));
      assert v in Neighbours(edges, u);
    }
  }

  /**
   An edge with exactly one listed endpoint, in either orientation, changes the set
   of the listed endpoint only, by adding the unlisted endpoint to it.
   */
  lemma DanglingEdgeTouchesListedEndOnly(nodes: seq<Id>, edges: seq<Edge>, source: Id, target: Id)
    requires (source in nodes && target !in nodes) || (source !in nodes && target in nodes)
    ensures var (listed, unlisted) := if source in nodes then (source, target) else (target, source);
            AdjacencyOf(nodes, edges + [(source, target)])
            == AdjacencyOf(nodes, edges)[listed := AdjacencyOf(nodes, edges)[listed] + {unlisted}]
  {
    AdjacencySnoc(nodes, edges, (source, target));
    var before := AdjacencyOf(nodes, edges);
    if source in nodes {
      assert target !in before[source := before[source] + {target}];
    } else {
      assert source !in before;
    }
  }

  /** When every edge endpoint is listed, every neighbour set holds listed ids only. */
  lemma ListedEdgesGiveListedNeighbours(g: Graph, id: Id)
    requires EdgesListed(g)
    requires id in g.nodes
    ensures AdjacencyOf(g.nodes, g.edges)[id] <= Listed(g.nodes)
  {
    forall x | x in Neighbours(g.edges, id) ensures x in Listed(g.nodes) {
      var f :| f in g.edges && ((f.0 == id && f.1 == x) || (f.1 == id && f.0 == x));
    }
  }
}

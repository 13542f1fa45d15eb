/**
 What `computeDominatingSet` (src/algorithms/dominatingSet.ts) returns on small
 graphs, including the inputs on which the loop stops before every listed node
 is dominated.
 */
module GreedyExamples {

  import opened GraphAdjacency
  import opened GreedyDominatingSet

  /** An empty node list gives the empty set: the loop test fails at once. */
  lemma EmptyGraph(edges: seq<Edge>)
    ensures Greedy(Graph([], edges)) == {}
  {
  }

  /** A single node without edges maps to the empty set. */
  lemma SingleAdjacency(id: Id)
    ensures AdjacencyOf([id], []) == map[id := {}]
  {
    assert Neighbours([], id) == {};
  }

  /** On that adjacency the node is picked, and one pass covers it. */
  lemma SingleRun(id: Id, adj: AdjacencyMap)
    requires id != ""
    requires adj == map[id := {}]
    ensures GreedyFrom([id], adj, {}, {}) == {id}
  {
    assert IsBest([id], adj, {}, 1, 0);
    GreedyOnePass([id], adj, 0);
  }

  /** A single node without edges is returned on its own. */
  lemma SingleNode(id: Id)
    requires id != ""
    ensures Greedy(Graph([id], [])) == {id}
  {
    SingleAdjacency(id);
    SingleRun(id, AdjacencyOf([id], []));
  }

  /** A single node whose id is "" is not returned: "" is falsy, so line 35 breaks. */
  lemma SingleEmptyId(id: Id)
    requires id == ""
    ensures Greedy(Graph([id], [])) == {}
    ensures !IsDominating(Greedy(Graph([id], [])), [id], AdjacencyOf([id], []))
  {
    var adj := AdjacencyOf([id], []);
    SingleAdjacency(id);
    assert IsBest([id], adj, {}, 1, 0);
    ChoiceIs([id], adj, {}, 0);
    assert GreedyFrom([id], adj, {}, {}) == {};
  }

  /** The adjacency of a star: the centre neighbours every leaf, every leaf the centre only. */
  lemma StarAdjacency(a: Id, b: Id, c: Id, d: Id)
    requires a != b && a != c && a != d && b != c && b != d && c != d
    ensures AdjacencyOf([a, b, c, d], [(a, b), (a, c), (a, d)])
            == map[a := {b, c, d}, b := {a}, c := {a}, d := {a}]
  {
    StarNeighbours(a, b, c, d);
  }

  /** In a star the centre shares an edge with every leaf, and every leaf with the centre only. */
  lemma StarNeighbours(a: Id, b: Id, c: Id, d: Id)
    requires a != b && a != c && a != d && b != c && b != d && c != d
    ensures Neighbours([(a, b), (a, c), (a, d)], a) == {b, c, d}
    ensures Neighbours([(a, b), (a, c), (a, d)], b) == {a}
    ensures Neighbours([(a, b), (a, c), (a, d)], c) == {a}
    ensures Neighbours([(a, b), (a, c), (a, d)], d) == {a}
  {
    var edges := [(a, b), (a, c), (a, d)];
    assert Neighbours(edges, a) == {b, c, d};
    assert Neighbours(edges, b) == {a};
    assert Neighbours(edges, c) == {a};
    assert Neighbours(edges, d) == {a};
  }

  /** On the star's adjacency the centre scores 4 and every leaf 2, so the centre is picked. */
  lemma StarBest(a: Id, b: Id, c: Id, d: Id, adj: AdjacencyMap)
    requires a != b && a != c && a != d && b != c && b != d && c != d
    requires adj == map[a := {b, c, d}, b := {a}, c := {a}, d := {a}]
    ensures CoversNodes([a, b, c, d], adj) && IsBest([a, b, c, d], adj, {}, 4, 0)
  {
    var nodes := [a, b, c, d];
    assert Score(adj, {}, a) == 4 by {
      assert adj[a] - {} == {b, c, d};
    }
    forall j | 0 <= j < 4 ensures Score(adj, {}, nodes[j]) <= 4 {
      if j > 0 {
        assert adj[nodes[j]] == {a};
      }
    }
  }

  /** The centre and its leaves are four distinct ids. */
  lemma StarMarked(a: Id, b: Id, c: Id, d: Id, adj: AdjacencyMap)
    requires a != b && a != c && a != d && b != c && b != d && c != d
    requires adj == map[a := {b, c, d}, b := {a}, c := {a}, d := {a}]
    ensures |{a} + adj[a]| == 4
  {
    assert {a} + adj[a] == {a, b, c, d};
  }

  /** On the star's adjacency one pass, picking the centre, covers all four nodes. */
  lemma StarRun(a: Id, b: Id, c: Id, d: Id, adj: AdjacencyMap)
    requires a != "" && a != b && a != c && a != d && b != c && b != d && c != d
    requires adj == map[a := {b, c, d}, b := {a}, c := {a}, d := {a}]
    ensures GreedyFrom([a, b, c, d], adj, {}, {}) == {a}
  {
    StarBest(a, b, c, d, adj);
    StarMarked(a, b, c, d, adj);
    GreedyOnePass([a, b, c, d], adj, 0);
  }

  /** A star with centre `a` and leaves `b`, `c`, `d`: the centre alone is returned. */
  lemma StarGraph(a: Id, b: Id, c: Id, d: Id)
    requires a != "" && a != b && a != c && a != d && b != c && b != d && c != d
    ensures Greedy(Graph([a, b, c, d], [(a, b), (a, c), (a, d)])) == {a}
  {
    StarAdjacency(a, b, c, d);
    StarRun(a, b, c, d, AdjacencyOf([a, b, c, d], [(a, b), (a, c), (a, d)]));
  }

  /** The unlisted endpoint x enters the set of `a`, gets no entry, and `b` stays isolated. */
  lemma DanglingAdjacency(a: Id, b: Id, x: Id)
    requires a != b && a != x && b != x
    ensures AdjacencyOf([a, b], [(a, x)]) == map[a := {x}, b := {}]
  {
    assert Neighbours([(a, x)], a) == {x};
    assert Neighbours([(a, x)], b) == {};
  }

  /**
   On that adjacency `a` scores 2 and is chosen; with the unlisted x, two ids are
   dominated, so the size test of line 19 fails while `b` is still undominated.
   */
  lemma DanglingRun(a: Id, b: Id, x: Id, adj: AdjacencyMap)
    requires a != "" && a != b && a != x && b != x
    requires adj == map[a := {x}, b := {}]
    ensures GreedyFrom([a, b], adj, {}, {}) == {a}
    ensures !IsDominating({a}, [a, b], adj)
  {
    assert IsBest([a, b], adj, {}, 2, 0) by {
      assert Score(adj, {}, a) == 2;
    }
    assert |{a} + adj[a]| >= 2 by {
      assert {a} + adj[a] == {a, x};
    }
    assert !IsDominating({a}, [a, b], adj) by {
      var nodes := [a, b];
      assert nodes[1] !in {a};
      assert forall r :: r in {a} && r in adj ==> nodes[1] !in adj[r];
    }
    GreedyOnePass([a, b], adj, 0);
  }

  /**
   Nodes `a` and `b` with the single edge a-x, x unlisted: `a` alone is returned and
   `b` is left undominated.
   */
  lemma DanglingEdgeStopsEarly(a: Id, b: Id, x: Id)
    requires a != "" && a != b && a != x && b != x
    ensures Greedy(Graph([a, b], [(a, x)])) == {a}
    ensures !IsDominating(Greedy(Graph([a, b], [(a, x)])), [a, b], AdjacencyOf([a, b], [(a, x)]))
  {
    DanglingAdjacency(a, b, x);
    DanglingRun(a, b, x, AdjacencyOf([a, b], [(a, x)]));
  }

  /** On the edge-free map of `a`, `a` is chosen once; after that the scan finds nothing. */
  lemma DuplicateIdsRun(a: Id, adj: AdjacencyMap)
    requires a != ""
    requires adj == map[a := {}]
    ensures GreedyFrom([a, a], adj, {}, {}) == {a}
    ensures Choice([a, a], adj, {a}) == None
  {
    assert IsBest([a, a], adj, {}, 2, 0);
    GreedyOnePass([a, a], adj, 0);
  }

  /**
   One id listed twice: after it is chosen one id is dominated against a length of 2,
   so the size test never fails and the loop leaves through the `break` of line 35.
   */
  lemma DuplicateIdsBreak(a: Id)
    requires a != ""
    ensures Greedy(Graph([a, a], [])) == {a}
    ensures Choice([a, a], AdjacencyOf([a, a], []), {a}) == None
  {
    var adj := AdjacencyOf([a, a], []);
    assert adj == map[a := {}] by {
      assert Neighbours([], a) == {};
    }
    DuplicateIdsRun(a, adj);
  }

  /** With `a` listed twice and two dangling edges, `a` maps to both unlisted ids. */
  lemma DuplicateDanglingAdjacency(a: Id, b: Id, x: Id, y: Id)
    requires a != b && a != x && a != y && b != x && b != y && x != y
    ensures AdjacencyOf([a, a, b], [(a, x), (a, y)]) == map[a := {x, y}, b := {}]
  {
    var edges := [(a, x), (a, y)];
    assert Neighbours(edges, a) == {x, y};
    assert Neighbours(edges, b) == {};
  }

  /** On that adjacency `a` scores 3 and `b` scores 1, so the first `a` is picked. */
  lemma DuplicateDanglingBest(a: Id, b: Id, x: Id, y: Id, adj: AdjacencyMap)
    requires a != b && a != x && a != y && b != x && b != y && x != y
    requires adj == map[a := {x, y}, b := {}]
    ensures CoversNodes([a, a, b], adj) && IsBest([a, a, b], adj, {}, 3, 0)
  {
    var nodes := [a, a, b];
    assert Score(adj, {}, a) == 3 by {
      assert adj[a] - {} == {x, y};
    }
    forall j | 0 <= j < 3 ensures Score(adj, {}, nodes[j]) <= 3 {
      assert nodes[j] in adj;
    }
  }

  /**
   On that adjacency `a` scores 3 and is chosen; with x and y three ids are
   dominated, which is the length of the node list, so the loop stops with `b`
   undominated.
   */
  lemma DuplicateDanglingRun(a: Id, b: Id, x: Id, y: Id, adj: AdjacencyMap)
    requires a != "" && a != b && a != x && a != y && b != x && b != y && x != y
    requires adj == map[a := {x, y}, b := {}]
    ensures GreedyFrom([a, a, b], adj, {}, {}) == {a}
    ensures !IsDominating({a}, [a, a, b], adj)
  {
    DuplicateDanglingBest(a, b, x, y, adj);
    assert |{a} + adj[a]| >= 3 by {
      assert {a} + adj[a] == {a, x, y};
    }
    assert !IsDominating({a}, [a, a, b], adj) by {
      var nodes := [a, a, b];
      assert nodes[2] !in {a};
      assert forall r :: r in {a} && r in adj ==> nodes[2] !in adj[r];
    }
    GreedyOnePass([a, a, b], adj, 0);
  }

  /**
   Duplicate ids together with dangling edges: nodes `a`, `a`, `b` and edges a-x,
   a-y with x and y unlisted give `{a}`, which leaves the listed node `b`
   undominated.
   */
  lemma DuplicateDanglingStopsEarly(a: Id, b: Id, x: Id, y: Id)
    requires a != "" && a != b && a != x && a != y && b != x && b != y && x != y
    ensures Greedy(Graph([a, a, b], [(a, x), (a, y)])) == {a}
    ensures !IsDominating(Greedy(Graph([a, a, b], [(a, x), (a, y)])), [a, a, b],
                          AdjacencyOf([a, a, b], [(a, x), (a, y)]))
  {
    DuplicateDanglingAdjacency(a, b, x, y);
    DuplicateDanglingRun(a, b, x, y, AdjacencyOf([a, a, b], [(a, x), (a, y)]));
  }
}

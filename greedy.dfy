/**
 The greedy dominating-set solver `computeDominatingSet`
 (src/algorithms/dominatingSet.ts, lines 6-43).

 While fewer ids are dominated than there are entries in the node list, the
 solver scans the nodes in order, scores every undominated node as one plus the
 number of its undominated neighbours, keeps the first node of highest score,
 adds it to the result and marks it and its neighbours dominated. The loop also
 stops when the scan finds no node, or finds one whose id is the empty string:
 the test on line 35 is a JavaScript falsiness test, and "" is falsy.
 */
module GreedyDominatingSet {

  import opened GraphAdjacency

  datatype Option<T> = None | Some(value: T)

  /** Every listed id has an entry in the adjacency map. */
  ghost predicate CoversNodes(nodes: seq<Id>, adj: AdjacencyMap)
  {
    forall i :: 0 <= i < |nodes| ==> nodes[i] in adj
  }

  /** Among ids with an entry, `v` is a neighbour of `u` exactly when `u` is one of `v`. */
  ghost predicate Symmetric(adj: AdjacencyMap)
  {
    forall u, v :: u in adj && v in adj ==> (v in adj[u] <==> u in adj[v])
  }

  /** Every listed id is in `d` or is a neighbour of a member of `d`. */
  ghost predicate IsDominating(d: set<Id>, nodes: seq<Id>, adj: AdjacencyMap)
  {
    forall i :: 0 <= i < |nodes| ==> nodes[i] in d || exists r :: r in d && r in adj && nodes[i] in adj[r]
  }

  /** No member of `d` is a neighbour of another member of `d`. */
  ghost predicate Independent(d: set<Id>, adj: AdjacencyMap)
  {
    forall u, v :: u in d && v in d && u != v && u in adj ==> v !in adj[u]
  }

  /** The score of an undominated node: itself plus its undominated neighbours (lines 26-29). */
  ghost function Score(adj: AdjacencyMap, dominated: set<Id>, id: Id): (s: nat)
    requires id in adj
    ensures 1 <= s <= 1 + |adj[id]|
  {
    1 + |adj[id] - dominated|
  }

  /** A node scores the minimum 1 exactly when all of its neighbours are already dominated. */
  lemma ScoreMinimal(adj: AdjacencyMap, dominated: set<Id>, id: Id)
    requires id in adj
    ensures Score(adj, dominated, id) == 1 <==> adj[id] <= dominated
  {
    if adj[id] - dominated == {} {
      forall x | x in adj[id] ensures x in dominated {
        assert x !in adj[id] - dominated;
      }
    }
  }

  /**
   `nodes[k]` is the node the scan keeps after looking at `nodes[..n]`: it is
   undominated, no undominated node among the first `n` scores higher, and every
   undominated node before it scores strictly lower (the test on line 30 is `>`).
   */
  ghost predicate IsBest(nodes: seq<Id>, adj: AdjacencyMap, dominated: set<Id>, n: nat, k: int)
    requires n <= |nodes| && CoversNodes(nodes, adj)
  {
    && 0 <= k < n
    && nodes[k] !in dominated
    && (forall j :: 0 <= j < n && nodes[j] !in dominated ==>
          Score(adj, dominated, nodes[j]) <= Score(adj, dominated, nodes[k]))
    && (forall j :: 0 <= j < k && nodes[j] !in dominated ==>
          Score(adj, dominated, nodes[j]) < Score(adj, dominated, nodes[k]))
  }

  /** Some prefix position satisfies IsBest as soon as the prefix holds an undominated node. */
  lemma {:induction false} BestExists(nodes: seq<Id>, adj: AdjacencyMap, dominated: set<Id>, n: nat)
    requires n <= |nodes| && CoversNodes(nodes, adj)
    requires exists j :: 0 <= j < n && nodes[j] !in dominated
    ensures exists k :: IsBest(nodes, adj, dominated, n, k)
  {
    var m := n - 1;
    if forall j :: 0 <= j < m ==> nodes[j] in dominated {
      assert IsBest(nodes, adj, dominated, n, m);
    } else {
      BestExists(nodes, adj, dominated, m);
      var k :| IsBest(nodes, adj, dominated, m, k);
      if nodes[m] !in dominated && Score(adj, dominated, nodes[m]) > Score(adj, dominated, nodes[k]) {
        assert IsBest(nodes, adj, dominated, n, m);
      } else {
        assert IsBest(nodes, adj, dominated, n, k);
      }
    }
  }

  /** The best position is unique: ties are broken deterministically. */
  lemma BestUnique(nodes: seq<Id>, adj: AdjacencyMap, dominated: set<Id>, n: nat, k1: int, k2: int)
    requires n <= |nodes| && CoversNodes(nodes, adj)
    requires IsBest(nodes, adj, dominated, n, k1) && IsBest(nodes, adj, dominated, n, k2)
    ensures k1 == k2
  {
  }

  /**
   The node one scan of lines 20-34 selects: none when every listed node is
   dominated, otherwise the first listed node of highest score.
   */
  ghost function Choice(nodes: seq<Id>, adj: AdjacencyMap, dominated: set<Id>): (c: Option<Id>)
    requires CoversNodes(nodes, adj)
    ensures c.None? <==> forall i :: 0 <= i < |nodes| ==> nodes[i] in dominated
    ensures c.Some? ==> exists k :: IsBest(nodes, adj, dominated, |nodes|, k) && nodes[k] == c.value
    ensures c.Some? ==> c.value in Listed(nodes) - dominated && c.value in adj
  {
    if forall i :: 0 <= i < |nodes| ==> nodes[i] in dominated then
      None
    else
      BestExists(nodes, adj, dominated, |nodes|);
      var k :| IsBest(nodes, adj, dominated, |nodes|, k);
      Some(nodes[k])
  }

  /** The scan selects exactly the first node of highest score. */
  lemma ChoiceIs(nodes: seq<Id>, adj: AdjacencyMap, dominated: set<Id>, k: int)
    requires CoversNodes(nodes, adj)
    requires IsBest(nodes, adj, dominated, |nodes|, k)
    ensures Choice(nodes, adj, dominated) == Some(nodes[k])
  {
    var c := Choice(nodes, adj, dominated);
    var k' :| IsBest(nodes, adj, dominated, |nodes|, k') && nodes[k'] == c.value;
    BestUnique(nodes, adj, dominated, |nodes|, k, k');
  }

  /** A subset is no larger than its superset, and a proper subset is smaller. */
  lemma SubsetCardinality(a: set<Id>, b: set<Id>)
    requires a <= b
    ensures |a| <= |b|
    ensures a < b ==> |a| < |b|
  {
    assert b == a + (b - a);
    if a < b {
      var x :| x in b - a;
    }
  }

  /** Marking an undominated listed id dominated shrinks the set of undominated listed ids. */
  lemma MarkingShrinks(listed: set<Id>, dominated: set<Id>, b: Id, nbrs: set<Id>)
    requires b in listed - dominated
    ensures |listed - (dominated + {b} + nbrs)| < |listed - dominated|
  {
    SubsetCardinality(listed - (dominated + {b} + nbrs), listed - dominated);
  }

  /**
   The ids the greedy loop (lines 19-40) returns, from the given dominated set and
   result on. The loop only adds to the result.
   */
  ghost function GreedyFrom(nodes: seq<Id>, adj: AdjacencyMap, dominated: set<Id>, result: set<Id>): (r: set<Id>)
    requires CoversNodes(nodes, adj)
    ensures result <= r
    decreases |Listed(nodes) - dominated|
  {
    if |dominated| >= |nodes| then
      result
    else
      match Choice(nodes, adj, dominated)
      case None => result
      case Some(b) =>
        if b == "" then
          result
        else
          MarkingShrinks(Listed(nodes), dominated, b, adj[b]);
          GreedyFrom(nodes, adj, dominated + {b} + adj[b], result + {b})
  }

  /** What `computeDominatingSet` returns for a graph: listed ids only. */
  ghost function Greedy(g: Graph): (r: set<Id>)
    ensures r <= Listed(g.nodes)
  {
    GreedyFromListed(g.nodes, AdjacencyOf(g.nodes, g.edges), {}, {});
    GreedyFrom(g.nodes, AdjacencyOf(g.nodes, g.edges), {}, {})
  }

  /** The inner `forEach` of lines 27-29: counts the neighbours that are not yet dominated. */
  method CountUndominated(nbrs: set<Id>, dominated: set<Id>) returns (count: nat)
    ensures count == |nbrs - dominated|
  {
    count := 0;
    var rest := nbrs;
    while rest != {}
      invariant rest <= nbrs
      invariant count == |(nbrs - rest) - dominated|
      decreases |rest|
    {
      var nbr :| nbr in rest;
      ghost var seen := (nbrs - rest) - dominated;
      if nbr !in dominated {
        count := count + 1;
      }
      rest := rest - {nbr};
      assert (nbrs - rest) - dominated == seen + ({nbr} - dominated);
    }
  }

  /** The scan of lines 20-34: the first undominated node of highest score, if any. */
  method SelectBest(nodes: seq<Id>, adj: AdjacencyMap, dominated: set<Id>) returns (bestNode: Option<Id>)
    requires CoversNodes(nodes, adj)
    ensures bestNode == Choice(nodes, adj, dominated)
    ensures bestNode.None? <==> forall i :: 0 <= i < |nodes| ==> nodes[i] in dominated
    ensures bestNode.Some? ==> exists k :: IsBest(nodes, adj, dominated, |nodes|, k) && nodes[k] == bestNode.value
  {
    bestNode := None;
    var bestScore: int := -1;
    ghost var bestIndex := -1;
    for i := 0 to |nodes|
      invariant bestNode.None? <==> forall j :: 0 <= j < i ==> nodes[j] in dominated
      invariant bestNode.None? ==> bestScore == -1
      invariant bestNode.Some? ==>
        && IsBest(nodes, adj, dominated, i, bestIndex)
        && bestNode.value == nodes[bestIndex]
        && bestScore == Score(adj, dominated, nodes[bestIndex])
    {
      var id := nodes[i];
      if id in dominated {
        continue;
      }
      var score := if id in dominated then 0 else 1;
      var undominatedNeighbours := CountUndominated(adj[id], dominated);
      score := score + undominatedNeighbours;
      if score > bestScore {
        bestScore := score;
        bestNode := Some(id);
        bestIndex := i;
      }
    }
    if bestNode.Some? {
      ghost var c := Choice(nodes, adj, dominated);
      ghost var k :| IsBest(nodes, adj, dominated, |nodes|, k) && nodes[k] == c.value;
      BestUnique(nodes, adj, dominated, |nodes|, k, bestIndex);
    }
  }

  /** Unfolding one pass of the greedy loop that picks `b`. */
  lemma GreedyFromStep(nodes: seq<Id>, adj: AdjacencyMap, dominated: set<Id>, result: set<Id>, b: Id)
    requires CoversNodes(nodes, adj)
    requires |dominated| < |nodes| && Choice(nodes, adj, dominated) == Some(b) && b != ""
    ensures GreedyFrom(nodes, adj, dominated, result) == GreedyFrom(nodes, adj, dominated + {b} + adj[b], result + {b})
  {
  }

  /**
   The loop returns the result unchanged once the size test of line 19 fails or
   every listed node is dominated (the scan then finds nothing and line 35 breaks).
   */
  lemma GreedyFromStops(nodes: seq<Id>, adj: AdjacencyMap, dominated: set<Id>, result: set<Id>)
    requires CoversNodes(nodes, adj)
    requires |dominated| >= |nodes| || forall i :: 0 <= i < |nodes| ==> nodes[i] in dominated
    ensures GreedyFrom(nodes, adj, dominated, result) == result
  {
  }

  /**
   A graph is finished in one pass when the first node of highest score, together
   with its neighbours, either reaches the count of line 19 or covers every listed
   node (the scan of the next pass then finds nothing and line 35 breaks).
   */
  lemma GreedyOnePass(nodes: seq<Id>, adj: AdjacencyMap, k: int)
    requires CoversNodes(nodes, adj)
    requires IsBest(nodes, adj, {}, |nodes|, k) && nodes[k] != ""
    requires var marked := {nodes[k]} + adj[nodes[k]];
             |marked| >= |nodes| || forall i :: 0 <= i < |nodes| ==> nodes[i] in marked
    ensures GreedyFrom(nodes, adj, {}, {}) == {nodes[k]}
  {
    var b := nodes[k];
    ChoiceIs(nodes, adj, {}, k);
    GreedyFromStep(nodes, adj, {}, {}, b);
    assert {} + {b} + adj[b] == {b} + adj[b];
    GreedyFromStops(nodes, adj, {b} + adj[b], {b});
  }

  /**
   The greedy loop of lines 15-42, over an adjacency map that has an entry for every
   listed id. `passes` counts the passes that add a node: each adds a node that was
   not yet dominated, hence not yet chosen, so there are at most as many passes as
   distinct listed ids.
   */
  method GreedyLoop(nodes: seq<Id>, adj: AdjacencyMap) returns (dominatingSet: set<Id>, ghost passes: nat)
    requires CoversNodes(nodes, adj)
    ensures dominatingSet == GreedyFrom(nodes, adj, {}, {})
    ensures passes == |dominatingSet| <= |Listed(nodes)|
  {
    dominatingSet := {};
    passes := 0;
    var dominated: set<Id> := {};
    while |dominated| < |nodes|
      invariant GreedyFrom(nodes, adj, dominated, dominatingSet) == GreedyFrom(nodes, adj, {}, {})
      invariant dominatingSet <= dominated
      invariant dominatingSet <= Listed(nodes)
      invariant passes == |dominatingSet|
      decreases |Listed(nodes) - dominated|
    {
      var bestNode := SelectBest(nodes, adj, dominated);
      if bestNode.None? || bestNode.value == "" {
        break;
      }
      var best := bestNode.value;
      GreedyFromStep(nodes, adj, dominated, dominatingSet, best);
      MarkingShrinks(Listed(nodes), dominated, best, adj[best]);
      assert best !in dominatingSet;
      dominatingSet := dominatingSet + {best};
      dominated := dominated + {best};
      dominated := dominated + adj[best];
      passes := passes + 1;
    }
    SubsetCardinality(dominatingSet, Listed(nodes));
  }

  /** The solver: builds the adjacency map, then runs the greedy loop. */
  method ComputeDominatingSet(graph: Graph) returns (dominatingSet: set<Id>)
    ensures dominatingSet == Greedy(graph)
    ensures dominatingSet <= Listed(graph.nodes)
    ensures Independent(dominatingSet, AdjacencyOf(graph.nodes, graph.edges))
    ensures EdgesListed(graph) && "" !in graph.nodes ==>
              IsDominating(dominatingSet, graph.nodes, AdjacencyOf(graph.nodes, graph.edges))
  {
    var adj := BuildAdjacency(graph);
    ghost var passes;
    dominatingSet, passes := GreedyLoop(graph.nodes, adj);
    GreedyListed(graph);
    GreedyIndependent(graph);
    GreedyDominates(graph);
  }

  /** Choosing an undominated node and marking its neighbours keeps the independence invariant. */
  lemma IndependentStep(adj: AdjacencyMap, dominated: set<Id>, result: set<Id>, b: Id)
    requires Symmetric(adj) && b in adj && b !in dominated
    requires result <= dominated && result <= adj.Keys
    requires forall r :: r in result ==> adj[r] <= dominated
    requires Independent(result, adj)
    ensures result + {b} <= dominated + {b} + adj[b] && result + {b} <= adj.Keys
    ensures forall r :: r in result + {b} ==> adj[r] <= dominated + {b} + adj[b]
    ensures Independent(result + {b}, adj)
  {
    forall r | r in result ensures b !in adj[r] && r !in adj[b] {
      assert b !in dominated;
    }
  }

  /** Everything the greedy loop adds is a listed id that was not yet dominated. */
  lemma {:induction false} GreedyFromListed(nodes: seq<Id>, adj: AdjacencyMap, dominated: set<Id>, result: set<Id>)
    requires CoversNodes(nodes, adj)
    ensures GreedyFrom(nodes, adj, dominated, result) <= result + (Listed(nodes) - dominated)
    decreases |Listed(nodes) - dominated|
  {
    if |dominated| < |nodes| {
      match Choice(nodes, adj, dominated)
      case None =>
      case Some(b) =>
        if b != "" {
          var dominated', result' := dominated + {b} + adj[b], result + {b};
          MarkingShrinks(Listed(nodes), dominated, b, adj[b]);
          GreedyFromListed(nodes, adj, dominated', result');
          assert GreedyFrom(nodes, adj, dominated, result) == GreedyFrom(nodes, adj, dominated', result');
          assert result' + (Listed(nodes) - dominated') <= result + (Listed(nodes) - dominated);
        }
    }
  }

  /**
   Independence: a node is chosen only while undominated, and the neighbours of
   every chosen node are dominated, so no chosen node neighbours another.
   */
  lemma {:induction false} GreedyFromIndependent(nodes: seq<Id>, adj: AdjacencyMap, dominated: set<Id>, result: set<Id>)
    requires CoversNodes(nodes, adj) && Symmetric(adj)
    requires result <= dominated && result <= adj.Keys
    requires forall r :: r in result ==> adj[r] <= dominated
    requires Independent(result, adj)
    ensures Independent(GreedyFrom(nodes, adj, dominated, result), adj)
    decreases |Listed(nodes) - dominated|
  {
    if |dominated| < |nodes| {
      match Choice(nodes, adj, dominated)
      case None =>
      case Some(b) =>
        if b != "" {
          MarkingShrinks(Listed(nodes), dominated, b, adj[b]);
          IndependentStep(adj, dominated, result, b);
          GreedyFromIndependent(nodes, adj, dominated + {b} + adj[b], result + {b});
        }
    }
  }

  /** A node list never has more distinct ids than entries, and as many when no id repeats. */
  lemma {:induction false} ListedAtMostLength(nodes: seq<Id>)
    ensures |Listed(nodes)| <= |nodes|
    ensures DistinctIds(nodes) ==> |Listed(nodes)| == |nodes|
  {
    if nodes != [] {
      ListedAtMostLength(nodes[1..]);
      assert Listed(nodes) == Listed(nodes[1..]) + {nodes[0]};
      if DistinctIds(nodes) {
        assert DistinctIds(nodes[1..]);
        assert nodes[0] !in Listed(nodes[1..]) by {
          forall i | 0 <= i < |nodes[1..]| ensures nodes[1..][i] != nodes[0] {
            assert nodes[1..][i] == nodes[i + 1];
          }
        }
      }
    }
  }

  /**
   With distinct ids the scan always finds a node while the size test of line 19
   passes, so only a chosen id "" can reach the `break` of line 35.
   */
  lemma DistinctIdsScanFinds(nodes: seq<Id>, adj: AdjacencyMap, dominated: set<Id>)
    requires CoversNodes(nodes, adj) && DistinctIds(nodes)
    requires |dominated| < |nodes|
    ensures Choice(nodes, adj, dominated).Some?
  {
    if Choice(nodes, adj, dominated).None? {
      forall id | id in Listed(nodes) ensures id in dominated {
        var i :| 0 <= i < |nodes| && nodes[i] == id;
      }
      ListedAtMostLength(nodes);
      SubsetCardinality(Listed(nodes), dominated);
      assert false;
    }
  }

  /**
   Validity: when every neighbour is a listed id and no listed id is "", the loop
   only stops once every listed node is dominated by the result.
   */
  lemma {:induction false} GreedyFromDominates(nodes: seq<Id>, adj: AdjacencyMap, dominated: set<Id>, result: set<Id>)
    requires CoversNodes(nodes, adj) && "" !in nodes
    requires forall u :: u in adj ==> adj[u] <= Listed(nodes)
    requires dominated <= Listed(nodes)
    requires forall d :: d in dominated ==> d in result || exists r :: r in result && r in adj && d in adj[r]
    ensures IsDominating(GreedyFrom(nodes, adj, dominated, result), nodes, adj)
    decreases |Listed(nodes) - dominated|
  {
    var final := GreedyFrom(nodes, adj, dominated, result);
    if |dominated| >= |nodes| {
      ListedAtMostLength(nodes);
      SubsetCardinality(dominated, Listed(nodes));
      forall i | 0 <= i < |nodes| ensures nodes[i] in dominated {
        assert nodes[i] in Listed(nodes);
      }
    } else {
      match Choice(nodes, adj, dominated)
      case None =>
      case Some(b) =>
        assert b != "";
        MarkingShrinks(Listed(nodes), dominated, b, adj[b]);
        var dominated', result' := dominated + {b} + adj[b], result + {b};
        forall d | d in dominated'
          ensures d in result' || exists r :: r in result' && r in adj && d in adj[r]
        {
          if d in dominated && d !in result {
            var r :| r in result && r in adj && d in adj[r];
            assert r in result';
          } else if d in adj[b] {
            assert b in result' && b in adj;
          }
        }
        GreedyFromDominates(nodes, adj, dominated', result');
    }
  }

  /** Every returned id is a listed id; an id that occurs only in edges is never returned. */
  lemma GreedyListed(graph: Graph)
    ensures Greedy(graph) <= Listed(graph.nodes)
    ensures |Greedy(graph)| <= |Listed(graph.nodes)|
  {
    SubsetCardinality(Greedy(graph), Listed(graph.nodes));
  }

  /** The returned set is independent, for every graph. */
  lemma GreedyIndependent(graph: Graph)
    ensures Independent(Greedy(graph), AdjacencyOf(graph.nodes, graph.edges))
  {
    var adj := AdjacencyOf(graph.nodes, graph.edges);
    forall u, v | u in adj && v in adj ensures v in adj[u] <==> u in adj[v] {
      AdjacencySymmetric(graph.nodes, graph.edges, u, v);
    }
    GreedyFromIndependent(graph.nodes, adj, {}, {});
  }

  /** The returned set dominates the graph when every edge endpoint is listed and "" is not. */
  lemma GreedyDominates(graph: Graph)
    ensures EdgesListed(graph) && "" !in graph.nodes ==>
              IsDominating(Greedy(graph), graph.nodes, AdjacencyOf(graph.nodes, graph.edges))
  {
    var adj := AdjacencyOf(graph.nodes, graph.edges);
    if EdgesListed(graph) && "" !in graph.nodes {
      forall u | u in adj ensures adj[u] <= Listed(graph.nodes) {
        ListedEdgesGiveListedNeighbours(graph, u);
      }
      GreedyFromDominates(graph.nodes, adj, {}, {});
    }
  }
}

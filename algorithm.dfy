/**
 * `AlgorithmImplementation`: the path engine object. It copies the store's
 * edge list when it is made, and `execute(s)` fills its five collections in
 * place, one settled node per turn; the queries then read them.
 */
module Algorithm {
  import opened Wrappers
  import opened JavaInt
  import opened JavaString
  import opened Edges
  import opened Paths
  import opened Dijkstra

  class PathEngine {
    /** The private copy of the store's edge list; the engine never changes it. */
    const edges: seq<Edge>
    var settledNodes: set<string>
    var unSettledNodes: set<string>
    var predecessors: map<string, string>
    var distance: map<string, Int32>
    var distanceCloserThan: map<string, Int32>

    /**
     * The node of the last `execute`, the nodes it settled in order, and the
     * tables its loop passed through.
     */
    ghost var source: string
    ghost var picks: seq<string>
    ghost var states: seq<Tables>

    /** The five collections as one value. */
    function State(): Tables
      reads this
    {
      Tables(settledNodes, unSettledNodes, predecessors, distance, distanceCloserThan)
    }

    /**
     * `execute(source)` has run to the end: states is the history of a run
     * that picked the nodes of picks, each a minimum when it was picked, the
     * collections are its last tables, and nothing is left unsettled.
     */
    ghost predicate Done()
      reads this
    {
      History(edges, source, picks, states) && State() == states[|picks|] && unSettledNodes == {}
    }

    /** After `execute`, the collections are those of a complete run replayed from its picks. */
    lemma DoneIsCompleteRun()
      requires Done()
      ensures CompleteRun(edges, source, picks) && State() == Replay(edges, source, picks)
    {
      HistoryReplay(edges, source, picks, states);
    }

    /** The collections start empty (the source leaves them null until `execute`). */
    constructor(graphEdges: seq<Edge>)
      ensures edges == graphEdges
      ensures State() == Tables({}, {}, map[], map[], map[])
    {
      edges := graphEdges;
      settledNodes := {};
      unSettledNodes := {};
      predecessors := map[];
      distance := map[];
      distanceCloserThan := map[];
    }

    /**
     * Dijkstra's loop from sourceNode: until no node is unsettled, settle a
     * node of least distance and relax the edges out of it.
     */
    method Execute(sourceNode: string)
      modifies this
      ensures source == sourceNode && Done()
    {
      settledNodes, unSettledNodes, predecessors := {}, {sourceNode}, map[];
      distance, distanceCloserThan := map[sourceNode := 0], map[sourceNode := 0];
      ghost var ps: seq<string> := [];
      ghost var hs: seq<Tables> := [State()];
      while |unSettledNodes| > 0
        invariant History(edges, sourceNode, ps, hs) && State() == hs[|ps|]
        decreases |edges| + 1 - |settledNodes|
      {
        var minimum := GetMinimum(unSettledNodes);
        var node := minimum.value;
        ghost var t := hs[|ps|];
        HistoryTurn(edges, sourceNode, ps, hs, node);
        settledNodes := settledNodes + {node};
        unSettledNodes := unSettledNodes - {node};
        FindMinimalDistances(node);
        assert State() == Step(edges, t, node);
        hs := hs + [Step(edges, t, node)];
        ps := ps + [node];
      }
      source, picks, states := sourceNode, ps, hs;
    }

    /**
     * Relaxes the edges out of sourceNode, neighbour by neighbour in list
     * order: the collections become those of RelaxAll over the neighbour list.
     */
    method FindMinimalDistances(sourceNode: string)
      modifies this`unSettledNodes, this`predecessors, this`distance, this`distanceCloserThan
      ensures State() == RelaxFrom(edges, old(State()), sourceNode)
    {
      var adjacentNodes := GetNeighbors(sourceNode);
      ghost var t0 := State();
      for i := 0 to |adjacentNodes|
        invariant settledNodes == t0.settled
        invariant State() == RelaxAll(edges, t0, sourceNode, adjacentNodes[..i])
      {
        var destinationNode := adjacentNodes[i];
        var toDestination := GetShortestDistance(destinationNode);
        var toSource: int := GetShortestDistance(sourceNode);
        var hop := GetDistance(sourceNode, destinationNode);
        ghost var before := State();
        RelaxTest(edges, before, sourceNode, destinationNode, toDestination, toSource, hop);
        if toDestination > Wrap(toSource + hop) {
          distance := distance[destinationNode := Wrap(toSource + hop)];
          distanceCloserThan := distanceCloserThan[destinationNode := hop];
          predecessors := predecessors[sourceNode := destinationNode];
          unSettledNodes := unSettledNodes + {destinationNode};
        }
        assert adjacentNodes[..i + 1][..i] == adjacentNodes[..i];
      }
      assert adjacentNodes[..|adjacentNodes|] == adjacentNodes;
    }

    /** The weight of the first edge from sourceNode to destinationNode, MAX_INT when there is none. */
    method GetDistance(sourceNode: string, destinationNode: string) returns (weight: Int32)
      ensures weight == FirstWeight(edges, sourceNode, destinationNode)
    {
      var i := 0;
      while i < |edges|
        invariant 0 <= i <= |edges|
        invariant FirstWeight(edges[i..], sourceNode, destinationNode) == FirstWeight(edges, sourceNode, destinationNode)
      {
        var edge := edges[i];
        if edge.sourceNode == sourceNode && edge.destinationNode == destinationNode {
          return edge.weight;
        }
        assert edges[i..][1..] == edges[i + 1..];
        i := i + 1;
      }
      return MAX_INT;
    }

    predicate IsSettled(nodeName: string)
      reads this
    {
      nodeName in settledNodes
    }

    /** The destinations of the edges out of sourceNode that are not settled, in list order. */
    method GetNeighbors(sourceNode: string) returns (neighbors: seq<string>)
      ensures neighbors == NeighborList(edges, sourceNode, settledNodes)
    {
      neighbors := [];
      for i := 0 to |edges|
        invariant neighbors == NeighborList(edges[..i], sourceNode, settledNodes)
      {
        var edge := edges[i];
        if edge.sourceNode == sourceNode && !IsSettled(edge.destinationNode) {
          neighbors := neighbors + [edge.destinationNode];
        }
        assert edges[..i + 1][..i] == edges[..i];
      }
      assert edges[..|edges|] == edges;
    }

    /**
     * A node of least distance among nodes, None (Java's null) for an empty
     * set. The set is visited in an unspecified order, as a HashSet is, and a
     * later node replaces the current minimum only when strictly nearer.
     */
    method GetMinimum(nodes: set<string>) returns (minimum: Option<string>)
      ensures minimum.None? <==> nodes == {}
      ensures minimum.Some? ==>
        minimum.value in nodes && forall y :: y in nodes ==> Dist(distance, minimum.value) <= Dist(distance, y)
    {
      minimum := None;
      var rest := nodes;
      while rest != {}
        invariant rest <= nodes
        invariant minimum.None? <==> rest == nodes
        invariant minimum.Some? ==>
          minimum.value in nodes && forall y :: y in nodes - rest ==> Dist(distance, minimum.value) <= Dist(distance, y)
        decreases |rest|
      {
        var node :| node in rest;
        if minimum.None? {
          minimum := Some(node);
        } else {
          var toNode := GetShortestDistance(node);
          var toMinimum := GetShortestDistance(minimum.value);
          if toNode < toMinimum {
            minimum := Some(node);
          }
        }
        rest := rest - {node};
      }
    }

    /**
     * The current distance of destinationNode, MAX_INT without an entry
     * (what a complete run means by it is CompleteRunFacts).
     */
    method GetShortestDistance(destinationNode: string) returns (d: Int32)
      ensures d == Dist(distance, destinationNode)
    {
      if destinationNode !in distance {
        return MAX_INT;
      } else {
        return distance[destinationNode];
      }
    }

    /**
     * Follows the predecessor entries from sourceNode, adding the closer
     * entry of each node met to a running int sum; stops before the first
     * node that takes the sum past weight. The collected nodes come back in
     * ascending order, as a TreeSet iterates.
     */
    method GetCloserThan(weight: Int32, sourceNode: string) returns (path: seq<string>)
      requires Done()
      ensures StrictlySorted(path)
      ensures ClosedChain(State()) && forall y :: y in path <==> y in CloserThan(State(), weight, sourceNode)
    {
      ghost var rank := HistoryComplete(edges, source, picks, states);
      if sourceNode !in predecessors {
        CloserEnd(distanceCloserThan, predecessors, weight, sourceNode, |settledNodes|, 0, [], CloserThan(State(), weight, sourceNode));
        return [];
      }
      path := FollowCloser(predecessors, distanceCloserThan, weight, sourceNode, edges, State(), rank);
    }
  }

  /**
   * The loop of `getCloserThan` on the engine's two tables after a complete
   * run (t): it walks the predecessor chain from sourceNode and collects the
   * nodes whose running closer sum stays within weight.
   */
  method FollowCloser(predecessors: map<string, string>, distanceCloserThan: map<string, Int32>, weight: Int32,
                      sourceNode: string, ghost edges: seq<Edge>, ghost t: Tables, ghost rank: map<string, nat>)
    returns (path: seq<string>)
    requires Ranked(edges, t, rank) && t.distance.Keys == t.settled && ClosedChain(t)
    requires predecessors == t.predecessors && distanceCloserThan == t.closer && sourceNode in predecessors
    ensures StrictlySorted(path)
    ensures forall y :: y in path <==> y in CloserThan(t, weight, sourceNode)
  {
    ghost var whole := CloserThan(t, weight, sourceNode);
    ghost var settledNodes := t.settled;
    path := [];
    var temp := sourceNode;
    var tempWeight: Int32 := 0;
    ghost var fuel: nat := |settledNodes|;
    ghost var collected: seq<string> := [];
    while temp in predecessors
      invariant fuel <= |settledNodes|
      invariant temp in settledNodes ==> rank[temp] + fuel >= |settledNodes|
      invariant fuel < |settledNodes| ==> temp in settledNodes
      invariant CloserRest(distanceCloserThan, predecessors, weight, temp, fuel, tempWeight, collected, whole)
      invariant StrictlySorted(path) && forall y :: y in path <==> y in collected
      decreases fuel
    {
      ChainTurn(edges, t, rank, temp, fuel);
      ghost var last, lastWeight, lastFuel := temp, tempWeight, fuel;
      temp := predecessors[temp];
      tempWeight := Wrap(tempWeight + distanceCloserThan[temp]);
      fuel := fuel - 1;
      CloserTurn(distanceCloserThan, predecessors, weight, last, lastFuel, lastWeight, collected, whole, temp, fuel, tempWeight);
      if tempWeight > weight {
        break;
      }
      path := Insert(path, temp);
      collected := collected + [temp];
    }
    if temp !in predecessors {
      CloserEnd(distanceCloserThan, predecessors, weight, temp, fuel, tempWeight, collected, whole);
    }
  }
}

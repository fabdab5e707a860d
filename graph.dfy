/**
 * `DirectedGraph`: the store the sessions share. It holds a set of node
 * names and an ordered list of edges, both changed in place, and answers the
 * two path queries by running a fresh path engine over a copy of the list.
 */
module Graph {
  import opened Wrappers
  import opened JavaInt
  import opened JavaString
  import opened Edges
  import opened Paths
  import opened Dijkstra
  import opened Algorithm

  // ---------------------------------------------------------------------------
  // Removing edges by substring match

  /** The removal test of `removeNode` and `removeEdge`: the source contains src and the destination contains dst. */
  predicate Matches(e: Edge, src: string, dst: string) {
    Contains(e.sourceNode, src) && Contains(e.destinationNode, dst)
  }

  /** The edges of es that do not match (src, dst), in their order in es. */
  function Unmatched(es: seq<Edge>, src: string, dst: string): seq<Edge>
    decreases |es|
  {
    if |es| == 0 then []
    else
      var last := es[|es| - 1];
      Unmatched(es[..|es| - 1], src, dst) + (if Matches(last, src, dst) then [] else [last])
  }

  /** Exactly the edges that do not match survive. */
  lemma {:induction false} UnmatchedMembers(es: seq<Edge>, src: string, dst: string)
    ensures forall e :: e in Unmatched(es, src, dst) <==> e in es && !Matches(e, src, dst)
    decreases |es|
  {
    if |es| > 0 {
      var init, last := es[..|es| - 1], es[|es| - 1];
      UnmatchedMembers(init, src, dst);
      assert es == init + [last];
    }
  }

  /** Removal works piece by piece: the survivors of a + b are those of a followed by those of b. */
  lemma {:induction false} UnmatchedConcat(a: seq<Edge>, b: seq<Edge>, src: string, dst: string)
    ensures Unmatched(a + b, src, dst) == Unmatched(a, src, dst) + Unmatched(b, src, dst)
    decreases |b|
  {
    if |b| == 0 {
      assert a + b == a;
    } else {
      var b', last := b[..|b| - 1], b[|b| - 1];
      assert (a + b)[..|a + b| - 1] == a + b';
      assert (a + b)[|a + b| - 1] == last;
      UnmatchedConcat(a, b', src, dst);
      var tail := if Matches(last, src, dst) then [] else [last];
      assert Unmatched(a + b, src, dst) == Unmatched(a + b', src, dst) + tail;
      assert Unmatched(b, src, dst) == Unmatched(b', src, dst) + tail;
    }
  }

  /** A list without a matching edge is left as it is. */
  lemma {:induction false} UnmatchedNone(es: seq<Edge>, src: string, dst: string)
    requires forall i :: 0 <= i < |es| ==> !Matches(es[i], src, dst)
    ensures Unmatched(es, src, dst) == es
    decreases |es|
  {
    if |es| > 0 {
      var init := es[..|es| - 1];
      assert forall i :: 0 <= i < |init| ==> init[i] == es[i];
      UnmatchedNone(init, src, dst);
      assert es == init + [es[|es| - 1]];
    }
  }

  /** Removing the same matches a second time changes nothing. */
  lemma UnmatchedTwice(es: seq<Edge>, src: string, dst: string)
    ensures Unmatched(Unmatched(es, src, dst), src, dst) == Unmatched(es, src, dst)
  {
    var r := Unmatched(es, src, dst);
    UnmatchedMembers(es, src, dst);
    assert forall i :: 0 <= i < |r| ==> r[i] in r;
    UnmatchedNone(r, src, dst);
  }

  /** `List.remove(Object)`: the first element equal to e is taken out; a list without e is unchanged. */
  function RemoveFirst(es: seq<Edge>, e: Edge): seq<Edge>
    decreases |es|
  {
    if |es| == 0 then []
    else if es[0] == e then es[1..]
    else [es[0]] + RemoveFirst(es[1..], e)
  }

  /** When e does not occur before the given position, removing e removes exactly that occurrence. */
  lemma {:induction false} RemoveFirstAt(front: seq<Edge>, e: Edge, back: seq<Edge>)
    requires e !in front
    ensures RemoveFirst(front + [e] + back, e) == front + back
    decreases |front|
  {
    if |front| == 0 {
      assert front + [e] + back == [e] + back;
    } else {
      assert (front + [e] + back)[1..] == front[1..] + [e] + back;
      RemoveFirstAt(front[1..], e, back);
      assert front + back == [front[0]] + (front[1..] + back);
    }
  }

  /**
   * One turn of the removal loop: the edge at i is the first of the
   * unvisited part, and it joins the survivors unless it matches.
   */
  lemma RemovalTurn(snapshot: seq<Edge>, i: nat, src: string, dst: string)
    requires i < |snapshot|
    ensures var front := Unmatched(snapshot[..i], src, dst);
      && snapshot[i..] == [snapshot[i]] + snapshot[i + 1..]
      && front + snapshot[i..] == front + [snapshot[i]] + snapshot[i + 1..]
      && (Matches(snapshot[i], src, dst) ==> snapshot[i] !in front && Unmatched(snapshot[..i + 1], src, dst) == front)
      && (!Matches(snapshot[i], src, dst) ==> Unmatched(snapshot[..i + 1], src, dst) == front + [snapshot[i]])
  {
    assert snapshot[..i + 1][..i] == snapshot[..i];
    UnmatchedMembers(snapshot[..i], src, dst);
  }

  // ---------------------------------------------------------------------------
  // What the two queries answer

  /**
   * d is what `getShortestPath(s, v)` answers when both are nodes: v's entry
   * in the distance table of some complete run of `execute(s)` over edges,
   * MAX_INT when v has none.
   */
  ghost predicate ShortestAnswer(edges: seq<Edge>, s: string, v: string, d: Int32) {
    exists picks :: CompleteRun(edges, s, picks) && d == Dist(Replay(edges, s, picks).distance, v)
  }

  /**
   * What such an answer means: s is at distance 0 from itself; any other
   * answer below MAX_INT is the int-summed price of a walk from s to v; and on
   * a graph with non-negative weights too small to wrap, MAX_INT means no walk
   * reaches v, while any other answer is the least price of a walk from s to v.
   */
  lemma ShortestAnswerMeaning(edges: seq<Edge>, s: string, v: string, d: Int32)
    requires ShortestAnswer(edges, s, v, d)
    ensures v == s ==> d == 0
    ensures d != MAX_INT ==> PricedWalk(edges, s, v, d)
    ensures Good(edges, s) ==> (d == MAX_INT <==> !Reachable(edges, s, v))
    ensures Good(edges, s) && d != MAX_INT ==> IsShortest(edges, s, v, d)
  {
    var picks :| CompleteRun(edges, s, picks) && d == Dist(Replay(edges, s, picks).distance, v);
    CompleteRunFacts(edges, s, picks);
  }

  /**
   * r is what `getCloserThan(w, s)` answers when s is a node: the members of
   * the chain prefix of some complete run of `execute(s)` over edges.
   */
  ghost predicate CloserAnswer(edges: seq<Edge>, s: string, w: Int32, r: seq<string>) {
    exists picks ::
      && CompleteRun(edges, s, picks)
      && ClosedChain(Replay(edges, s, picks))
      && forall y :: y in r <==> y in CloserThan(Replay(edges, s, picks), w, s)
  }

  /** Every name such an answer lists is reachable from s and is not s itself. */
  lemma CloserAnswerMeaning(edges: seq<Edge>, s: string, w: Int32, r: seq<string>)
    requires CloserAnswer(edges, s, w, r)
    ensures forall y :: y in r ==> y != s && Reachable(edges, s, y)
  {
    var picks :| && CompleteRun(edges, s, picks)
                 && ClosedChain(Replay(edges, s, picks))
                 && forall y :: y in r <==> y in CloserThan(Replay(edges, s, picks), w, s);
    CloserThanReachable(edges, s, picks, w);
    var c := CloserThan(Replay(edges, s, picks), w, s);
    forall y | y in r ensures y != s && Reachable(edges, s, y) {
      var i :| 0 <= i < |c| && c[i] == y;
    }
  }

  // ---------------------------------------------------------------------------
  // The store

  class DirectedGraph {
    /** The keys of the node map (each key is mapped to itself, so the map is a set). */
    var nodes: set<string>
    var edges: seq<Edge>

    constructor()
      ensures nodes == {} && edges == []
    {
      nodes := {};
      edges := [];
    }

    /** Adds nodeName unless it is already a node; true when it was added. */
    method AddNode(nodeName: string) returns (added: bool)
      modifies this`nodes
      ensures added <==> nodeName !in old(nodes)
      ensures nodes == old(nodes) + {nodeName}
    {
      if nodeName !in nodes {
        nodes := nodes + {nodeName};
        return true;
      }
      return false;
    }

    /** Appends the edge when both endpoints are nodes, even when an equal edge is already listed. */
    method AddEdge(sourceNode: string, destinationNode: string, weight: Int32) returns (added: bool)
      modifies this`edges
      ensures added <==> sourceNode in nodes && destinationNode in nodes
      ensures edges == if added then old(edges) + [Edge(sourceNode, destinationNode, weight)] else old(edges)
    {
      if sourceNode !in nodes || destinationNode !in nodes {
        return false;
      }
      edges := edges + [Edge(sourceNode, destinationNode, weight)];
      return true;
    }

    /**
     * Removes a node, then the edges whose source and destination both
     * contain its name; edges that touch the node at one end only stay.
     */
    method RemoveNode(nodeName: string) returns (removed: bool)
      modifies this`nodes, this`edges
      ensures removed <==> nodeName in old(nodes)
      ensures nodes == old(nodes) - {nodeName}
      ensures edges == if removed then Unmatched(old(edges), nodeName, nodeName) else old(edges)
    {
      if nodeName !in nodes {
        return false;
      }
      nodes := nodes - {nodeName};
      RemoveMatching(nodeName, nodeName);
      return true;
    }

    /**
     * When both names are nodes, removes every edge whose source contains
     * sourceNode and whose destination contains destinationNode; true even
     * when no edge matched.
     */
    method RemoveEdge(sourceNode: string, destinationNode: string) returns (removed: bool)
      modifies this`edges
      ensures removed <==> sourceNode in nodes && destinationNode in nodes
      ensures edges == if removed then Unmatched(old(edges), sourceNode, destinationNode) else old(edges)
    {
      if sourceNode !in nodes || destinationNode !in nodes {
        return false;
      }
      RemoveMatching(sourceNode, destinationNode);
      return true;
    }

    /**
     * The `forEach` of both removals: it visits a snapshot of the list and
     * takes each matching edge out of the live list with `remove`.
     */
    method RemoveMatching(src: string, dst: string)
      modifies this`edges
      ensures edges == Unmatched(old(edges), src, dst)
    {
      var snapshot := edges;
      for i := 0 to |snapshot|
        invariant edges == Unmatched(snapshot[..i], src, dst) + snapshot[i..]
      {
        var edge := snapshot[i];
        ghost var front, back := Unmatched(snapshot[..i], src, dst), snapshot[i + 1..];
        RemovalTurn(snapshot, i, src, dst);
        if Matches(edge, src, dst) {
          RemoveFirstAt(front, edge, back);
          edges := RemoveFirst(edges, edge);
        }
      }
      assert snapshot[..|snapshot|] == snapshot;
    }

    /**
     * The least distance from sourceNode to destinationNode, or 0 when
     * either is not a node.
     */
    method GetShortestPath(sourceNode: string, destinationNode: string) returns (d: Int32)
      ensures sourceNode !in nodes || destinationNode !in nodes ==> d == 0
      ensures sourceNode in nodes && destinationNode in nodes ==> ShortestAnswer(edges, sourceNode, destinationNode, d)
    {
      var dijkstra := new PathEngine(edges);
      if sourceNode !in nodes || destinationNode !in nodes {
        return 0;
      }
      dijkstra.Execute(sourceNode);
      d := dijkstra.GetShortestDistance(destinationNode);
      dijkstra.DoneIsCompleteRun();
    }

    /**
     * The names the engine's closer-than walk collects from sourceNode, in
     * ascending order, or None (Java's null) when sourceNode is not a node.
     */
    method GetCloserThan(weight: Int32, sourceNode: string) returns (r: Option<seq<string>>)
      ensures r.None? <==> sourceNode !in nodes
      ensures r.Some? ==> StrictlySorted(r.value) && CloserAnswer(edges, sourceNode, weight, r.value)
    {
      if sourceNode !in nodes {
        return None;
      }
      var dijkstra := new PathEngine(edges);
      dijkstra.Execute(sourceNode);
      var path := dijkstra.GetCloserThan(weight, sourceNode);
      dijkstra.DoneIsCompleteRun();
      return Some(path);
    }
  }
}

/**
 * Paths through an edge list as the path engine prices them: a hop u -> v
 * costs the weight of the FIRST listed u -> v edge (`getDistance`), so later
 * parallel edges never count.
 */
module Paths {
  import opened JavaInt
  import opened Edges

  predicate Connects(e: Edge, u: string, v: string) {
    e.sourceNode == u && e.destinationNode == v
  }

  /** Some edge of the list leads from u to v. */
  predicate HasEdge(edges: seq<Edge>, u: string, v: string) {
    exists i :: 0 <= i < |edges| && Connects(edges[i], u, v)
  }

  /** `getDistance(u, v)`: the weight of the first u -> v edge, MAX_INT when there is none. */
  function FirstWeight(edges: seq<Edge>, u: string, v: string): Int32
  {
    if |edges| == 0 then MAX_INT
    else if Connects(edges[0], u, v) then edges[0].weight
    else FirstWeight(edges[1..], u, v)
  }

  /** FirstWeight is the weight of the earliest matching edge, and MAX_INT exactly when none matches. */
  lemma {:induction false} FirstWeightFirstMatch(edges: seq<Edge>, u: string, v: string)
    ensures HasEdge(edges, u, v) ==>
      exists i :: 0 <= i < |edges| && Connects(edges[i], u, v) && FirstWeight(edges, u, v) == edges[i].weight
        && forall j :: 0 <= j < i ==> !Connects(edges[j], u, v)
    ensures !HasEdge(edges, u, v) ==> FirstWeight(edges, u, v) == MAX_INT
  {
    if |edges| > 0 && !Connects(edges[0], u, v) {
      var rest := edges[1..];
      FirstWeightFirstMatch(rest, u, v);
      if HasEdge(edges, u, v) {
        var k :| 0 <= k < |edges| && Connects(edges[k], u, v);
        assert rest[k - 1] == edges[k];
        var i :| 0 <= i < |rest| && Connects(rest[i], u, v) && FirstWeight(rest, u, v) == rest[i].weight
          && forall j :: 0 <= j < i ==> !Connects(rest[j], u, v);
        assert edges[i + 1] == rest[i];
        assert forall j :: 0 <= j < i + 1 ==> !Connects(edges[j], u, v) by {
          forall j | 0 <= j < i + 1 ensures !Connects(edges[j], u, v) {
            if j > 0 {
              assert edges[j] == rest[j - 1];
            }
          }
        }
      }
    } else if |edges| > 0 {
      assert Connects(edges[0], u, v);
    }
  }

  /** With non-negative weights no hop is priced below zero. */
  lemma {:induction false} FirstWeightNonNegative(edges: seq<Edge>, u: string, v: string)
    requires NonNegative(edges)
    ensures FirstWeight(edges, u, v) >= 0
  {
    if |edges| > 0 {
      FirstWeightNonNegative(edges[1..], u, v);
    }
  }

  /** A hop along an existing edge is priced at most the largest weight. */
  lemma FirstWeightAtMost(edges: seq<Edge>, u: string, v: string)
    requires HasEdge(edges, u, v)
    ensures FirstWeight(edges, u, v) <= MaxWeight(edges)
  {
    FirstWeightFirstMatch(edges, u, v);
  }

  /**
   * `getNeighbors(x)`: the destinations of the edges leaving x whose
   * destination is not settled, in list order, repeated for parallel edges.
   */
  function NeighborList(edges: seq<Edge>, x: string, settled: set<string>): seq<string>
  {
    if |edges| == 0 then []
    else
      var e := edges[|edges| - 1];
      NeighborList(edges[..|edges| - 1], x, settled)
        + (if e.sourceNode == x && e.destinationNode !in settled then [e.destinationNode] else [])
  }

  /** v is listed as a neighbour of x exactly when an edge x -> v exists and v is not settled. */
  lemma {:induction false} NeighborListMembers(edges: seq<Edge>, x: string, settled: set<string>)
    ensures forall v :: v in NeighborList(edges, x, settled) <==> HasEdge(edges, x, v) && v !in settled
  {
    if |edges| > 0 {
      var init := edges[..|edges| - 1];
      NeighborListMembers(init, x, settled);
      forall v ensures v in NeighborList(edges, x, settled) <==> HasEdge(edges, x, v) && v !in settled {
        if HasEdge(edges, x, v) {
          var k :| 0 <= k < |edges| && Connects(edges[k], x, v);
          if k < |edges| - 1 {
            assert init[k] == edges[k];
          }
        }
        if HasEdge(init, x, v) {
          var k :| 0 <= k < |init| && Connects(init[k], x, v);
          assert edges[k] == init[k];
        }
      }
    }
  }

  // ---------------------------------------------------------------------------
  // Paths and their cost

  /** p is a walk from s to t along listed edges (a single node is the empty walk). */
  predicate IsPath(edges: seq<Edge>, p: seq<string>, s: string, t: string)
    decreases |p|
  {
    |p| > 0 && p[|p| - 1] == t
    && if |p| == 1 then t == s
       else HasEdge(edges, p[|p| - 2], t) && IsPath(edges, p[..|p| - 1], s, p[|p| - 2])
  }

  /** The mathematical (unwrapped) total of the hop prices along p. */
  function Cost(edges: seq<Edge>, p: seq<string>): int
  {
    if |p| <= 1 then 0 else Cost(edges, p[..|p| - 1]) + FirstWeight(edges, p[|p| - 2], p[|p| - 1])
  }

  ghost predicate Reachable(edges: seq<Edge>, s: string, t: string) {
    exists p :: IsPath(edges, p, s, t)
  }

  /** Some walk from s to t has an int-summed price of d. */
  ghost predicate PricedWalk(edges: seq<Edge>, s: string, t: string, d: int) {
    exists p :: IsPath(edges, p, s, t) && Wrap(Cost(edges, p)) == d
  }

  /** d is the least cost of a walk from s to t, and some walk attains it. */
  ghost predicate IsShortest(edges: seq<Edge>, s: string, t: string, d: int) {
    (exists p :: IsPath(edges, p, s, t) && Cost(edges, p) == d)
    && forall p :: IsPath(edges, p, s, t) ==> d <= Cost(edges, p)
  }

  predicate NonNegative(edges: seq<Edge>) {
    forall i :: 0 <= i < |edges| ==> edges[i].weight >= 0
  }

  /** The largest weight of the list, and 0 for a list without positive weights. */
  function MaxWeight(edges: seq<Edge>): (m: nat)
    ensures forall i :: 0 <= i < |edges| ==> edges[i].weight <= m
    ensures m == 0 || exists i :: 0 <= i < |edges| && edges[i].weight == m
  {
    if |edges| == 0 then 0
    else
      var m := MaxWeight(edges[..|edges| - 1]);
      var w := edges[|edges| - 1].weight;
      if w > m then w else m
  }

  /** Every node the engine can ever meet when started at s: s and the edge destinations. */
  function Universe(edges: seq<Edge>, s: string): set<string>
  {
    if |edges| == 0 then {s} else Universe(edges[..|edges| - 1], s) + {edges[|edges| - 1].destinationNode}
  }

  /**
   * The graphs on which Dijkstra's argument applies to Java's int arithmetic:
   * no negative weight, and no sum of one maximal hop per node of the
   * universe (which has at most one node more than the list has edges) can
   * reach MAX_INT. The bound is sufficient for no wrap-around, not necessary.
   */
  predicate Good(edges: seq<Edge>, s: string) {
    NonNegative(edges) && Times(|edges| + 1, MaxWeight(edges)) < MAX_INT
  }

  /** k * m, as k hops of at most m each; spelled out so that bounds need no reasoning about products. */
  function Times(k: nat, m: nat): nat {
    if k == 0 then 0 else Times(k - 1, m) + m
  }

  lemma {:induction false} TimesMono(a: nat, b: nat, m: nat)
    requires a <= b
    ensures Times(a, m) <= Times(b, m)
    decreases b
  {
    if a < b {
      TimesMono(a, b - 1, m);
    }
  }

  lemma {:induction false} DestinationInUniverse(edges: seq<Edge>, s: string, u: string, v: string)
    requires HasEdge(edges, u, v)
    ensures v in Universe(edges, s)
  {
    var init := edges[..|edges| - 1];
    if !Connects(edges[|edges| - 1], u, v) {
      var k :| 0 <= k < |edges| && Connects(edges[k], u, v);
      assert init[k] == edges[k];
      DestinationInUniverse(init, s, u, v);
    }
  }

  lemma {:induction false} UniverseSize(edges: seq<Edge>, s: string)
    ensures |Universe(edges, s)| <= |edges| + 1
  {
    if |edges| > 0 {
      UniverseSize(edges[..|edges| - 1], s);
    }
  }

  lemma {:induction false} SourceInUniverse(edges: seq<Edge>, s: string)
    ensures s in Universe(edges, s)
  {
    if |edges| > 0 {
      SourceInUniverse(edges[..|edges| - 1], s);
    }
  }

  /** Extending a walk by one edge adds that hop's price. */
  lemma PathExtend(edges: seq<Edge>, p: seq<string>, s: string, u: string, v: string)
    requires IsPath(edges, p, s, u) && HasEdge(edges, u, v)
    ensures IsPath(edges, p + [v], s, v)
    ensures Cost(edges, p + [v]) == Cost(edges, p) + FirstWeight(edges, u, v)
  {
    var q := p + [v];
    assert q[..|q| - 1] == p;
  }

  /** Dropping the last node of a walk gives a walk to the node before it. */
  lemma PathShorten(edges: seq<Edge>, p: seq<string>, s: string, t: string)
    requires IsPath(edges, p, s, t) && |p| >= 2
    ensures IsPath(edges, p[..|p| - 1], s, p[|p| - 2])
    ensures HasEdge(edges, p[|p| - 2], t)
    ensures Cost(edges, p) == Cost(edges, p[..|p| - 1]) + FirstWeight(edges, p[|p| - 2], t)
  {
  }

  /** A walk starts at its source and every hop follows a listed edge. */
  lemma {:induction false} PathHops(edges: seq<Edge>, p: seq<string>, s: string, t: string)
    requires IsPath(edges, p, s, t)
    ensures p[0] == s
    ensures forall i :: 0 <= i < |p| - 1 ==> HasEdge(edges, p[i], p[i + 1])
    decreases |p|
  {
    if |p| > 1 {
      var q := p[..|p| - 1];
      PathHops(edges, q, s, p[|p| - 2]);
      forall i | 0 <= i < |p| - 1 ensures HasEdge(edges, p[i], p[i + 1]) {
        if i < |p| - 2 {
          assert p[i] == q[i] && p[i + 1] == q[i + 1];
        }
      }
    }
  }

  /** With non-negative weights every walk costs at least zero. */
  lemma {:induction false} CostNonNegative(edges: seq<Edge>, p: seq<string>)
    requires NonNegative(edges)
    ensures Cost(edges, p) >= 0
  {
    if |p| > 1 {
      CostNonNegative(edges, p[..|p| - 1]);
      FirstWeightNonNegative(edges, p[|p| - 2], p[|p| - 1]);
    }
  }
}

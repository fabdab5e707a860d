/**
 * The path engine's tables and the value-level meaning of one run of
 * `execute`: which states the loop passes through, and the invariant that
 * makes its distances shortest on `Good` graphs, where a bound on the weights
 * keeps every int sum the loop forms from wrapping.
 */
module Dijkstra {
  import opened JavaInt
  import opened Edges
  import opened Paths

  /** The five collections the engine fills in: settledNodes, unSettledNodes, predecessors, distance, distanceCloserThan. */
  datatype Tables = Tables(
    settled: set<string>,
    unsettled: set<string>,
    predecessors: map<string, string>,
    distance: map<string, Int32>,
    closer: map<string, Int32>)

  /** `getShortestDistance`: a node without an entry is at MAX_INT. */
  function Dist(distance: map<string, Int32>, v: string): Int32 {
    if v in distance then distance[v] else MAX_INT
  }

  /** The tables right before `execute`'s loop: s at distance 0, unsettled. */
  function Start(s: string): Tables {
    Tables({}, {s}, map[], map[s := 0], map[s := 0])
  }

  function Settle(t: Tables, x: string): Tables {
    t.(settled := t.settled + {x}, unsettled := t.unsettled - {x})
  }

  /**
   * One turn of `findMinimalDistances`' loop for neighbour v of x: when the
   * int sum of x's distance and the hop's price beats v's distance, v takes
   * that distance, records the hop's price, becomes x's predecessor entry and
   * is unsettled.
   */
  function Relax(edges: seq<Edge>, t: Tables, x: string, v: string): Tables {
    var w := FirstWeight(edges, x, v);
    if Shortens(edges, t, x, v) then
      t.(distance := t.distance[v := Wrap(Dist(t.distance, x) + w)], closer := t.closer[v := w],
         predecessors := t.predecessors[x := v], unsettled := t.unsettled + {v})
    else t
  }

  /** The test of `findMinimalDistances`: going through x beats v's distance, in int arithmetic. */
  predicate Shortens(edges: seq<Edge>, t: Tables, x: string, v: string) {
    Dist(t.distance, v) > Wrap(Dist(t.distance, x) + FirstWeight(edges, x, v))
  }

  /** `findMinimalDistances(x)` over the neighbour list vs, in order. */
  function RelaxAll(edges: seq<Edge>, t: Tables, x: string, vs: seq<string>): Tables
    decreases |vs|
  {
    if |vs| == 0 then t else Relax(edges, RelaxAll(edges, t, x, vs[..|vs| - 1]), x, vs[|vs| - 1])
  }

  /** `findMinimalDistances(x)` on tables t: relax the edges from x to the nodes t has not settled. */
  function RelaxFrom(edges: seq<Edge>, t: Tables, x: string): Tables {
    RelaxAll(edges, t, x, NeighborList(edges, x, t.settled))
  }

  /** One turn of `execute`'s loop once x has been picked: settle it, then relax its neighbours. */
  function Step(edges: seq<Edge>, t: Tables, x: string): Tables {
    RelaxFrom(edges, Settle(t, x), x)
  }

  /** x is a possible answer of `getMinimum(unSettledNodes)`. */
  predicate IsMinimum(t: Tables, x: string) {
    x in t.unsettled && forall y :: y in t.unsettled ==> Dist(t.distance, x) <= Dist(t.distance, y)
  }

  /** The tables after `execute(s)` has settled the nodes of picks, in that order. */
  function Replay(edges: seq<Edge>, s: string, picks: seq<string>): Tables
    decreases |picks|
  {
    if |picks| == 0 then Start(s) else Step(edges, Replay(edges, s, picks[..|picks| - 1]), picks[|picks| - 1])
  }

  /** Each pick was a minimum of the unsettled nodes when it was made. */
  ghost predicate ValidRun(edges: seq<Edge>, s: string, picks: seq<string>)
    decreases |picks|
  {
    |picks| == 0 ||
      (ValidRun(edges, s, picks[..|picks| - 1]) && IsMinimum(Replay(edges, s, picks[..|picks| - 1]), picks[|picks| - 1]))
  }

  /** A run of `execute(s)` to the end: every pick valid, nothing left unsettled. */
  ghost predicate CompleteRun(edges: seq<Edge>, s: string, picks: seq<string>) {
    ValidRun(edges, s, picks) && Replay(edges, s, picks).unsettled == {}
  }

  // ---------------------------------------------------------------------------
  // The invariant of execute's loop

  /** Bookkeeping that holds on every graph. */
  ghost predicate Tabled(edges: seq<Edge>, s: string, t: Tables) {
    && t.settled !! t.unsettled
    && t.distance.Keys == t.settled + t.unsettled
    && t.closer.Keys == t.distance.Keys
    && t.settled + t.unsettled <= Universe(edges, s)
    && (s in t.settled || (t.settled == {} && t.unsettled == {s}))
    && s in t.distance && t.distance[s] == 0
    && (forall v :: v in t.distance ==> t.distance[v] < MAX_INT)
  }

  /**
   * Every distance entry is the int sum along the walk paths[v] from s;
   * without wrap-around, its exact cost.
   */
  ghost predicate Witnessed(edges: seq<Edge>, s: string, t: Tables, paths: map<string, seq<string>>) {
    forall v {:trigger v in paths} :: v in t.distance ==>
      && v in paths
      && IsPath(edges, paths[v], s, v)
      && Wrap(Cost(edges, paths[v])) == t.distance[v]
      && (Good(edges, s) ==> Cost(edges, paths[v]) == t.distance[v])
  }

  /**
   * rank gives each settled node its place in the settle order; a predecessor
   * entry x -> y follows an edge and never points back to a node settled
   * before x.
   */
  ghost predicate Ranked(edges: seq<Edge>, t: Tables, rank: map<string, nat>) {
    && rank.Keys == t.settled
    && (forall x :: x in rank ==> rank[x] < |t.settled|)
    && forall x :: x in t.predecessors ==>
         && x in t.settled
         && HasEdge(edges, x, t.predecessors[x])
         && t.predecessors[x] in t.distance
         && (t.predecessors[x] in t.settled ==> rank[x] < rank[t.predecessors[x]])
  }

  /** Without wrap-around, no distance exceeds one maximal hop per settled node. */
  ghost predicate Bounded(edges: seq<Edge>, s: string, t: Tables) {
    Good(edges, s) ==> forall v :: v in t.distance ==> 0 <= t.distance[v] <= Times(|t.settled|, MaxWeight(edges))
  }

  ghost predicate Sound(edges: seq<Edge>, s: string, t: Tables, rank: map<string, nat>, paths: map<string, seq<string>>) {
    Tabled(edges, s, t) && Witnessed(edges, s, t, paths) && Ranked(edges, t, rank) && Bounded(edges, s, t)
  }

  /** Settled distances are least over all walks from s. */
  ghost predicate SettledLeast(edges: seq<Edge>, s: string, t: Tables) {
    forall u, p :: u in t.settled && u in t.distance && IsPath(edges, p, s, u) ==> t.distance[u] <= Cost(edges, p)
  }

  /** Every edge out of a settled node into an unsettled one has been relaxed. */
  ghost predicate EdgesRelaxed(edges: seq<Edge>, t: Tables) {
    forall u, v :: u in t.settled && u in t.distance && HasEdge(edges, u, v) && v !in t.settled ==>
      v in t.distance && t.distance[v] <= t.distance[u] + FirstWeight(edges, u, v)
  }

  /** Dijkstra's invariant, on graphs where no int sum wraps. */
  ghost predicate Optimal(edges: seq<Edge>, s: string, t: Tables) {
    Good(edges, s) ==> SettledLeast(edges, s, t) && EdgesRelaxed(edges, t)
  }

  ghost predicate Inv(edges: seq<Edge>, s: string, t: Tables, rank: map<string, nat>, paths: map<string, seq<string>>) {
    Sound(edges, s, t, rank, paths) && Optimal(edges, s, t)
  }

  /** Relaxation leaves settled entries alone and never raises a distance. */
  ghost predicate Improves(t: Tables, t': Tables) {
    && t'.settled == t.settled
    && (forall u :: u in t.settled && u in t.distance ==> u in t'.distance && t'.distance[u] == t.distance[u])
    && (forall v :: v in t.distance ==> v in t'.distance && t'.distance[v] <= t.distance[v])
  }

  lemma SubsetCard(a: set<string>, b: set<string>)
    requires a <= b
    ensures |a| <= |b|
  {
    assert b == a + (b - a);
  }

  lemma SettledBound(edges: seq<Edge>, s: string, t: Tables)
    requires Tabled(edges, s, t)
    ensures Times(|t.settled|, MaxWeight(edges)) <= Times(|edges| + 1, MaxWeight(edges))
  {
    SubsetCard(t.settled, Universe(edges, s));
    UniverseSize(edges, s);
    TimesMono(|t.settled|, |edges| + 1, MaxWeight(edges));
  }

  lemma InitInv(edges: seq<Edge>, s: string)
    ensures Inv(edges, s, Start(s), map[], map[s := [s]])
  {
    var t := Start(s);
    SourceInUniverse(edges, s);
    assert IsPath(edges, [s], s, s);
    assert Cost(edges, [s]) == 0;
  }

  /** The precondition under which relaxing out of x cannot wrap on a good graph. */
  ghost predicate Room(edges: seq<Edge>, s: string, t: Tables, x: string) {
    Good(edges, s) ==> x in t.distance && t.distance[x] + MaxWeight(edges) <= Times(|t.settled|, MaxWeight(edges))
  }

  /**
   * On a good graph the relaxed sum lies between 0 and the bound of the
   * settled count, which is below MAX_INT: it does not wrap (WrapSum).
   */
  lemma NoWrap(edges: seq<Edge>, s: string, t: Tables, x: string, v: string)
    requires Tabled(edges, s, t) && Bounded(edges, s, t) && Room(edges, s, t, x) && Good(edges, s)
    requires x in t.settled && HasEdge(edges, x, v)
    ensures 0 <= t.distance[x] + FirstWeight(edges, x, v) <= Times(|t.settled|, MaxWeight(edges)) < MAX_INT
  {
    FirstWeightNonNegative(edges, x, v);
    FirstWeightAtMost(edges, x, v);
    SettledBound(edges, s, t);
  }

  /** A sum in the int range is its own int value. */
  lemma WrapSum(dx: int, w: int)
    requires 0 <= dx + w < MAX_INT
    ensures Wrap(dx + w) == dx + w
  {
  }

  lemma RelaxTabled(edges: seq<Edge>, s: string, t: Tables, x: string, v: string)
    requires Tabled(edges, s, t)
    requires x in t.settled && v !in t.settled && HasEdge(edges, x, v)
    ensures Tabled(edges, s, Relax(edges, t, x, v))
  {
    DestinationInUniverse(edges, s, x, v);
  }

  lemma RelaxRanked(edges: seq<Edge>, s: string, t: Tables, x: string, v: string, rank: map<string, nat>)
    requires Tabled(edges, s, t) && Ranked(edges, t, rank)
    requires x in t.settled && v !in t.settled && HasEdge(edges, x, v)
    ensures Ranked(edges, Relax(edges, t, x, v), rank)
  {
  }

  /** The walks that witness the distances after relaxing x's neighbour v: v's walk goes through x. */
  ghost function RelaxPaths(edges: seq<Edge>, t: Tables, x: string, v: string, paths: map<string, seq<string>>): map<string, seq<string>>
    requires x in paths
  {
    if Shortens(edges, t, x, v) then paths[v := paths[x] + [v]] else paths
  }

  /** A walk to x priced dx, extended by the hop x -> v, is priced dx plus that hop, in int arithmetic and, without wrap-around, exactly. */
  lemma ExtendWitness(edges: seq<Edge>, s: string, px: seq<string>, x: string, v: string, dx: int, exact: bool)
    requires IsPath(edges, px, s, x) && HasEdge(edges, x, v)
    requires Wrap(Cost(edges, px)) == dx
    requires exact ==> Cost(edges, px) == dx && Wrap(dx + FirstWeight(edges, x, v)) == dx + FirstWeight(edges, x, v)
    ensures IsPath(edges, px + [v], s, v)
    ensures Wrap(Cost(edges, px + [v])) == Wrap(dx + FirstWeight(edges, x, v))
    ensures exact ==> Cost(edges, px + [v]) == Wrap(dx + FirstWeight(edges, x, v))
  {
    PathExtend(edges, px, s, x, v);
    WrapShift(Cost(edges, px), dx, FirstWeight(edges, x, v));
  }

  /** Overwriting one distance entry with a value witnessed by a walk keeps every entry witnessed. */
  lemma WitnessedUpdate(edges: seq<Edge>, s: string, t: Tables, t': Tables, paths: map<string, seq<string>>,
                        v: string, val: Int32, p: seq<string>)
    requires Witnessed(edges, s, t, paths)
    requires t'.distance == t.distance[v := val]
    requires IsPath(edges, p, s, v) && Wrap(Cost(edges, p)) == val
    requires Good(edges, s) ==> Cost(edges, p) == val
    ensures Witnessed(edges, s, t', paths[v := p])
  {
    forall y | y in t'.distance && y != v
      ensures t'.distance[y] == t.distance[y]
    {
    }
  }

  /** What relaxing x's neighbour v does to the distance table. */
  lemma RelaxDistance(edges: seq<Edge>, t: Tables, x: string, v: string)
    requires x in t.distance
    ensures Shortens(edges, t, x, v) ==>
      Relax(edges, t, x, v).distance == t.distance[v := Wrap(t.distance[x] + FirstWeight(edges, x, v))]
    ensures !Shortens(edges, t, x, v) ==> Relax(edges, t, x, v) == t
  {
  }

  lemma RelaxWitnessed(edges: seq<Edge>, s: string, t: Tables, x: string, v: string, paths: map<string, seq<string>>)
    requires Witnessed(edges, s, t, paths) && x in t.distance && HasEdge(edges, x, v)
    requires Good(edges, s) ==> 0 <= t.distance[x] + FirstWeight(edges, x, v) < MAX_INT
    ensures x in paths && Witnessed(edges, s, Relax(edges, t, x, v), RelaxPaths(edges, t, x, v, paths))
  {
    RelaxDistance(edges, t, x, v);
    if Good(edges, s) {
      WrapSum(t.distance[x], FirstWeight(edges, x, v));
    }
    if Shortens(edges, t, x, v) {
      var dx: int := t.distance[x];
      var val := Wrap(dx + FirstWeight(edges, x, v));
      var p := paths[x] + [v];
      var good := Good(edges, s);
      ExtendWitness(edges, s, paths[x], x, v, dx, good);
      assert A: Relax(edges, t, x, v).distance == t.distance[v := val];
      assert B: IsPath(edges, p, s, v) && Wrap(Cost(edges, p)) == val;
      assert C: good ==> Cost(edges, p) == val;
      WitnessedUpdate(edges, s, t, Relax(edges, t, x, v), paths, v, val, p);
    }
  }

  lemma RelaxBounded(edges: seq<Edge>, s: string, t: Tables, x: string, v: string)
    requires Tabled(edges, s, t) && Bounded(edges, s, t) && Room(edges, s, t, x)
    requires x in t.settled && HasEdge(edges, x, v)
    ensures Bounded(edges, s, Relax(edges, t, x, v))
  {
    if Good(edges, s) {
      NoWrap(edges, s, t, x, v);
      WrapSum(t.distance[x], FirstWeight(edges, x, v));
    }
  }

  /**
   * Relaxing leaves settled nodes and their distances alone and never raises a
   * distance; when the test passes, v's distance strictly drops, and otherwise
   * nothing changes.
   */
  lemma RelaxImproves(edges: seq<Edge>, t: Tables, x: string, v: string)
    requires x in t.distance && v !in t.settled
    ensures Improves(t, Relax(edges, t, x, v))
    ensures Shortens(edges, t, x, v) ==> Dist(Relax(edges, t, x, v).distance, v) < Dist(t.distance, v)
    ensures !Shortens(edges, t, x, v) ==> Relax(edges, t, x, v) == t
  {
    RelaxDistance(edges, t, x, v);
  }

  /** After relaxing, v is no farther than the sum through x, when that sum fits in an int. */
  lemma RelaxNear(edges: seq<Edge>, t: Tables, x: string, v: string)
    requires x in t.distance && MIN_INT <= t.distance[x] + FirstWeight(edges, x, v) <= MAX_INT
    ensures Dist(Relax(edges, t, x, v).distance, v) <= t.distance[x] + FirstWeight(edges, x, v)
  {
    RelaxDistance(edges, t, x, v);
  }

  lemma RelaxRoom(edges: seq<Edge>, s: string, t: Tables, x: string, v: string)
    requires Room(edges, s, t, x) && x in t.settled && v !in t.settled
    ensures Room(edges, s, Relax(edges, t, x, v), x)
  {
    if Good(edges, s) {
      RelaxDistance(edges, t, x, v);
    }
  }

  /** One relaxation of x's neighbour v keeps the tables sound and leaves room for the next one. */
  lemma RelaxKeeps(edges: seq<Edge>, s: string, t: Tables, x: string, v: string, rank: map<string, nat>, paths: map<string, seq<string>>)
    returns (paths': map<string, seq<string>>)
    requires Sound(edges, s, t, rank, paths) && Room(edges, s, t, x)
    requires x in t.settled && v !in t.settled && HasEdge(edges, x, v)
    ensures Sound(edges, s, Relax(edges, t, x, v), rank, paths')
    ensures Room(edges, s, Relax(edges, t, x, v), x)
  {
    RelaxTabled(edges, s, t, x, v);
    RelaxRanked(edges, s, t, x, v, rank);
    if Good(edges, s) {
      NoWrap(edges, s, t, x, v);
    }
    RelaxWitnessed(edges, s, t, x, v, paths);
    RelaxBounded(edges, s, t, x, v);
    RelaxRoom(edges, s, t, x, v);
    paths' := RelaxPaths(edges, t, x, v, paths);
  }

  lemma {:induction false} RelaxAllSettled(edges: seq<Edge>, t: Tables, x: string, vs: seq<string>)
    ensures RelaxAll(edges, t, x, vs).settled == t.settled
    decreases |vs|
  {
    if |vs| > 0 {
      RelaxAllSettled(edges, t, x, vs[..|vs| - 1]);
    }
  }

  lemma ImprovesTrans(t1: Tables, t2: Tables, t3: Tables)
    requires Improves(t1, t2) && Improves(t2, t3)
    ensures Improves(t1, t3)
  {
  }

  /** Relaxing a list of unsettled neighbours never raises a distance and leaves the settled part alone. */
  lemma {:induction false} RelaxAllImproves(edges: seq<Edge>, t: Tables, x: string, vs: seq<string>)
    requires x in t.distance
    requires forall i :: 0 <= i < |vs| ==> vs[i] !in t.settled
    ensures Improves(t, RelaxAll(edges, t, x, vs))
    decreases |vs|
  {
    if |vs| > 0 {
      var init := vs[..|vs| - 1];
      var last := vs[|vs| - 1];
      assert forall i :: 0 <= i < |init| ==> init[i] == vs[i];
      RelaxAllImproves(edges, t, x, init);
      var t1 := RelaxAll(edges, t, x, init);
      RelaxImproves(edges, t1, x, last);
      ImprovesTrans(t, t1, Relax(edges, t1, x, last));
    }
  }

  /**
   * One turn of execute's loop, after x is settled, never raises a distance and
   * leaves every settled entry, x's included, as it was.
   */
  lemma StepImproves(edges: seq<Edge>, t: Tables, x: string)
    requires x in t.distance
    ensures Improves(Settle(t, x), Step(edges, t, x))
  {
    var t1 := Settle(t, x);
    var vs := NeighborList(edges, x, t1.settled);
    NeighborListMembers(edges, x, t1.settled);
    assert forall i :: 0 <= i < |vs| ==> vs[i] !in t1.settled by {
      forall i | 0 <= i < |vs| ensures vs[i] !in t1.settled {
        assert vs[i] in vs;
      }
    }
    RelaxAllImproves(edges, t1, x, vs);
  }

  /** After relaxing all of x's listed neighbours, each is no farther than the sum through x, when the sums fit in an int. */
  lemma {:induction false} RelaxAllNear(edges: seq<Edge>, t: Tables, x: string, vs: seq<string>)
    requires x in t.settled && x in t.distance
    requires forall v :: v in vs ==> v !in t.settled && MIN_INT <= t.distance[x] + FirstWeight(edges, x, v) <= MAX_INT
    ensures forall v :: v in vs ==> Dist(RelaxAll(edges, t, x, vs).distance, v) <= t.distance[x] + FirstWeight(edges, x, v)
    decreases |vs|
  {
    if |vs| > 0 {
      var init := vs[..|vs| - 1];
      var last := vs[|vs| - 1];
      assert vs == init + [last];
      RelaxAllNear(edges, t, x, init);
      RelaxAllImproves(edges, t, x, init);
      var t1 := RelaxAll(edges, t, x, init);
      assert t1.distance[x] == t.distance[x];
      RelaxNear(edges, t1, x, last);
      RelaxImproves(edges, t1, x, last);
      NearStep(edges, t, t1, Relax(edges, t1, x, last), x, init, last);
    }
  }

  /** The inductive step of RelaxAllNear, on tables t1 before and t2 after relaxing the last neighbour. */
  lemma NearStep(edges: seq<Edge>, t: Tables, t1: Tables, t2: Tables, x: string, init: seq<string>, last: string)
    requires x in t.distance && Improves(t1, t2)
    requires forall v :: v in init ==> Dist(t1.distance, v) <= t.distance[x] + FirstWeight(edges, x, v)
    requires Dist(t2.distance, last) <= t.distance[x] + FirstWeight(edges, x, last)
    ensures forall v :: v in init + [last] ==> Dist(t2.distance, v) <= t.distance[x] + FirstWeight(edges, x, v)
  {
    forall v | v in init + [last]
      ensures Dist(t2.distance, v) <= t.distance[x] + FirstWeight(edges, x, v)
    {
      if v != last {
        assert Dist(t2.distance, v) <= Dist(t1.distance, v);
      }
    }
  }

  /** Relaxing a whole neighbour list of x keeps the tables sound. */
  lemma {:induction false} RelaxAllKeeps(edges: seq<Edge>, s: string, t: Tables, x: string, vs: seq<string>,
                                         rank: map<string, nat>, paths: map<string, seq<string>>)
    returns (paths': map<string, seq<string>>)
    requires Sound(edges, s, t, rank, paths) && Room(edges, s, t, x)
    requires x in t.settled
    requires forall i :: 0 <= i < |vs| ==> vs[i] !in t.settled && HasEdge(edges, x, vs[i])
    ensures Sound(edges, s, RelaxAll(edges, t, x, vs), rank, paths')
    ensures Room(edges, s, RelaxAll(edges, t, x, vs), x)
    decreases |vs|
  {
    if |vs| == 0 {
      paths' := paths;
    } else {
      var init := vs[..|vs| - 1];
      assert forall i :: 0 <= i < |init| ==> init[i] == vs[i];
      var paths1 := RelaxAllKeeps(edges, s, t, x, init, rank, paths);
      RelaxAllSettled(edges, t, x, init);
      paths' := RelaxKeeps(edges, s, RelaxAll(edges, t, x, init), x, vs[|vs| - 1], rank, paths1);
    }
  }

  /** Any walk from s to a node not yet settled leaves the settled part through an unsettled node no farther than the walk's cost. */
  lemma {:induction false} Crossing(edges: seq<Edge>, s: string, t: Tables, p: seq<string>, y: string)
    returns (z: string)
    requires Tabled(edges, s, t) && Good(edges, s) && SettledLeast(edges, s, t) && EdgesRelaxed(edges, t)
    requires IsPath(edges, p, s, y) && y !in t.settled
    ensures z in t.unsettled && t.distance[z] <= Cost(edges, p)
    decreases |p|
  {
    if |p| == 1 {
      z := s;
    } else {
      var q := p[..|p| - 1];
      var u := p[|p| - 2];
      PathShorten(edges, p, s, y);
      FirstWeightNonNegative(edges, u, y);
      if u in t.settled {
        assert t.distance[u] <= Cost(edges, q);
        z := y;
      } else {
        z := Crossing(edges, s, t, q, u);
      }
    }
  }

  /** A minimum pick's distance is no more than the cost of any walk to it. */
  lemma MinimumOptimal(edges: seq<Edge>, s: string, t: Tables, x: string)
    requires Tabled(edges, s, t) && Good(edges, s) && SettledLeast(edges, s, t) && EdgesRelaxed(edges, t)
    requires IsMinimum(t, x)
    ensures forall p :: IsPath(edges, p, s, x) ==> t.distance[x] <= Cost(edges, p)
  {
    forall p | IsPath(edges, p, s, x) ensures t.distance[x] <= Cost(edges, p) {
      var z := Crossing(edges, s, t, p, x);
      assert Dist(t.distance, x) <= Dist(t.distance, z);
    }
  }

  lemma SettleTabled(edges: seq<Edge>, s: string, t: Tables, x: string)
    requires Tabled(edges, s, t) && x in t.unsettled
    ensures Tabled(edges, s, Settle(t, x))
  {
  }

  lemma SettleRanked(edges: seq<Edge>, t: Tables, rank: map<string, nat>, x: string)
    requires Ranked(edges, t, rank) && x in t.unsettled && t.settled !! t.unsettled
    requires t.distance.Keys == t.settled + t.unsettled
    ensures Ranked(edges, Settle(t, x), rank[x := |t.settled|])
  {
    assert |Settle(t, x).settled| == |t.settled| + 1;
  }

  lemma SettleBounded(edges: seq<Edge>, s: string, t: Tables, x: string)
    requires Bounded(edges, s, t) && x in t.distance && x !in t.settled
    ensures Bounded(edges, s, Settle(t, x))
    ensures Room(edges, s, Settle(t, x), x)
  {
    var k := |t.settled|;
    var m := MaxWeight(edges);
    assert |Settle(t, x).settled| == k + 1;
    assert Times(k + 1, m) == Times(k, m) + m;
  }

  /** Settling a minimum keeps the tables sound, the new node taking the next rank. */
  lemma SettleSound(edges: seq<Edge>, s: string, t: Tables, rank: map<string, nat>, paths: map<string, seq<string>>, x: string)
    requires Sound(edges, s, t, rank, paths) && x in t.unsettled
    ensures Sound(edges, s, Settle(t, x), rank[x := |t.settled|], paths)
    ensures Room(edges, s, Settle(t, x), x)
  {
    SettleTabled(edges, s, t, x);
    SettleRanked(edges, t, rank, x);
    SettleBounded(edges, s, t, x);
    assert Settle(t, x).distance == t.distance;
  }

  /** Settling x and relaxing its neighbours keeps the settled distances least and relaxes x's edges. */
  lemma StepOptimal(edges: seq<Edge>, s: string, t: Tables, x: string, t2: Tables)
    requires Tabled(edges, s, t) && Good(edges, s) && SettledLeast(edges, s, t) && EdgesRelaxed(edges, t)
    requires IsMinimum(t, x)
    requires Improves(Settle(t, x), t2)
    requires forall v :: HasEdge(edges, x, v) && v !in t2.settled ==>
      v in t2.distance && t2.distance[v] <= t.distance[x] + FirstWeight(edges, x, v)
    ensures SettledLeast(edges, s, t2) && EdgesRelaxed(edges, t2)
  {
    MinimumOptimal(edges, s, t, x);
    assert forall u :: u in t2.settled ==> u in t.distance && t2.distance[u] == t.distance[u];
  }

  /** On a good graph, relaxing x's neighbour list leaves every unsettled successor of x within one hop of x. */
  lemma StepNear(edges: seq<Edge>, s: string, t1: Tables, x: string)
    requires Tabled(edges, s, t1) && Bounded(edges, s, t1) && Room(edges, s, t1, x) && Good(edges, s)
    requires x in t1.settled
    ensures forall v :: HasEdge(edges, x, v) && v !in t1.settled ==>
      var t2 := RelaxAll(edges, t1, x, NeighborList(edges, x, t1.settled));
      v in t2.distance && t2.distance[v] <= t1.distance[x] + FirstWeight(edges, x, v)
  {
    var vs := NeighborList(edges, x, t1.settled);
    NeighborListMembers(edges, x, t1.settled);
    forall v | v in vs
      ensures v !in t1.settled && MIN_INT <= t1.distance[x] + FirstWeight(edges, x, v) <= MAX_INT
    {
      NoWrap(edges, s, t1, x, v);
      WrapSum(t1.distance[x], FirstWeight(edges, x, v));
    }
    RelaxAllNear(edges, t1, x, vs);
    var t2 := RelaxAll(edges, t1, x, vs);
    forall v | HasEdge(edges, x, v) && v !in t1.settled
      ensures v in t2.distance && t2.distance[v] <= t1.distance[x] + FirstWeight(edges, x, v)
    {
      assert v in vs;
      NoWrap(edges, s, t1, x, v);
      WrapSum(t1.distance[x], FirstWeight(edges, x, v));
      assert Dist(t2.distance, v) <= t1.distance[x] + FirstWeight(edges, x, v) < MAX_INT;
    }
  }

  /** One turn of execute's loop keeps the invariant, the new node taking the next rank. */
  lemma StepKeeps(edges: seq<Edge>, s: string, t: Tables, rank: map<string, nat>, paths: map<string, seq<string>>, x: string)
    returns (paths': map<string, seq<string>>)
    requires Inv(edges, s, t, rank, paths) && IsMinimum(t, x)
    ensures Inv(edges, s, Step(edges, t, x), rank[x := |t.settled|], paths')
    ensures Step(edges, t, x).settled == t.settled + {x}
  {
    var rank1 := rank[x := |t.settled|];
    var t1 := Settle(t, x);
    SettleSound(edges, s, t, rank, paths, x);
    var vs := NeighborList(edges, x, t1.settled);
    NeighborListMembers(edges, x, t1.settled);
    assert forall i :: 0 <= i < |vs| ==> vs[i] !in t1.settled && HasEdge(edges, x, vs[i]) by {
      forall i | 0 <= i < |vs| ensures vs[i] !in t1.settled && HasEdge(edges, x, vs[i]) {
        assert vs[i] in vs;
      }
    }
    paths' := RelaxAllKeeps(edges, s, t1, x, vs, rank1, paths);
    RelaxAllSettled(edges, t1, x, vs);
    if Good(edges, s) {
      RelaxAllImproves(edges, t1, x, vs);
      StepNear(edges, s, t1, x);
      StepOptimal(edges, s, t, x, RelaxAll(edges, t1, x, vs));
    }
  }

  /** Every valid run keeps the invariant, ranking the nodes by the order they were picked. */
  lemma {:induction false} RunInvariant(edges: seq<Edge>, s: string, picks: seq<string>)
    returns (rank: map<string, nat>, paths: map<string, seq<string>>)
    requires ValidRun(edges, s, picks)
    ensures Inv(edges, s, Replay(edges, s, picks), rank, paths)
    decreases |picks|
  {
    if |picks| == 0 {
      InitInv(edges, s);
      rank := map[];
      paths := map[s := [s]];
    } else {
      var init := picks[..|picks| - 1];
      var x := picks[|picks| - 1];
      var rank0, paths0 := RunInvariant(edges, s, init);
      paths := StepKeeps(edges, s, Replay(edges, s, init), rank0, paths0, x);
      rank := rank0[x := |Replay(edges, s, init).settled|];
    }
  }

  // ---------------------------------------------------------------------------
  // What the closer entries record

  /**
   * d's entries were last set by relaxing the hop u -> d from settled u: the
   * closer entry is that hop's price, d's distance the int sum through u.
   */
  ghost predicate LastHop(edges: seq<Edge>, t: Tables, u: string, d: string) {
    && u in t.settled && u in t.distance && d in t.distance && d in t.closer
    && HasEdge(edges, u, d)
    && t.closer[d] == FirstWeight(edges, u, d)
    && t.distance[d] == Wrap(t.distance[u] as int + t.closer[d] as int)
  }

  /**
   * The source's closer entry is 0, and every other one is credited to the
   * settled node credit[d] whose relaxation set it last.
   */
  ghost predicate Credited(edges: seq<Edge>, s: string, t: Tables, credit: map<string, string>) {
    && s in t.closer && t.closer[s] == 0
    && (s !in t.settled ==> t.closer.Keys == {s})
    && forall d :: d in t.closer && d != s ==> d in credit && LastHop(edges, t, credit[d], d)
  }

  lemma SettleCredited(edges: seq<Edge>, s: string, t: Tables, credit: map<string, string>, x: string)
    requires Credited(edges, s, t, credit) && (s !in t.settled ==> x == s)
    ensures Credited(edges, s, Settle(t, x), credit)
  {
    var t' := Settle(t, x);
    forall d | d in t'.closer && d != s
      ensures d in credit && LastHop(edges, t', credit[d], d)
    {
      assert LastHop(edges, t, credit[d], d);
    }
  }

  /** Relaxing v from settled x credits v to x when it shortens, and leaves every other credit as it was. */
  lemma RelaxCredited(edges: seq<Edge>, s: string, t: Tables, credit: map<string, string>, x: string, v: string)
    returns (credit': map<string, string>)
    requires Credited(edges, s, t, credit) && s in t.settled
    requires x in t.settled && x in t.distance && v !in t.settled && HasEdge(edges, x, v)
    ensures Credited(edges, s, Relax(edges, t, x, v), credit')
  {
    var t' := Relax(edges, t, x, v);
    if Shortens(edges, t, x, v) {
      credit' := credit[v := x];
      assert LastHop(edges, t', x, v);
      forall d | d in t'.closer && d != s && d != v
        ensures d in credit' && LastHop(edges, t', credit'[d], d)
      {
        assert LastHop(edges, t, credit[d], d);
      }
    } else {
      credit' := credit;
    }
  }

  lemma {:induction false} RelaxAllCredited(edges: seq<Edge>, s: string, t: Tables, credit: map<string, string>,
                                            x: string, vs: seq<string>)
    returns (credit': map<string, string>)
    requires Credited(edges, s, t, credit) && s in t.settled && x in t.settled && x in t.distance
    requires forall i :: 0 <= i < |vs| ==> vs[i] !in t.settled && HasEdge(edges, x, vs[i])
    ensures Credited(edges, s, RelaxAll(edges, t, x, vs), credit')
    decreases |vs|
  {
    if |vs| == 0 {
      credit' := credit;
    } else {
      var init := vs[..|vs| - 1];
      var last := vs[|vs| - 1];
      assert forall i :: 0 <= i < |init| ==> init[i] == vs[i];
      var credit1 := RelaxAllCredited(edges, s, t, credit, x, init);
      RelaxAllSettled(edges, t, x, init);
      RelaxAllImproves(edges, t, x, init);
      credit' := RelaxCredited(edges, s, RelaxAll(edges, t, x, init), credit1, x, last);
    }
  }

  /** One turn of execute's loop keeps every closer entry credited. */
  lemma StepCredited(edges: seq<Edge>, s: string, t: Tables, credit: map<string, string>, x: string)
    returns (credit': map<string, string>)
    requires Credited(edges, s, t, credit) && Tabled(edges, s, t) && x in t.unsettled
    ensures Credited(edges, s, Step(edges, t, x), credit')
  {
    SettleCredited(edges, s, t, credit, x);
    var t1 := Settle(t, x);
    var vs := NeighborList(edges, x, t1.settled);
    NeighborListMembers(edges, x, t1.settled);
    assert forall i :: 0 <= i < |vs| ==> vs[i] !in t1.settled && HasEdge(edges, x, vs[i]) by {
      forall i | 0 <= i < |vs| ensures vs[i] !in t1.settled && HasEdge(edges, x, vs[i]) {
        assert vs[i] in vs;
      }
    }
    credit' := RelaxAllCredited(edges, s, t1, credit, x, vs);
  }

  lemma RunTabled(edges: seq<Edge>, s: string, picks: seq<string>)
    requires ValidRun(edges, s, picks)
    ensures Tabled(edges, s, Replay(edges, s, picks)) && Bounded(edges, s, Replay(edges, s, picks))
  {
    var rank, paths := RunInvariant(edges, s, picks);
  }

  /** Every valid run keeps every closer entry credited. */
  lemma {:induction false} RunCredited(edges: seq<Edge>, s: string, picks: seq<string>)
    returns (credit: map<string, string>)
    requires ValidRun(edges, s, picks)
    ensures Credited(edges, s, Replay(edges, s, picks), credit)
    decreases |picks|
  {
    if |picks| == 0 {
      credit := map[];
    } else {
      var init := picks[..|picks| - 1];
      var credit0 := RunCredited(edges, s, init);
      RunTabled(edges, s, init);
      credit := StepCredited(edges, s, Replay(edges, s, init), credit0, picks[|picks| - 1]);
    }
  }

  /** An int sum of two non-negative ints that comes out non-negative did not wrap. */
  lemma WrapNonNegative(a: int, b: int)
    requires 0 <= a <= MAX_INT && 0 <= b <= MAX_INT && Wrap(a + b) >= 0
    ensures Wrap(a + b) == a + b
  {
  }

  /**
   * After a complete run the source's closer entry is 0, and every other
   * node's is the price of the hop from a settled node that gave it its
   * distance, the int sum through that node. On a good graph the entry is
   * non-negative and the sum does not wrap.
   */
  lemma CompleteRunCloser(edges: seq<Edge>, s: string, picks: seq<string>)
    requires CompleteRun(edges, s, picks)
    ensures var t := Replay(edges, s, picks);
      && t.closer.Keys == t.distance.Keys
      && s in t.closer && t.closer[s] == 0
      && (forall d :: d in t.closer && d != s ==> exists u :: LastHop(edges, t, u, d))
      && (Good(edges, s) ==> forall d :: d in t.closer && d != s ==> exists u :: ExactHop(edges, t, u, d))
  {
    var t := Replay(edges, s, picks);
    var credit := RunCredited(edges, s, picks);
    RunTabled(edges, s, picks);
    forall d | d in t.closer && d != s
      ensures exists u :: LastHop(edges, t, u, d)
      ensures Good(edges, s) ==> exists u :: ExactHop(edges, t, u, d)
    {
      CreditedEntry(edges, s, t, credit, d);
    }
  }

  /** LastHop without wrap-around: a non-negative hop price, and d's distance exactly u's plus it. */
  ghost predicate ExactHop(edges: seq<Edge>, t: Tables, u: string, d: string) {
    LastHop(edges, t, u, d) && 0 <= t.closer[d] && t.distance[d] as int == t.distance[u] as int + t.closer[d] as int
  }

  lemma CreditedEntry(edges: seq<Edge>, s: string, t: Tables, credit: map<string, string>, d: string)
    requires Credited(edges, s, t, credit) && Bounded(edges, s, t) && d in t.closer && d != s
    ensures LastHop(edges, t, credit[d], d)
    ensures Good(edges, s) ==> ExactHop(edges, t, credit[d], d)
  {
    var u := credit[d];
    if Good(edges, s) {
      FirstWeightNonNegative(edges, u, d);
      WrapNonNegative(t.distance[u], t.closer[d]);
    }
  }


  /** When nothing is left unsettled, every node a walk reaches has been settled. */
  lemma {:induction false} ReachedSettled(edges: seq<Edge>, s: string, t: Tables, rank: map<string, nat>,
                                          paths: map<string, seq<string>>, p: seq<string>, v: string)
    requires Inv(edges, s, t, rank, paths) && Good(edges, s) && t.unsettled == {}
    requires IsPath(edges, p, s, v)
    ensures v in t.settled
    decreases |p|
  {
    if |p| > 1 {
      PathShorten(edges, p, s, v);
      ReachedSettled(edges, s, t, rank, paths, p[..|p| - 1], p[|p| - 2]);
    }
  }

  /**
   * What `execute(s)` leaves behind, on every graph: s at distance 0, MAX_INT
   * exactly for the nodes never reached, every other distance the int sum along
   * a walk from s; and, when weights are non-negative and no sum can wrap,
   * an entry for exactly the reachable nodes, each at its least walk cost.
   */
  lemma CompleteRunFacts(edges: seq<Edge>, s: string, picks: seq<string>)
    requires CompleteRun(edges, s, picks)
    ensures var t := Replay(edges, s, picks);
      && t.distance.Keys == t.settled
      && Dist(t.distance, s) == 0
      && (forall v :: Dist(t.distance, v) == MAX_INT <==> v !in t.distance)
      && (forall v :: v in t.distance ==> PricedWalk(edges, s, v, t.distance[v]))
      && (Good(edges, s) ==> forall v ::
            (v in t.distance <==> Reachable(edges, s, v))
            && (v in t.distance ==> IsShortest(edges, s, v, t.distance[v])))
  {
    var t := Replay(edges, s, picks);
    var rank, paths := RunInvariant(edges, s, picks);
    FinalWalks(edges, s, t, paths);
    if Good(edges, s) {
      FinalShortest(edges, s, t, rank, paths);
    }
  }

  lemma FinalWalks(edges: seq<Edge>, s: string, t: Tables, paths: map<string, seq<string>>)
    requires Witnessed(edges, s, t, paths)
    ensures forall v :: v in t.distance ==> PricedWalk(edges, s, v, t.distance[v])
  {
    forall v | v in t.distance
      ensures PricedWalk(edges, s, v, t.distance[v])
    {
      var p := paths[v];
      assert IsPath(edges, p, s, v) && Wrap(Cost(edges, p)) == t.distance[v];
    }
  }

  lemma FinalShortest(edges: seq<Edge>, s: string, t: Tables, rank: map<string, nat>, paths: map<string, seq<string>>)
    requires Inv(edges, s, t, rank, paths) && Good(edges, s) && t.unsettled == {}
    ensures forall v :: ((v in t.distance <==> Reachable(edges, s, v))
      && (v in t.distance ==> IsShortest(edges, s, v, t.distance[v])))
  {
    forall v ensures (v in t.distance <==> Reachable(edges, s, v)) && (v in t.distance ==> IsShortest(edges, s, v, t.distance[v])) {
      if Reachable(edges, s, v) {
        var p :| IsPath(edges, p, s, v);
        ReachedSettled(edges, s, t, rank, paths, p, v);
      }
      if v in t.distance {
        assert IsPath(edges, paths[v], s, v) && Cost(edges, paths[v]) == t.distance[v];
      }
    }
  }

  // ---------------------------------------------------------------------------
  // What one relaxation changes

  /** The test and the updates of one turn of `findMinimalDistances`' loop, from the values it reads. */
  lemma RelaxTest(edges: seq<Edge>, t: Tables, x: string, v: string, toV: Int32, toX: int, hop: Int32)
    requires toV == Dist(t.distance, v) && toX == Dist(t.distance, x) && hop == FirstWeight(edges, x, v)
    ensures Relax(edges, t, x, v)
      == if toV > Wrap(toX + hop) then
           Tables(t.settled, t.unsettled + {v}, t.predecessors[x := v], t.distance[v := Wrap(toX + hop)], t.closer[v := hop])
         else t
  {
  }

  // ---------------------------------------------------------------------------
  // The predecessor chain that getCloserThan walks

  /** Up to fuel steps of `temp = predecessors.get(temp)` from x, the nodes visited after x. */
  function Walk(pred: map<string, string>, x: string, fuel: nat): (r: seq<string>)
    ensures |r| <= fuel
    ensures forall i :: 0 <= i < |r| ==> r[i] in pred.Values
    decreases fuel
  {
    if fuel == 0 || x !in pred then [] else [pred[x]] + Walk(pred, pred[x], fuel - 1)
  }

  /** The int sum, wrapping as Java's does, of acc and the closer entries of the nodes of c, left to right. */
  function RunningSum(closer: map<string, Int32>, c: seq<string>, acc: Int32): Int32
    requires forall i :: 0 <= i < |c| ==> c[i] in closer
    decreases |c|
  {
    if |c| == 0 then acc else RunningSum(closer, c[1..], Wrap(acc + closer[c[0]]))
  }

  /**
   * The nodes `getCloserThan` collects along the chain c: it stops at the
   * first node whose running sum exceeds w.
   */
  function CloserPrefix(closer: map<string, Int32>, c: seq<string>, w: Int32, acc: Int32): seq<string>
    requires forall i :: 0 <= i < |c| ==> c[i] in closer
    decreases |c|
  {
    if |c| == 0 then []
    else
      var acc' := Wrap(acc + closer[c[0]]);
      if acc' > w then [] else [c[0]] + CloserPrefix(closer, c[1..], w, acc')
  }

  /** The running sum over the first k nodes starts with the first node's entry. */
  lemma RunningSumFirst(closer: map<string, Int32>, c: seq<string>, acc: Int32, k: nat)
    requires forall i :: 0 <= i < |c| ==> c[i] in closer
    requires 1 <= k <= |c|
    ensures RunningSum(closer, c[..k], acc) == RunningSum(closer, c[1..][..k - 1], Wrap(acc + closer[c[0]]))
  {
    assert c[..k][0] == c[0] && c[..k][1..] == c[1..][..k - 1];
  }

  lemma {:induction false} CloserPrefixIsPrefix(closer: map<string, Int32>, c: seq<string>, w: Int32, acc: Int32)
    requires forall i :: 0 <= i < |c| ==> c[i] in closer
    ensures var r := CloserPrefix(closer, c, w, acc); |r| <= |c| && r == c[..|r|]
    decreases |c|
  {
    if |c| > 0 {
      CloserPrefixIsPrefix(closer, c[1..], w, Wrap(acc + closer[c[0]]));
    }
  }

  lemma {:induction false} CloserPrefixKept(closer: map<string, Int32>, c: seq<string>, w: Int32, acc: Int32)
    requires forall i :: 0 <= i < |c| ==> c[i] in closer
    ensures var r := CloserPrefix(closer, c, w, acc);
      forall k :: 1 <= k <= |r| && k <= |c| ==> RunningSum(closer, c[..k], acc) <= w
    decreases |c|
  {
    if |c| > 0 {
      var acc' := Wrap(acc + closer[c[0]]);
      var r := CloserPrefix(closer, c, w, acc);
      if acc' <= w {
        CloserPrefixKept(closer, c[1..], w, acc');
        forall k | 1 <= k <= |r| && k <= |c| ensures RunningSum(closer, c[..k], acc) <= w {
          RunningSumFirst(closer, c, acc, k);
          if k == 1 {
            assert c[1..][..0] == [];
          }
        }
      }
    }
  }

  lemma {:induction false} CloserPrefixStop(closer: map<string, Int32>, c: seq<string>, w: Int32, acc: Int32)
    requires forall i :: 0 <= i < |c| ==> c[i] in closer
    ensures var r := CloserPrefix(closer, c, w, acc);
      |r| < |c| ==> RunningSum(closer, c[..|r| + 1], acc) > w
    decreases |c|
  {
    if |c| > 0 {
      var acc' := Wrap(acc + closer[c[0]]);
      var r := CloserPrefix(closer, c, w, acc);
      CloserPrefixIsPrefix(closer, c, w, acc);
      if |r| < |c| {
        RunningSumFirst(closer, c, acc, |r| + 1);
        if acc' <= w {
          CloserPrefixStop(closer, c[1..], w, acc');
        } else {
          assert c[1..][..0] == [];
        }
      }
    }
  }

  /**
   * CloserPrefix is the longest prefix of the chain whose running sums all
   * stay at most w (a sum equal to w is kept): every kept node's running sum
   * is at most w, and the first node left out exceeds w.
   */
  lemma CloserPrefixLongest(closer: map<string, Int32>, c: seq<string>, w: Int32, acc: Int32)
    requires forall i :: 0 <= i < |c| ==> c[i] in closer
    ensures var r := CloserPrefix(closer, c, w, acc);
      && |r| <= |c| && r == c[..|r|]
      && (forall k :: 1 <= k <= |r| ==> RunningSum(closer, c[..k], acc) <= w)
      && (|r| < |c| ==> RunningSum(closer, c[..|r| + 1], acc) > w)
  {
    CloserPrefixIsPrefix(closer, c, w, acc);
    CloserPrefixKept(closer, c, w, acc);
    CloserPrefixStop(closer, c, w, acc);
  }

  /**
   * In tables whose predecessor entries respect the settle order, the chain
   * from x visits settled nodes of strictly increasing rank, so it has no
   * repeated node, never comes back to x, and ends within |settled| steps.
   */
  lemma {:induction false} WalkRanked(edges: seq<Edge>, t: Tables, rank: map<string, nat>, x: string, fuel: nat)
    requires Ranked(edges, t, rank) && t.distance.Keys == t.settled
    ensures var r := Walk(t.predecessors, x, fuel);
      && (forall i :: 0 <= i < |r| ==> r[i] in rank && (x in rank ==> rank[x] < rank[r[i]]))
      && (forall i, j :: 0 <= i < j < |r| ==> rank[r[i]] < rank[r[j]])
      && (forall i, j :: 0 <= i < j < |r| ==> r[i] != r[j])
      && (x in rank ==> x !in r)
      && |r| <= |t.settled| - (if x in rank then rank[x] + 1 else 0)
    decreases fuel
  {
    var pred := t.predecessors;
    var r := Walk(pred, x, fuel);
    if fuel > 0 && x in pred {
      var y := pred[x];
      WalkRanked(edges, t, rank, y, fuel - 1);
      var r' := Walk(pred, y, fuel - 1);
      assert r == [y] + r';
      ConsRanks(rank, y, r', r, if x in rank then rank[x] else -1);
      RanksBound(rank, r, if x in rank then rank[x] else -1, |t.settled|);
    }
  }

  /** Putting a node of lower rank than all of r' in front keeps the ranks strictly increasing. */
  lemma ConsRanks(rank: map<string, nat>, y: string, r': seq<string>, r: seq<string>, lo: int)
    requires r == [y] + r' && y in rank && lo < rank[y]
    requires forall i :: 0 <= i < |r'| ==> r'[i] in rank && rank[y] < rank[r'[i]]
    requires forall i, j :: 0 <= i < j < |r'| ==> rank[r'[i]] < rank[r'[j]]
    ensures forall i :: 0 <= i < |r| ==> r[i] in rank && lo < rank[r[i]]
    ensures forall i, j :: 0 <= i < j < |r| ==> rank[r[i]] < rank[r[j]]
  {
    forall i, j | 0 <= i < j < |r| ensures rank[r[i]] < rank[r[j]] {
      assert r[j] == r'[j - 1];
      if i > 0 {
        assert r[i] == r'[i - 1];
      }
    }
    forall i | 0 <= i < |r| ensures r[i] in rank && lo < rank[r[i]] {
      if i > 0 {
        assert r[i] == r'[i - 1];
      }
    }
  }

  /** A sequence whose ranks strictly increase, all strictly between lo and n, has at most n - lo - 1 elements. */
  lemma {:induction false} RanksBound(rank: map<string, nat>, r: seq<string>, lo: int, n: nat)
    requires lo < n
    requires forall i :: 0 <= i < |r| ==> r[i] in rank && lo < rank[r[i]] < n
    requires forall i, j :: 0 <= i < j < |r| ==> rank[r[i]] < rank[r[j]]
    ensures |r| <= n - lo - 1
    decreases |r|
  {
    if |r| > 0 {
      var init := r[..|r| - 1];
      assert forall i :: 0 <= i < |init| ==> init[i] == r[i];
      if |r| > 1 {
        assert rank[r[|r| - 2]] < rank[r[|r| - 1]];
      }
      RanksBound(rank, init, lo, rank[r[|r| - 1]]);
    }
  }

  /** A walk from y can be prefixed by an edge x -> y. */
  lemma {:induction false} PathPrepend(edges: seq<Edge>, x: string, p: seq<string>, y: string, z: string)
    requires HasEdge(edges, x, y) && IsPath(edges, p, y, z)
    ensures IsPath(edges, [x] + p, x, z)
    decreases |p|
  {
    if |p| > 1 {
      var q := p[..|p| - 1];
      PathPrepend(edges, x, q, y, p[|p| - 2]);
      assert ([x] + p)[..|p|] == [x] + q;
    } else {
      assert [x] + p == [x, y];
      assert ([x] + p)[..1] == [x];
    }
  }

  /** Every predecessor entry follows an edge, so every node of the chain from x is reachable from x. */
  lemma {:induction false} WalkReachable(edges: seq<Edge>, pred: map<string, string>, x: string, fuel: nat)
    requires forall y :: y in pred ==> HasEdge(edges, y, pred[y])
    ensures forall i :: 0 <= i < |Walk(pred, x, fuel)| ==> Reachable(edges, x, Walk(pred, x, fuel)[i])
    decreases fuel
  {
    var r := Walk(pred, x, fuel);
    if fuel > 0 && x in pred {
      var y := pred[x];
      WalkReachable(edges, pred, y, fuel - 1);
      var r' := Walk(pred, y, fuel - 1);
      forall i | 0 <= i < |r| ensures Reachable(edges, x, r[i]) {
        if i == 0 {
          PathPrepend(edges, x, [y], y, y);
          assert IsPath(edges, [x, y], x, y);
        } else {
          assert r[i] == r'[i - 1];
          var p :| IsPath(edges, p, y, r'[i - 1]);
          PathPrepend(edges, x, p, y, r'[i - 1]);
        }
      }
    }
  }

  /** Every predecessor entry names a node that has a closer entry, so the chain can be priced. */
  predicate ClosedChain(t: Tables) {
    t.predecessors.Values <= t.closer.Keys
  }

  lemma ChainClosed(edges: seq<Edge>, s: string, t: Tables, rank: map<string, nat>)
    requires Tabled(edges, s, t) && Ranked(edges, t, rank)
    ensures ClosedChain(t)
  {
    forall v | v in t.predecessors.Values ensures v in t.closer {
      var y :| y in t.predecessors && t.predecessors[y] == v;
    }
  }

  /**
   * `getCloserThan(w, x)` on tables t, in the order the loop meets them: the
   * chain of predecessor entries from x, cut before the first node whose
   * running int sum of closer entries exceeds w.
   */
  function CloserThan(t: Tables, w: Int32, x: string): seq<string>
    requires ClosedChain(t)
  {
    CloserPrefix(t.closer, Walk(t.predecessors, x, |t.settled|), w, 0)
  }

  /** Fewer steps than fuel means the chain stopped at a node without predecessor entry. */
  lemma {:induction false} WalkStops(pred: map<string, string>, x: string, fuel: nat)
    requires |Walk(pred, x, fuel)| < fuel
    ensures var r := Walk(pred, x, fuel); (if |r| == 0 then x else r[|r| - 1]) !in pred
    decreases fuel
  {
    if x in pred {
      WalkStops(pred, pred[x], fuel - 1);
    }
  }

  /**
   * After a complete run the chain from any x ends, within |settled| steps,
   * at a node without predecessor entry: `getCloserThan`'s loop terminates,
   * and CloserThan follows the whole chain.
   */
  lemma WalkComplete(edges: seq<Edge>, s: string, t: Tables, rank: map<string, nat>, x: string)
    requires Tabled(edges, s, t) && Ranked(edges, t, rank) && t.unsettled == {}
    ensures var r := Walk(t.predecessors, x, |t.settled|);
      (if |r| == 0 then x else r[|r| - 1]) !in t.predecessors
  {
    var r := Walk(t.predecessors, x, |t.settled|);
    WalkRanked(edges, t, rank, x, |t.settled|);
    if x in t.predecessors {
      WalkStops(t.predecessors, x, |t.settled|);
    }
  }

  /** What a complete run leaves behind satisfies the chain conditions getCloserThan relies on. */
  lemma CompleteRunChain(edges: seq<Edge>, s: string, picks: seq<string>)
    returns (rank: map<string, nat>)
    requires CompleteRun(edges, s, picks)
    ensures var t := Replay(edges, s, picks);
      && Ranked(edges, t, rank) && t.distance.Keys == t.settled && ClosedChain(t)
      && s in t.settled && t.predecessors.Keys <= t.settled
  {
    var paths;
    rank, paths := RunInvariant(edges, s, picks);
    ChainClosed(edges, s, Replay(edges, s, picks), rank);
  }

  /**
   * What `getCloserThan(w, s)` returns after `execute(s)`: the nodes it
   * collects are reachable from s, never s itself, and pairwise distinct.
   */
  lemma CloserThanReachable(edges: seq<Edge>, s: string, picks: seq<string>, w: Int32)
    requires CompleteRun(edges, s, picks)
    ensures var t := Replay(edges, s, picks);
      && ClosedChain(t)
      && (forall i :: 0 <= i < |CloserThan(t, w, s)| ==>
            CloserThan(t, w, s)[i] != s && Reachable(edges, s, CloserThan(t, w, s)[i]))
      && (forall i, j :: 0 <= i < j < |CloserThan(t, w, s)| ==> CloserThan(t, w, s)[i] != CloserThan(t, w, s)[j])
  {
    var t := Replay(edges, s, picks);
    var rank := CompleteRunChain(edges, s, picks);
    var c := Walk(t.predecessors, s, |t.settled|);
    WalkRanked(edges, t, rank, s, |t.settled|);
    WalkReachable(edges, t.predecessors, s, |t.settled|);
    CloserPrefixIsPrefix(t.closer, c, w, 0);
    var r := CloserThan(t, w, s);
    forall i | 0 <= i < |r| ensures r[i] != s && Reachable(edges, s, r[i]) {
      assert r[i] == c[i];
    }
    forall i, j | 0 <= i < j < |r| ensures r[i] != r[j] {
      assert r[i] == c[i] && r[j] == c[j];
    }
  }

  /**
   * The state of `getCloserThan`'s loop at node x with fuel steps left and
   * running sum acc: collected followed by what the chain from x still
   * yields is the whole answer.
   */
  ghost predicate CloserRest(closer: map<string, Int32>, pred: map<string, string>, w: Int32, x: string, fuel: nat,
                             acc: Int32, collected: seq<string>, whole: seq<string>) {
    pred.Values <= closer.Keys && whole == collected + CloserPrefix(closer, Walk(pred, x, fuel), w, acc)
  }

  /**
   * One turn of `getCloserThan`'s loop on the chain: the step to x's
   * predecessor entry y either ends the walk (the sum passes w) or collects y.
   */
  lemma CloserTurn(closer: map<string, Int32>, pred: map<string, string>, w: Int32, x: string, fuel: nat, acc: Int32,
                   collected: seq<string>, whole: seq<string>, y: string, fuel': nat, acc': Int32)
    requires CloserRest(closer, pred, w, x, fuel, acc, collected, whole) && x in pred && fuel == fuel' + 1
    requires y == pred[x] && y in closer && acc' == Wrap(acc + closer[y])
    ensures acc' > w ==> whole == collected
    ensures acc' <= w ==> CloserRest(closer, pred, w, y, fuel', acc', collected + [y], whole)
  {
    var c := Walk(pred, x, fuel);
    assert c[0] == y && c[1..] == Walk(pred, y, fuel');
    if acc' <= w {
      var rest := CloserPrefix(closer, Walk(pred, y, fuel'), w, acc');
      assert collected + ([y] + rest) == (collected + [y]) + rest;
    }
  }

  /** `getCloserThan`'s loop stops at a node without predecessor entry: nothing more is collected. */
  lemma CloserEnd(closer: map<string, Int32>, pred: map<string, string>, w: Int32, x: string, fuel: nat,
                  acc: Int32, collected: seq<string>, whole: seq<string>)
    requires CloserRest(closer, pred, w, x, fuel, acc, collected, whole) && x !in pred
    ensures whole == collected
  {
    assert collected + [] == collected;
  }

  /**
   * One turn of `getCloserThan`'s loop on the ranks: a node with a
   * predecessor entry leaves fuel for the step, and the step lands on a
   * settled node of higher rank.
   */
  lemma ChainTurn(edges: seq<Edge>, t: Tables, rank: map<string, nat>, x: string, fuel: nat)
    requires Ranked(edges, t, rank) && t.distance.Keys == t.settled
    requires x in t.predecessors && (x in t.settled ==> rank[x] + fuel >= |t.settled|)
    ensures fuel > 0 && t.predecessors[x] in t.settled && rank[t.predecessors[x]] + (fuel - 1) >= |t.settled|
  {
  }

  /** The node picked by a turn of a valid run is new, and every node the run settles lies in the universe. */
  lemma RunProgress(edges: seq<Edge>, s: string, picks: seq<string>, x: string)
    requires ValidRun(edges, s, picks) && x in Replay(edges, s, picks).unsettled
    ensures var t := Replay(edges, s, picks);
      x !in t.settled && x in Universe(edges, s) && t.settled <= Universe(edges, s)
  {
    var rank, paths := RunInvariant(edges, s, picks);
  }

  /**
   * The run of `execute(s)` as the sequence of tables it passes through:
   * states[i] is the tables before the i-th pick, which is a minimum there,
   * and states[i + 1] is what that turn leaves.
   */
  ghost predicate History(edges: seq<Edge>, s: string, picks: seq<string>, states: seq<Tables>) {
    && |states| == |picks| + 1
    && states[0] == Start(s)
    && forall i :: 0 <= i < |picks| ==> IsMinimum(states[i], picks[i]) && states[i + 1] == Step(edges, states[i], picks[i])
  }

  /** A history is a valid run whose last state is the replay of its picks. */
  lemma {:induction false} HistoryReplay(edges: seq<Edge>, s: string, picks: seq<string>, states: seq<Tables>)
    requires History(edges, s, picks, states)
    ensures ValidRun(edges, s, picks) && Replay(edges, s, picks) == states[|picks|]
    decreases |picks|
  {
    if |picks| > 0 {
      var n := |picks| - 1;
      assert History(edges, s, picks[..n], states[..n + 1]) by {
        forall i | 0 <= i < n
          ensures IsMinimum(states[..n + 1][i], picks[..n][i])
          ensures states[..n + 1][i + 1] == Step(edges, states[..n + 1][i], picks[..n][i])
        {
          assert IsMinimum(states[i], picks[i]) && states[i + 1] == Step(edges, states[i], picks[i]);
        }
      }
      HistoryReplay(edges, s, picks[..n], states[..n + 1]);
      assert IsMinimum(states[n], picks[n]) && states[n + 1] == Step(edges, states[n], picks[n]);
    }
  }

  /**
   * One turn of `execute`'s loop: the history grows by the picked minimum
   * and the tables it leaves; the minimum is a new node, and the settled
   * nodes, all named by the source or an edge, number at most |edges| before
   * it, so the loop terminates.
   */
  lemma HistoryTurn(edges: seq<Edge>, s: string, picks: seq<string>, states: seq<Tables>, x: string)
    requires History(edges, s, picks, states) && IsMinimum(states[|picks|], x)
    ensures History(edges, s, picks + [x], states + [Step(edges, states[|picks|], x)])
    ensures x !in states[|picks|].settled && |states[|picks|].settled| + 1 <= |edges| + 1
  {
    var settled := states[|picks|].settled;
    HistoryReplay(edges, s, picks, states);
    RunProgress(edges, s, picks, x);
    SubsetCard(settled + {x}, Universe(edges, s));
    UniverseSize(edges, s);
    var picks' := picks + [x];
    var states' := states + [Step(edges, states[|picks|], x)];
    forall i | 0 <= i < |picks'|
      ensures IsMinimum(states'[i], picks'[i]) && states'[i + 1] == Step(edges, states'[i], picks'[i])
    {
      if i < |picks| {
        assert IsMinimum(states[i], picks[i]) && states[i + 1] == Step(edges, states[i], picks[i]);
      }
    }
  }

  /** A history that ends with nothing unsettled leaves the chain facts getCloserThan needs. */
  lemma HistoryComplete(edges: seq<Edge>, s: string, picks: seq<string>, states: seq<Tables>)
    returns (rank: map<string, nat>)
    requires History(edges, s, picks, states) && states[|picks|].unsettled == {}
    ensures var t := states[|picks|];
      Ranked(edges, t, rank) && t.distance.Keys == t.settled && ClosedChain(t)
  {
    HistoryReplay(edges, s, picks, states);
    rank := CompleteRunChain(edges, s, picks);
  }
}

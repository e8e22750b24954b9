/**
 * TourProperties: what the tour built by NearestNeighbor guarantees, proved
 * about the reference tour NearestNeighborTour that the builder computes.
 */
module TourProperties {
  import opened Cities
  import opened TSP

  // --------------------------------------------------------------- shape

  /**
   * The path and the weights have one entry per city plus the closing one;
   * the tour starts from the city with id startId (the last such city in list
   * order, or the first city when there is none) with weight 0, and ends
   * where it started.
   */
  lemma TourShape(cities: seq<Node>, startId: nat, dist: Distance)
    requires |cities| > 0
    ensures var t := NearestNeighborTour(cities, startId, dist);
            var n := |cities|;
            |t.path| == n + 1 && |t.weights| == n + 1 &&
            t.path[0] == cities[StartIndex(cities, startId)] && t.weights[0] == 0 &&
            ((exists i :: 0 <= i < n && cities[i].id == startId) ==> t.path[0].id == startId) &&
            t.path[n] == t.path[0]
  {
  }

  /**
   * Setup splits the input into the start city and the working list: together
   * they are exactly the input cities, and the start city carries id startId
   * whenever some city does.
   */
  lemma SetupSplitsInput(cities: seq<Node>, startId: nat)
    requires |cities| > 0
    ensures var w := Initial(cities, startId);
            multiset(w.cities) + multiset{w.curr} == multiset(cities) &&
            ((exists i :: 0 <= i < |cities| && cities[i].id == startId) ==> w.curr.id == startId)
  {
    RemoveAtMultiset(cities, StartIndex(cities, startId));
  }

  /** The first i + 1 cities visited from w are w's current city and then those visited from the next state. */
  lemma VisitsPrefix(w: Working, i: nat, dist: Distance)
    requires 0 < i <= |w.cities|
    ensures Visits(w, dist)[..i + 1] == [w.curr] + Visits(Advance(w, dist), dist)[..i]
  {
  }

  // ------------------------------------------------------------ coverage

  /**
   * Whatever has been visited after i steps, together with the working list,
   * is the city the walk started from plus the list it started with.
   */
  lemma {:induction false} StepsMultiset(w: Working, i: nat, dist: Distance)
    requires i <= |w.cities|
    ensures multiset(Visits(w, dist)[..i + 1]) + multiset(Steps(w, i, dist).cities)
            == multiset{w.curr} + multiset(w.cities)
    decreases i
  {
    if i > 0 {
      var next := Advance(w, dist);
      var visited := Visits(next, dist)[..i];
      var left := Steps(next, i - 1, dist).cities;
      StepsMultiset(next, i - 1, dist);
      assert multiset(visited) + multiset(left) == multiset{next.curr} + multiset(next.cities);
      RemoveAtMultiset(w.cities, Nearest(w.curr, w.cities, dist));
      VisitsPrefix(w, i, dist);
      calc {
        multiset(Visits(w, dist)[..i + 1]) + multiset(Steps(w, i, dist).cities);
        multiset([w.curr] + visited) + multiset(left);
        multiset{w.curr} + (multiset(visited) + multiset(left));
        multiset{w.curr} + (multiset{next.curr} + multiset(next.cities));
        multiset{w.curr} + multiset(w.cities);
      }
    }
  }

  /**
   * The working list after i iterations of the main loop holds exactly the
   * input cities not yet on the path, and one city fewer per iteration.
   */
  lemma WorkingListAt(cities: seq<Node>, startId: nat, dist: Distance, i: nat)
    requires |cities| > 0 && i < |cities|
    ensures var t := NearestNeighborTour(cities, startId, dist);
            var w := Steps(Initial(cities, startId), i, dist);
            |w.cities| == |cities| - 1 - i &&
            w.curr == t.path[i] &&
            multiset(w.cities) == multiset(cities) - multiset(t.path[..i + 1])
  {
    var w0 := Initial(cities, startId);
    var t := NearestNeighborTour(cities, startId, dist);
    var visited := Visits(w0, dist)[..i + 1];
    var left := Steps(w0, i, dist).cities;
    StepsMultiset(w0, i, dist);
    RemoveAtMultiset(cities, StartIndex(cities, startId));
    assert multiset(visited) + multiset(left) == multiset(cities);
    VisitsAt(w0, i, dist);
    assert t.path[..i + 1] == visited;
    MultisetDifference(multiset(visited), multiset(left), multiset(cities));
  }

  /** Taking away one part of a sum leaves the other. */
  lemma MultisetDifference(a: multiset<Node>, b: multiset<Node>, c: multiset<Node>)
    requires a + b == c
    ensures b == c - a
  {
  }

  /** The first n cities of the path are a permutation of the input: each city is visited exactly once. */
  lemma TourVisitsEveryCityOnce(cities: seq<Node>, startId: nat, dist: Distance)
    requires |cities| > 0
    ensures var t := NearestNeighborTour(cities, startId, dist);
            multiset(t.path[..|cities|]) == multiset(cities)
  {
    var w0 := Initial(cities, startId);
    var t := NearestNeighborTour(cities, startId, dist);
    var visited := Visits(w0, dist)[..|w0.cities| + 1];
    StepsMultiset(w0, |w0.cities|, dist);
    assert Steps(w0, |w0.cities|, dist).cities == [];
    assert multiset(visited) == multiset{w0.curr} + multiset(w0.cities);
    RemoveAtMultiset(cities, StartIndex(cities, startId));
    assert multiset{w0.curr} + multiset(w0.cities) == multiset(cities);
    assert t.path[..|cities|] == visited;
  }

  // -------------------------------------------------------------- greedy

  /** Step i of the tour moves from the current city to the city Nearest picks from the working list. */
  lemma TourStepPicksNearest(cities: seq<Node>, startId: nat, dist: Distance, i: nat)
    requires |cities| > 0 && 1 <= i < |cities|
    ensures var t := NearestNeighborTour(cities, startId, dist);
            var w := Steps(Initial(cities, startId), i - 1, dist);
            t.path[i - 1] == w.curr &&
            t.path[i] == w.cities[Nearest(w.curr, w.cities, dist)] &&
            t.weights[i] == dist(t.path[i - 1], t.path[i])
  {
    var w0 := Initial(cities, startId);
    StepsSucc(w0, i - 1, dist);
    VisitsAt(w0, i - 1, dist);
    VisitsAt(w0, i, dist);
    LegsAt(w0, i - 1, dist);
  }

  /**
   * Step i of the tour: the edge weight is the distance from the previous
   * city, no city of the working list at that step is closer, and every city
   * before the chosen one in list order is strictly farther.
   */
  lemma TourGreedyStep(cities: seq<Node>, startId: nat, dist: Distance, i: nat)
    requires |cities| > 0 && 1 <= i < |cities|
    ensures var t := NearestNeighborTour(cities, startId, dist);
            var w := Steps(Initial(cities, startId), i - 1, dist);
            t.path[i - 1] == w.curr &&
            t.weights[i] == dist(t.path[i - 1], t.path[i]) &&
            (forall c :: c in w.cities ==> t.weights[i] <= dist(t.path[i - 1], c)) &&
            exists k :: 0 <= k < |w.cities| && w.cities[k] == t.path[i] &&
                        forall j :: 0 <= j < k ==> t.weights[i] < dist(t.path[i - 1], w.cities[j])
  {
    var t := NearestNeighborTour(cities, startId, dist);
    var w := Steps(Initial(cities, startId), i - 1, dist);
    TourStepPicksNearest(cities, startId, dist, i);
    var k := Nearest(w.curr, w.cities, dist);
    NearestIsFirstNearest(w.curr, w.cities, dist);
    forall c | c in w.cities
      ensures t.weights[i] <= dist(t.path[i - 1], c)
    {
      var j :| 0 <= j < |w.cities| && w.cities[j] == c;
    }
    assert w.cities[k] == t.path[i];
  }

  /**
   * Greedy locality stated on the tour alone: each edge goes to a city no
   * farther than any city not yet visited at that step.
   */
  lemma TourGreedyLocality(cities: seq<Node>, startId: nat, dist: Distance, i: nat)
    requires |cities| > 0 && 1 <= i < |cities|
    ensures var t := NearestNeighborTour(cities, startId, dist);
            t.weights[i] == dist(t.path[i - 1], t.path[i]) &&
            forall c :: c in multiset(cities) - multiset(t.path[..i]) ==> t.weights[i] <= dist(t.path[i - 1], c)
  {
    var t := NearestNeighborTour(cities, startId, dist);
    var w := Steps(Initial(cities, startId), i - 1, dist);
    WorkingListAt(cities, startId, dist, i - 1);
    TourGreedyStep(cities, startId, dist, i);
    forall c | c in multiset(cities) - multiset(t.path[..i])
      ensures t.weights[i] <= dist(t.path[i - 1], c)
    {
      assert c in multiset(w.cities);
      assert c in w.cities;
    }
  }

  // --------------------------------------------------------------- order

  /** a is b with some positions dropped: a[i] sits at position f[i] of b, and f increases. */
  ghost predicate Embedding(a: seq<Node>, b: seq<Node>, f: seq<nat>)
  {
    |f| == |a| &&
    (forall i :: 0 <= i < |f| ==> f[i] < |b| && a[i] == b[f[i]]) &&
    (forall i, j :: 0 <= i < j < |f| ==> f[i] < f[j])
  }

  /** The positions 0, 1, ..., n - 1. */
  function Positions(n: nat): (r: seq<nat>)
    ensures |r| == n && forall i :: 0 <= i < n ==> r[i] == i
  {
    if n == 0 then [] else Positions(n - 1) + [n - 1]
  }

  /** Erasing position k keeps an embedding: the positions of the other cities, with k's dropped. */
  lemma EraseKeepsEmbedding(list: seq<Node>, b: seq<Node>, f: seq<nat>, k: nat)
    requires Embedding(list, b, f) && k < |list|
    ensures Embedding(RemoveAt(list, k), b, f[..k] + f[k + 1..])
  {
    var g := f[..k] + f[k + 1..];
    forall i | 0 <= i < |g|
      ensures g[i] < |b| && RemoveAt(list, k)[i] == b[g[i]]
    {
      RemoveAtKeepsOrder(list, k, i);
      assert g[i] == if i < k then f[i] else f[i + 1];
    }
    forall i, j | 0 <= i < j < |g|
      ensures g[i] < g[j]
    {
      assert g[i] == if i < k then f[i] else f[i + 1];
      assert g[j] == if j < k then f[j] else f[j + 1];
    }
  }

  /** Further steps keep the working list embedded in b. */
  lemma {:induction false} StepsKeepEmbedding(w: Working, i: nat, b: seq<Node>, f: seq<nat>, dist: Distance)
    requires i <= |w.cities| && Embedding(w.cities, b, f)
    ensures exists g :: Embedding(Steps(w, i, dist).cities, b, g)
    decreases i
  {
    if i == 0 {
      assert Embedding(Steps(w, i, dist).cities, b, f);
    } else {
      var k := Nearest(w.curr, w.cities, dist);
      EraseKeepsEmbedding(w.cities, b, f, k);
      assert Advance(w, dist).cities == RemoveAt(w.cities, k);
      StepsKeepEmbedding(Advance(w, dist), i - 1, b, f[..k] + f[k + 1..], dist);
      assert Steps(w, i, dist) == Steps(Advance(w, dist), i - 1, dist);
    }
  }

  /**
   * The working list after i iterations is the input list with some cities
   * dropped, the rest in their input order.
   */
  lemma WorkingListInInputOrder(cities: seq<Node>, startId: nat, dist: Distance, i: nat)
    requires |cities| > 0 && i < |cities|
    ensures exists f :: Embedding(Steps(Initial(cities, startId), i, dist).cities, cities, f)
  {
    var s := StartIndex(cities, startId);
    assert Embedding(cities, cities, Positions(|cities|));
    EraseKeepsEmbedding(cities, cities, Positions(|cities|), s);
    StepsKeepEmbedding(Initial(cities, startId), i, cities, Positions(|cities|)[..s] + Positions(|cities|)[s + 1..], dist);
  }

  /**
   * Tie-break against the input order: step i picks a city that stands at
   * some position of the input, and every city still in the working list that
   * stands earlier in the input is strictly farther from the previous city.
   */
  lemma TourTieBreakInInputOrder(cities: seq<Node>, startId: nat, dist: Distance, i: nat)
    requires |cities| > 0 && 1 <= i < |cities|
    ensures var t := NearestNeighborTour(cities, startId, dist);
            var w := Steps(Initial(cities, startId), i - 1, dist);
            exists f :: Embedding(w.cities, cities, f) &&
              exists k :: 0 <= k < |f| && cities[f[k]] == t.path[i] &&
                forall j :: 0 <= j < |f| && f[j] < f[k] ==> t.weights[i] < dist(t.path[i - 1], cities[f[j]])
  {
    var t := NearestNeighborTour(cities, startId, dist);
    var w := Steps(Initial(cities, startId), i - 1, dist);
    WorkingListInInputOrder(cities, startId, dist, i - 1);
    var f :| Embedding(w.cities, cities, f);
    var k := Nearest(w.curr, w.cities, dist);
    assert t.path[i - 1] == w.curr && t.path[i] == w.cities[k] && t.weights[i] == dist(w.curr, w.cities[k]) by {
      TourStepPicksNearest(cities, startId, dist, i);
    }
    NearestIsFirstNearest(w.curr, w.cities, dist);
    FirstNearestInInputOrder(w.curr, w.cities, cities, f, k, dist);
  }

  /** The first nearest city of an embedded list is also first among those cities in the order of b. */
  lemma FirstNearestInInputOrder(curr: Node, list: seq<Node>, b: seq<Node>, f: seq<nat>, k: nat, dist: Distance)
    requires Embedding(list, b, f) && IsFirstNearest(curr, list, dist, k)
    ensures k < |f| && b[f[k]] == list[k]
    ensures forall j :: 0 <= j < |f| && f[j] < f[k] ==> dist(curr, list[k]) < dist(curr, b[f[j]])
  {
    forall j | 0 <= j < |f| && f[j] < f[k]
      ensures dist(curr, list[k]) < dist(curr, b[f[j]])
    {
      assert j < k;
      assert list[j] == b[f[j]];
    }
  }


  // ------------------------------------------------------------- closing

  /** The closing edge runs between the start city and the last city visited. */
  lemma TourClosingEdge(cities: seq<Node>, startId: nat, dist: Distance)
    requires |cities| > 0
    ensures var t := NearestNeighborTour(cities, startId, dist);
            var n := |cities|;
            t.path[n] == t.path[0] && t.weights[n] == dist(t.path[0], t.path[n - 1])
  {
    var w0 := Initial(cities, startId);
    LastCityAt(w0, dist);
    VisitsAt(w0, |w0.cities|, dist);
  }

  /** A single city: the tour goes out to it and straight back. */
  lemma SingleCityTour(c: Node, startId: nat, dist: Distance)
    ensures var t := NearestNeighborTour([c], startId, dist);
            t.path == [c, c] && t.weights == [0, dist(c, c)] && t.totalDistance == dist(c, c)
  {
    var t := NearestNeighborTour([c], startId, dist);
    assert Sum(t.weights) == Sum([0]) + dist(c, c) by {
      assert t.weights[..1] == [0];
    }
  }

  // ------------------------------------------- line 125 as it is written

  /**
   * Dereferencing an iterator into the working list. An iterator only
   * designates an element while that element is still in the list.
   */
  function Deref(list: seq<Node>, pos: nat): (r: Option<Node>)
    ensures r.Some? <==> pos < |list|
    ensures r.Some? ==> r.value in list
  {
    if pos < |list| then Some(list[pos]) else None
  }

  /**
   * The closing weight as line 125 computes it: from the front of the path to
   * the element `it_currCity` designates in the working list, if any.
   */
  function ClosingWeightAsWritten(front: Node, list: seq<Node>, pos: nat, dist: Distance): (r: Option<int>)
    ensures r.Some? <==> pos < |list|
  {
    match Deref(list, pos)
    case None => None
    case Some(c) => Some(dist(front, c))
  }

  /**
   * When line 125 runs, the main loop has emptied the working list, so
   * `it_currCity` designates no element: the closing weight as written is
   * undefined for every input, whatever position the iterator stands for.
   */
  lemma ClosingAsWrittenUndefined(cities: seq<Node>, startId: nat, dist: Distance, pos: nat)
    requires |cities| > 0
    ensures var w0 := Initial(cities, startId);
            ClosingWeightAsWritten(w0.curr, Steps(w0, |w0.cities|, dist).cities, pos, dist) == None
  {
  }

  // ------------------------------------------------------------ scenarios

  /** A distance that is 1 between any two different cities and 0 from a city to itself. */
  function UniformDistance(p: Node, q: Node): (d: int)
    ensures 0 <= d < INT_MAX
    ensures d == 0 <==> p == q
  {
    if p == q then 0 else 1
  }

  /** No city occurs twice. */
  ghost predicate Distinct(s: seq<Node>)
  {
    forall i, j :: 0 <= i < j < |s| ==> s[i] != s[j]
  }

  /** With every candidate equally far, the step takes the front of the working list. */
  lemma EquidistantAdvance(curr: Node, list: seq<Node>)
    requires list != [] && curr !in list
    ensures Advance(Working(curr, list), UniformDistance) == Working(list[0], list[1..])
  {
    assert IsFirstNearest(curr, list, UniformDistance, 0);
    NearestIsFirstNearest(curr, list, UniformDistance);
    FirstNearestUnique(curr, list, UniformDistance, 0, Nearest(curr, list, UniformDistance));
  }

  /** A list without repetitions: its front is not in its tail, and its tail has no repetitions. */
  lemma DistinctTail(s: seq<Node>)
    requires s != [] && Distinct(s)
    ensures s[0] !in s[1..] && Distinct(s[1..])
  {
    forall i, j | 0 <= i < j < |s| - 1
      ensures s[1..][i] != s[1..][j]
    {
      assert s[1..][i] == s[i + 1] && s[1..][j] == s[j + 1];
    }
    forall k | 0 <= k < |s| - 1
      ensures s[1..][k] != s[0]
    {
      assert s[1..][k] == s[k + 1];
    }
  }

  /**
   * Tie-break: when every candidate is equally far, the loop visits the
   * working list in its own order, whatever the ids are.
   */
  lemma {:induction false} EquidistantVisitsFollowListOrder(curr: Node, list: seq<Node>)
    requires curr !in list && Distinct(list)
    ensures Visits(Working(curr, list), UniformDistance) == [curr] + list
    decreases |list|
  {
    if list != [] {
      var next := Working(list[0], list[1..]);
      assert Advance(Working(curr, list), UniformDistance) == next by { EquidistantAdvance(curr, list); }
      assert Visits(next, UniformDistance) == list by {
        DistinctTail(list);
        EquidistantVisitsFollowListOrder(list[0], list[1..]);
        assert list == [list[0]] + list[1..];
      }
      VisitsUnfold(Working(curr, list), UniformDistance);
    }
  }

  /** A start id carried by the first city only selects the first city, and the rest keeps its order. */
  lemma StartAtFront(cities: seq<Node>, startId: nat)
    requires |cities| > 0
    requires cities[0].id == startId && forall j :: 0 < j < |cities| ==> cities[j].id != startId
    ensures Initial(cities, startId) == Working(cities[0], cities[1..])
  {
    assert StartIndex(cities, startId) == 0;
  }

  /**
   * A tour over equidistant cities starting at the first city follows the
   * input order and returns to the start.
   */
  lemma EquidistantTourFollowsListOrder(cities: seq<Node>, startId: nat)
    requires |cities| > 0 && Distinct(cities)
    requires cities[0].id == startId && forall j :: 0 < j < |cities| ==> cities[j].id != startId
    ensures NearestNeighborTour(cities, startId, UniformDistance).path == cities + [cities[0]]
  {
    var w0 := Working(cities[0], cities[1..]);
    assert Initial(cities, startId) == w0 by { StartAtFront(cities, startId); }
    assert Visits(w0, UniformDistance) == cities by {
      DistinctTail(cities);
      EquidistantVisitsFollowListOrder(cities[0], cities[1..]);
      assert [cities[0]] + cities[1..] == cities;
    }
    TourPath(cities, startId, UniformDistance);
  }

  /** Cities 1, 3, 2 all one apart: the tour is 1 -> 3 -> 2 -> 1, in list order rather than id order. */
  lemma TieBreakFollowsListOrder()
    ensures var a, b, c := Node(1, 0.0, 0.0), Node(3, 1.0, 0.0), Node(2, 0.0, 1.0);
            NearestNeighborTour([a, b, c], 1, UniformDistance).path == [a, b, c, a]
  {
    var a, b, c := Node(1, 0.0, 0.0), Node(3, 1.0, 0.0), Node(2, 0.0, 1.0);
    EquidistantTourFollowsListOrder([a, b, c], 1);
  }

  /**
   * The Euclidean distance between two cities on the x-axis, truncated to an
   * integer as the builder stores it; gaps that do not fit below INT_MAX are
   * mapped to 0 so that the distance stays in range.
   */
  function AxisDistance(p: Node, q: Node): (d: int)
    ensures 0 <= d < INT_MAX
  {
    var gap := if p.x <= q.x then q.x - p.x else p.x - q.x;
    if gap < INT_MAX as real then gap.Floor else 0
  }

  const LineA: Node := Node(1, 0.0, 0.0)
  const LineB: Node := Node(2, 1.0, 0.0)
  const LineC: Node := Node(3, 2.0, 0.0)

  /** From the left end, the middle city is the nearest; then the right end is all that is left. */
  lemma LineWalk()
    ensures Advance(Working(LineA, [LineB, LineC]), AxisDistance) == Working(LineB, [LineC])
    ensures Advance(Working(LineB, [LineC]), AxisDistance) == Working(LineC, [])
  {
    assert AxisDistance(LineA, LineB) == 1 && AxisDistance(LineA, LineC) == 2;
    assert Nearest(LineA, [LineB, LineC], AxisDistance) == 0;
  }

  /** The visits, the recorded distances and the last city of the walk along the line. */
  lemma LineVisits()
    ensures var w0 := Working(LineA, [LineB, LineC]);
            Visits(w0, AxisDistance) == [LineA, LineB, LineC] &&
            Legs(w0, AxisDistance) == [1, 1] &&
            LastCity(w0, AxisDistance) == LineC
  {
    var w0 := Working(LineA, [LineB, LineC]);
    var w1 := Working(LineB, [LineC]);
    var w2 := Working(LineC, []);
    LineWalk();
    assert Visits(w0, AxisDistance) == [LineA] + Visits(w1, AxisDistance) == [LineA, LineB, LineC];
    assert Legs(w0, AxisDistance) == [1] + Legs(w1, AxisDistance) == [1, 1];
    assert LastCity(w0, AxisDistance) == LastCity(w1, AxisDistance) == LastCity(w2, AxisDistance) == LineC;
  }

  /** The start city with id 1 is the left end; the rest of the list keeps its order. */
  lemma LineStart()
    ensures Initial([LineA, LineB, LineC], 1) == Working(LineA, [LineB, LineC])
  {
    assert StartIndex([LineA, LineB, LineC], 1) == 0;
  }

  /** Three cities on a line, started from the left end: 1 -> 2 -> 3 -> 1 with weights 0, 1, 1, 2, total 4. */
  lemma ThreeCitiesOnALine()
    ensures var t := NearestNeighborTour([LineA, LineB, LineC], 1, AxisDistance);
            t.path == [LineA, LineB, LineC, LineA] && t.weights == [0, 1, 1, 2] && t.totalDistance == 4
  {
    LineStart();
    LineVisits();
    var w0 := Working(LineA, [LineB, LineC]);
    assert AxisDistance(w0.curr, LastCity(w0, AxisDistance)) == 2;
    LineWeights();
    SumOfLineWeights();
  }

  /** The closed path and the weights of the walk, written out. */
  lemma LineWeights()
    ensures [LineA, LineB, LineC] + [LineA] == [LineA, LineB, LineC, LineA]
    ensures [0] + [1, 1] + [2] == [0, 1, 1, 2]
  {
  }

  /** The weights of the walk along the line add up to 4. */
  lemma SumOfLineWeights()
    ensures Sum([0, 1, 1, 2]) == 4
  {
    assert [0, 1, 1, 2][..3] == [0, 1, 1] && [0, 1, 1][..2] == [0, 1] && [0, 1][..1] == [0];
    assert Sum([0, 1]) == 1;
  }

  /** The largest whole number r from n up whose square is at most sq. */
  function FloorSqrtFrom(sq: nat, n: nat): (r: nat)
    requires n * n <= sq
    ensures n <= r && r * r <= sq < (r + 1) * (r + 1)
    decreases sq - n
  {
    if (n + 1) * (n + 1) <= sq then
      assert n + 1 <= (n + 1) * (n + 1);
      FloorSqrtFrom(sq, n + 1)
    else n
  }

  /**
   * The Euclidean distance between two cities, truncated to an integer as
   * the builder stores it (a whole number r has r * r <= s exactly when
   * r * r <= s.Floor, so the root of the floored square is the truncated
   * distance); distances that do not fit below INT_MAX are mapped to 0 so
   * that the distance stays in range.
   */
  function EuclideanDistance(p: Node, q: Node): (d: int)
    ensures 0 <= d < INT_MAX
  {
    var dx, dy := q.x - p.x, q.y - p.y;
    assert dx * dx >= 0.0 && dy * dy >= 0.0;
    var r := FloorSqrtFrom((dx * dx + dy * dy).Floor, 0);
    if r < INT_MAX then r else 0
  }

  const PlaneA: Node := Node(1, 0.0, 0.0)
  const PlaneB: Node := Node(2, 3.0, 4.0)

  /** The two cities are 5 apart, in either direction. */
  lemma PlaneDistances()
    ensures EuclideanDistance(PlaneA, PlaneB) == 5 && EuclideanDistance(PlaneB, PlaneA) == 5
  {
    assert FloorSqrtFrom(25, 0) == 5;
  }

  /** The walk from the city at the origin: out to (3, 4) and nothing left. */
  lemma PlaneWalk()
    ensures var w0 := Working(PlaneA, [PlaneB]);
            Visits(w0, EuclideanDistance) == [PlaneA, PlaneB] &&
            Legs(w0, EuclideanDistance) == [5] &&
            LastCity(w0, EuclideanDistance) == PlaneB
  {
    var w0 := Working(PlaneA, [PlaneB]);
    PlaneDistances();
    assert Advance(w0, EuclideanDistance) == Working(PlaneB, []);
  }

  /** The closed path and the weights of the two-city tour, written out. */
  lemma PlaneTourLiterals()
    ensures [PlaneA, PlaneB] + [PlaneA] == [PlaneA, PlaneB, PlaneA]
    ensures [0] + [5] + [5] == [0, 5, 5]
    ensures Sum([0, 5, 5]) == 10
  {
    assert [0, 5, 5][..2] == [0, 5] && [0, 5][..1] == [0];
  }

  /** Two cities at (0, 0) and (3, 4), started at 1: 1 -> 2 -> 1 with weights 0, 5, 5, total 10. */
  lemma TwoCitiesInThePlane()
    ensures var t := NearestNeighborTour([PlaneA, PlaneB], 1, EuclideanDistance);
            t.path == [PlaneA, PlaneB, PlaneA] && t.weights == [0, 5, 5] && t.totalDistance == 10
  {
    var w0 := Working(PlaneA, [PlaneB]);
    assert Initial([PlaneA, PlaneB], 1) == w0 by {
      assert StartIndex([PlaneA, PlaneB], 1) == 0;
    }
    PlaneWalk();
    assert EuclideanDistance(w0.curr, LastCity(w0, EuclideanDistance)) == 5 by { PlaneDistances(); }
    PlaneTourLiterals();
  }
}

/**
 * TSP: the nearest-neighbour tour builder.
 *
 * The reference functions below describe the tour the builder produces, one
 * greedy step at a time; the methods are the builder itself, with its loops,
 * proved to compute exactly that tour.
 */
module TSP {
  import opened Cities

  /** The result of the builder: the visiting order, the weight of each edge and their sum. */
  datatype Tour = Tour(path: seq<Node>, weights: seq<int>, totalDistance: int)

  datatype Option<T> = None | Some(value: T)

  /** Sum of a sequence of weights. */
  function Sum(s: seq<int>): int
  {
    if s == [] then 0 else Sum(s[..|s| - 1]) + s[|s| - 1]
  }

  /** The list left by `std::list::erase` of the element at position k. */
  function RemoveAt(s: seq<Node>, k: nat): (r: seq<Node>)
    requires k < |s|
    ensures |r| == |s| - 1
  {
    s[..k] + s[k + 1..]
  }

  /** Erasing keeps the other cities in their order: those before k stay, those after move up by one. */
  lemma RemoveAtKeepsOrder(s: seq<Node>, k: nat, i: nat)
    requires k < |s| && i < |s| - 1
    ensures RemoveAt(s, k)[i] == if i < k then s[i] else s[i + 1]
  {
  }

  /** Erasing removes exactly one occurrence of the erased city. */
  lemma RemoveAtMultiset(s: seq<Node>, k: nat)
    requires k < |s|
    ensures multiset(RemoveAt(s, k)) + multiset{s[k]} == multiset(s)
  {
    assert s == s[..k] + [s[k]] + s[k + 1..];
  }

  // ---------------------------------------------------------------- setup

  /**
   * The position the setup loop settles on. The loop does not stop at a match,
   * so it is the LAST city whose id is startId; when there is none, the
   * iterator keeps its initial value, the first position.
   */
  function StartIndex(cities: seq<Node>, startId: nat): (s: nat)
    requires |cities| > 0
    ensures s < |cities|
    ensures (exists i :: 0 <= i < |cities| && cities[i].id == startId) ==>
              cities[s].id == startId && forall j :: s < j < |cities| ==> cities[j].id != startId
    ensures (forall i :: 0 <= i < |cities| ==> cities[i].id != startId) ==> s == 0
    decreases |cities|
  {
    if |cities| == 1 || cities[|cities| - 1].id == startId then |cities| - 1
    else StartIndex(cities[..|cities| - 1], startId)
  }

  /** The setup loop: scan the whole list for the start city. */
  method FindStart(cities: seq<Node>, startId: nat) returns (s: nat)
    requires |cities| > 0
    ensures s == StartIndex(cities, startId)
  {
    s := 0;
    var i := 0;
    while i < |cities|
      invariant 0 <= i <= |cities|
      invariant s < |cities|
      invariant (exists j :: 0 <= j < i && cities[j].id == startId) ==>
                  s < i && cities[s].id == startId && forall j :: s < j < i ==> cities[j].id != startId
      invariant (forall j :: 0 <= j < i ==> cities[j].id != startId) ==> s == 0
    {
      if cities[i].id == startId {
        s := i;
      }
      i := i + 1;
    }
    var t := StartIndex(cities, startId);
    if exists j :: 0 <= j < |cities| && cities[j].id == startId {
      assert !(s < t) && !(t < s);
    }
  }

  // ------------------------------------------------------ one greedy step

  /**
   * k is the first position of rest whose distance from curr is minimal: no
   * city is closer, and every city before it is strictly farther.
   */
  ghost predicate IsFirstNearest(curr: Node, rest: seq<Node>, dist: Distance, k: nat)
  {
    k < |rest| &&
    (forall j :: 0 <= j < |rest| ==> dist(curr, rest[k]) <= dist(curr, rest[j])) &&
    (forall j :: 0 <= j < k ==> dist(curr, rest[k]) < dist(curr, rest[j]))
  }

  /** At most one position is the first nearest one. */
  lemma FirstNearestUnique(curr: Node, rest: seq<Node>, dist: Distance, k1: nat, k2: nat)
    requires IsFirstNearest(curr, rest, dist, k1) && IsFirstNearest(curr, rest, dist, k2)
    ensures k1 == k2
  {
    assert dist(curr, rest[k1]) <= dist(curr, rest[k2]);
    assert dist(curr, rest[k2]) <= dist(curr, rest[k1]);
  }

  /** The city the greedy step picks from rest, as a position. */
  function Nearest(curr: Node, rest: seq<Node>, dist: Distance): (k: nat)
    requires |rest| > 0
    ensures k < |rest|
    decreases |rest|
  {
    if |rest| == 1 then 0
    else
      var k := Nearest(curr, rest[..|rest| - 1], dist);
      if dist(curr, rest[|rest| - 1]) < dist(curr, rest[k]) then |rest| - 1 else k
  }

  /** Nearest picks the first position of minimal distance. */
  lemma {:induction false} NearestIsFirstNearest(curr: Node, rest: seq<Node>, dist: Distance)
    requires |rest| > 0
    ensures IsFirstNearest(curr, rest, dist, Nearest(curr, rest, dist))
    decreases |rest|
  {
    if |rest| > 1 {
      var init := rest[..|rest| - 1];
      assert forall j :: 0 <= j < |init| ==> init[j] == rest[j];
      NearestIsFirstNearest(curr, init, dist);
    }
  }

  /**
   * The inner scan: starting from INT_MAX, keep the position of every distance
   * strictly below the best so far.
   */
  method ScanNearest(curr: Node, cities: seq<Node>, dist: Distance) returns (k: nat, shortest: int)
    requires ValidDistance(dist)
    requires |cities| > 0
    ensures IsFirstNearest(curr, cities, dist, k)
    ensures k == Nearest(curr, cities, dist)
    ensures shortest == dist(curr, cities[k])
  {
    shortest := INT_MAX;
    // The previous iterator value is never used: the first comparison always
    // succeeds because every distance is below INT_MAX.
    k := 0;
    var i := 0;
    while i < |cities|
      invariant 0 <= i <= |cities|
      invariant i == 0 ==> shortest == INT_MAX && k == 0
      invariant 0 < i ==> k < i && shortest == dist(curr, cities[k])
      invariant forall j :: 0 <= j < i ==> shortest <= dist(curr, cities[j])
      invariant forall j :: 0 <= j < k ==> shortest < dist(curr, cities[j])
    {
      var currDistance := dist(curr, cities[i]);
      if shortest > currDistance {
        shortest := currDistance;
        k := i;
      }
      i := i + 1;
    }
    NearestIsFirstNearest(curr, cities, dist);
    FirstNearestUnique(curr, cities, dist, k, Nearest(curr, cities, dist));
  }

  // --------------------------------------------------- the whole tour

  /** The state at the head of the main loop: the current city and the working list. */
  datatype Working = Working(curr: Node, cities: seq<Node>)

  /** One iteration of the main loop: move to the first nearest city and erase it. */
  function Advance(w: Working, dist: Distance): (next: Working)
    requires |w.cities| > 0
    ensures |next.cities| == |w.cities| - 1
    ensures next.curr == w.cities[Nearest(w.curr, w.cities, dist)]
  {
    var k := Nearest(w.curr, w.cities, dist);
    Working(w.cities[k], RemoveAt(w.cities, k))
  }

  /** The state after i iterations of the main loop. */
  function Steps(w: Working, i: nat, dist: Distance): (r: Working)
    requires i <= |w.cities|
    ensures |r.cities| == |w.cities| - i
    decreases i
  {
    if i == 0 then w else Steps(Advance(w, dist), i - 1, dist)
  }

  /** The cities the main loop visits from w on, w's current city first. */
  function Visits(w: Working, dist: Distance): (p: seq<Node>)
    ensures |p| == |w.cities| + 1 && p[0] == w.curr
    decreases |w.cities|
  {
    if w.cities == [] then [w.curr] else [w.curr] + Visits(Advance(w, dist), dist)
  }

  /** The visits from a state with work left: its current city, then the visits from the next state. */
  lemma VisitsUnfold(w: Working, dist: Distance)
    requires w.cities != []
    ensures Visits(w, dist) == [w.curr] + Visits(Advance(w, dist), dist)
  {
  }

  /** The distances the main loop records from w on. */
  function Legs(w: Working, dist: Distance): (ls: seq<int>)
    ensures |ls| == |w.cities|
    decreases |w.cities|
  {
    if w.cities == [] then []
    else
      var next := Advance(w, dist);
      [dist(w.curr, next.curr)] + Legs(next, dist)
  }

  /** The current city once the main loop has emptied the working list. */
  function LastCity(w: Working, dist: Distance): Node
    decreases |w.cities|
  {
    if w.cities == [] then w.curr else LastCity(Advance(w, dist), dist)
  }

  /** The state after setup: the start city is current and has been erased from the list. */
  function Initial(cities: seq<Node>, startId: nat): (w: Working)
    requires |cities| > 0
    ensures |w.cities| == |cities| - 1
    ensures w.curr == cities[StartIndex(cities, startId)]
    ensures w.cities == RemoveAt(cities, StartIndex(cities, startId))
  {
    var s := StartIndex(cities, startId);
    Working(cities[s], RemoveAt(cities, s))
  }

  /**
   * The tour the builder returns: the start city, the visits of the main loop,
   * and the start city again; weight 0 for the start, the recorded distances,
   * and the closing edge from the start to the last visited city.
   */
  function NearestNeighborTour(cities: seq<Node>, startId: nat, dist: Distance): Tour
    requires |cities| > 0
  {
    var w0 := Initial(cities, startId);
    var weights := [0] + Legs(w0, dist) + [dist(w0.curr, LastCity(w0, dist))];
    Tour(Visits(w0, dist) + [w0.curr], weights, Sum(weights))
  }

  /** The path of the reference tour: the visits of the main loop, closed by the start city. */
  lemma TourPath(cities: seq<Node>, startId: nat, dist: Distance)
    requires |cities| > 0
    ensures var w0 := Initial(cities, startId);
            NearestNeighborTour(cities, startId, dist).path == Visits(w0, dist) + [w0.curr]
  {
  }

  /** Taking one more step is one more Advance. */
  lemma {:induction false} StepsSucc(w: Working, i: nat, dist: Distance)
    requires i < |w.cities|
    ensures Steps(w, i + 1, dist) == Advance(Steps(w, i, dist), dist)
    decreases i
  {
    if i > 0 {
      StepsSucc(Advance(w, dist), i - 1, dist);
    }
  }

  /** The i-th visited city is the current city after i steps. */
  lemma {:induction false} VisitsAt(w: Working, i: nat, dist: Distance)
    requires i <= |w.cities|
    ensures Visits(w, dist)[i] == Steps(w, i, dist).curr
    decreases i
  {
    if i > 0 {
      VisitsAt(Advance(w, dist), i - 1, dist);
    }
  }

  /** The i-th recorded distance is the edge taken by step i + 1. */
  lemma {:induction false} LegsAt(w: Working, i: nat, dist: Distance)
    requires i < |w.cities|
    ensures Legs(w, dist)[i] == dist(Steps(w, i, dist).curr, Steps(w, i + 1, dist).curr)
    decreases i
  {
    if i > 0 {
      LegsAt(Advance(w, dist), i - 1, dist);
    }
  }

  /** The last city is the current city once every city has been visited. */
  lemma {:induction false} LastCityAt(w: Working, dist: Distance)
    ensures LastCity(w, dist) == Steps(w, |w.cities|, dist).curr
    decreases |w.cities|
  {
    if w.cities != [] {
      LastCityAt(Advance(w, dist), dist);
    }
  }

  /** Sum of a sequence extended by one weight. */
  lemma SumAppend(s: seq<int>, x: int)
    ensures Sum(s + [x]) == Sum(s) + x
  {
    assert (s + [x])[..|s|] == s;
  }

  /** The builder's variables at the head of the main loop. */
  datatype Progress = Progress(curr: Node, list: seq<Node>, path: seq<Node>, weights: seq<int>, total: int)

  /**
   * Where the main loop ends when it resumes from p: the loop invariant of
   * NearestNeighbor, tied back to Visits, Legs and LastCity by RunAppendsVisits.
   */
  ghost function Run(p: Progress, dist: Distance): Progress
    decreases |p.list|
  {
    if p.list == [] then p
    else
      var k := Nearest(p.curr, p.list, dist);
      var d := dist(p.curr, p.list[k]);
      Run(Progress(p.list[k], RemoveAt(p.list, k), p.path + [p.list[k]], p.weights + [d], p.total + d), dist)
  }

  /** One more iteration of the main loop: Run resumes from the state that iteration leaves. */
  lemma RunStep(before: Progress, after: Progress, dist: Distance, k: nat)
    requires before.list != [] && k == Nearest(before.curr, before.list, dist)
    requires k < |before.list| && after.curr == before.list[k] && after.list == RemoveAt(before.list, k)
    requires var d := dist(before.curr, before.list[k]);
             after.path == before.path + [after.curr] && after.weights == before.weights + [d] && after.total == before.total + d
    ensures Run(before, dist) == Run(after, dist)
  {
  }

  /** The visits after the current city: the next city, then the visits after it. */
  lemma VisitsTail(w: Working, dist: Distance)
    requires w.cities != []
    ensures var next := Advance(w, dist);
            Visits(w, dist)[1..] == [next.curr] + Visits(next, dist)[1..]
  {
    var next := Advance(w, dist);
    assert Visits(w, dist)[1..] == Visits(next, dist);
  }

  /** Appending one element and then a sequence is appending both at once. */
  lemma AppendAssoc<T>(a: seq<T>, x: T, b: seq<T>)
    ensures a + ([x] + b) == (a + [x]) + b
  {
  }

  /**
   * Resuming the main loop from the state w with a path, weights and total
   * so far appends the rest of the visits and distances, and ends at LastCity.
   */
  lemma {:induction false} RunAppendsVisits(w: Working, path: seq<Node>, weights: seq<int>, total: int, dist: Distance)
    requires total == Sum(weights)
    ensures Run(Progress(w.curr, w.cities, path, weights, total), dist)
            == Progress(LastCity(w, dist), [], path + Visits(w, dist)[1..], weights + Legs(w, dist), Sum(weights + Legs(w, dist)))
    decreases |w.cities|
  {
    if w.cities != [] {
      var next := Advance(w, dist);
      var d := dist(w.curr, next.curr);
      var rest := Progress(next.curr, next.cities, path + [next.curr], weights + [d], total + d);
      assert Run(Progress(w.curr, w.cities, path, weights, total), dist) == Run(rest, dist) by {
        RunStep(Progress(w.curr, w.cities, path, weights, total), rest, dist, Nearest(w.curr, w.cities, dist));
      }
      var weights' := weights + Legs(w, dist);
      var path1 := (path + [next.curr]) + Visits(next, dist)[1..];
      var weights1 := (weights + [d]) + Legs(next, dist);
      assert Run(rest, dist) == Progress(LastCity(next, dist), [], path1, weights1, Sum(weights1)) by {
        assert total + d == Sum(weights + [d]) by { SumAppend(weights, d); }
        RunAppendsVisits(next, path + [next.curr], weights + [d], total + d, dist);
      }
      assert path1 == path + Visits(w, dist)[1..] by {
        VisitsTail(w, dist);
        AppendAssoc(path, next.curr, Visits(next, dist)[1..]);
      }
      assert weights1 == weights' by {
        AppendAssoc(weights, d, Legs(next, dist));
      }
      assert LastCity(w, dist) == LastCity(next, dist);
    } else {
      assert weights + Legs(w, dist) == weights;
      assert path + Visits(w, dist)[1..] == path;
    }
  }

  /**
   * The main loop, started right after setup, ends with the reference visits
   * and weights; closing the path back to its first city gives the reference tour.
   */
  lemma RunFromStart(cities: seq<Node>, startId: nat, dist: Distance, last: Progress)
    requires |cities| > 0
    requires var s := StartIndex(cities, startId);
             last == Run(Progress(cities[s], RemoveAt(cities, s), [cities[s]], [0], 0), dist)
    ensures last.list == [] && last.path != [] && last.total == Sum(last.weights)
    ensures var c := dist(last.path[0], last.curr);
            NearestNeighborTour(cities, startId, dist)
            == Tour(last.path + [last.path[0]], last.weights + [c], last.total + c)
  {
    var w0 := Initial(cities, startId);
    RunAppendsVisits(w0, [w0.curr], [0], 0, dist);
    assert [w0.curr] + Visits(w0, dist)[1..] == Visits(w0, dist);
    SumAppend(last.weights, dist(last.path[0], last.curr));
  }

  /**
   * The builder. The working list is drained by erasing one city per
   * iteration; the closing edge is measured to `curr_city`, the last city
   * visited (see the README's Findings).
   */
  method NearestNeighbor(cities: seq<Node>, startId: nat, dist: Distance) returns (tour: Tour)
    requires ValidDistance(dist)
    requires |cities| > 0
    ensures tour == NearestNeighborTour(cities, startId, dist)
    ensures tour.totalDistance == Sum(tour.weights)
  {
    // The three fields of the Tour under construction (`tour.path`,
    // `tour.weights`, `tour.total_distance`), assembled into a Tour at the end.
    var path: seq<Node> := [];
    var weights: seq<int> := [];
    var totalDistance := 0;
    var s := FindStart(cities, startId);
    path := path + [cities[s]];
    weights := weights + [0];
    var currCity := cities[s];
    var list := RemoveAt(cities, s);
    ghost var p0 := Progress(cities[s], RemoveAt(cities, s), [cities[s]], [0], 0);
    assert Progress(currCity, list, path, weights, totalDistance) == p0;

    while list != []
      invariant Run(Progress(currCity, list, path, weights, totalDistance), dist) == Run(p0, dist)
      invariant |path| == |weights| && |path| + |list| == |cities| && path[0] == cities[s]
      invariant totalDistance == Sum(weights)
      decreases |list|
    {
      var k, shortest := ScanNearest(currCity, list, dist);
      ghost var before := Progress(currCity, list, path, weights, totalDistance);
      path := path + [list[k]];
      weights := weights + [shortest];
      totalDistance := totalDistance + shortest;
      currCity := list[k];
      list := RemoveAt(list, k);
      RunStep(before, Progress(currCity, list, path, weights, totalDistance), dist, k);
      assert totalDistance == Sum(weights) by { SumAppend(before.weights, shortest); }
    }

    ghost var last := Progress(currCity, list, path, weights, totalDistance);
    assert Run(last, dist) == last;
    RunFromStart(cities, startId, dist, last);
    var startCityAgain := dist(path[0], currCity);
    path := path + [path[0]];
    weights := weights + [startCityAgain];
    totalDistance := totalDistance + startCityAgain;
    tour := Tour(path, weights, totalDistance);
  }
}

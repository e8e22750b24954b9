# Nearest-neighbour tour builder

This project models `TSP::nearestNeighbor`, the greedy builder of a travelling-salesman
tour over a list of cities. Each city is a `Node` with an id and a position. The builder:

1. takes the city whose id is `start_id` as the start and erases it from its working copy of the list;
2. repeatedly scans the working list for the city nearest to the current one, keeping the
   first of several equally near cities, appends it to `tour.path` with its distance in
   `tour.weights`, adds the distance to `tour.total_distance` and erases it;
3. when the list is empty, closes the tour by returning to the start city.

The model has three modules:

- `Cities` (cities.dfy): the `Node` record, `INT_MAX`, and the city-to-city distance. The
  distance is a parameter `dist` of every operation; `ValidDistance` requires every
  distance to lie in `[0, INT_MAX)`.
- `TSP` (tsp.dfy): the reference functions and the builder.
  - `StartIndex`, `Nearest`, `Advance`, `Visits`, `Legs`, `LastCity` and `NearestNeighborTour`
    describe the tour one greedy step at a time.
  - The methods `FindStart` (the setup loop), `ScanNearest` (the inner scan) and
    `NearestNeighbor` (the whole builder) keep the source's loops. Each is proved to
    compute its reference function.
- `TourProperties` (tour_properties.dfy): what the tour guarantees, proved about
  `NearestNeighborTour`:
  - its shape;
  - every city visited exactly once;
  - the working list shrinking by one city per step;
  - the working list keeping the input order;
  - each step greedy, with the city first in input order winning a tie;
  - the closing edge;
  - three worked scenarios.

The builder's local `Tour` is filled by appending to its three fields. The model keeps the
three fields as local variables that the loop reassigns, and builds the `Tour` value at the end.

## Model

| member | source | states |
|---|---|---|
| TSP.StartIndex | TSP.cpp:66-71 | The start position is in range. When some city has id `start_id`, it is the last such city in list order. When none has, it is position 0, the initial iterator. |
| TSP.FindStart | TSP.cpp:66-71 | The setup loop over the whole list, without early exit, returns exactly `StartIndex`. |
| TSP.RemoveAtMultiset | TSP.cpp:83 | Erasing position k removes exactly one occurrence of `s[k]` and nothing else. |
| TSP.RemoveAtKeepsOrder | TSP.cpp:116 | Erasing keeps the other cities in order: earlier ones stay, later ones move up one place. |
| TSP.NearestIsFirstNearest | TSP.cpp:96-106 | The greedy choice `Nearest` is a position of minimal distance from the current city, and every earlier position is strictly farther. |
| TSP.FirstNearestUnique | TSP.cpp:102-104 | At most one position is the first nearest, so the strict comparison fixes the choice. |
| TSP.ScanNearest | TSP.cpp:96-106 | The scan starts from `INT_MAX` and replaces only on a strictly smaller distance. It returns the first nearest position, equal to `Nearest`, and that position's distance. |
| TSP.Advance | TSP.cpp:110-116 | One main-loop iteration makes the picked city current and leaves one city fewer in the list. |
| TSP.Steps | TSP.cpp:85-121 | After i iterations the working list has i cities fewer. |
| TSP.StepsSucc | TSP.cpp:85-121 | Iteration i + 1 is one more `Advance` after iteration i. |
| TSP.VisitsAt | TSP.cpp:110 | The i-th city of the path is the current city after i iterations. |
| TSP.LegsAt | TSP.cpp:111 | The i-th recorded weight is the distance of the edge taken by iteration i + 1. |
| TSP.LastCityAt | TSP.cpp:115 | The city current after the loop is the one current once the list is exhausted. |
| TSP.RunAppendsVisits | TSP.cpp:85-121 | From any state, the loop appends exactly the reference visits to `path` and the reference distances to `weights`. `total_distance` stays the sum of `weights`, and the list ends empty. |
| TSP.RunFromStart | TSP.cpp:75-128 | Started right after setup, the loop ends with an empty list and a non-empty path. Closing it to its first city gives `NearestNeighborTour`. |
| TSP.NearestNeighbor | TSP.cpp:60-131 | The builder returns exactly `NearestNeighborTour(cities, start_id, dist)`, with `total_distance` equal to the sum of `weights`. Every iteration of the main loop keeps `path` and `weights` the same length, keeps `path` plus the working list at n cities with the start city first, and keeps `total_distance` equal to the sum of `weights`. The closing edge uses the corrected line 125 (see Findings). |
| TourProperties.TourShape | TSP.cpp:66-126 | `path` and `weights` both have n + 1 entries. The tour starts at `cities[StartIndex]` with weight 0, and at an id-`start_id` city when one exists. It ends where it started. |
| TourProperties.SetupSplitsInput | TSP.cpp:66-83 | After setup, the start city and the working list together are exactly the input cities. The start city carries id `start_id` whenever some city does. |
| TourProperties.StepsMultiset | TSP.cpp:83-116 | After i iterations, the cities visited plus the working list are exactly the cities the walk started with. |
| TourProperties.WorkingListAt | TSP.cpp:83-116 | After i iterations the working list has n - 1 - i cities. They are exactly the input cities minus those already on the path, so the loop shrinks the list by one and terminates. |
| TourProperties.TourVisitsEveryCityOnce | TSP.cpp:75-116 | The first n cities of the path are a permutation of the input: every city is visited exactly once. |
| TourProperties.EraseKeepsEmbedding | TSP.cpp:116 | Erasing one city keeps the working list a copy of the input with some positions dropped, in input order. |
| TourProperties.StepsKeepEmbedding | TSP.cpp:85-121 | A list that is the input with some positions dropped, in order, stays so through any number of iterations. |
| TourProperties.WorkingListInInputOrder | TSP.cpp:83-116 | After i iterations, the working list is the input with some positions dropped: the remaining cities keep their input order. |
| TourProperties.TourStepPicksNearest | TSP.cpp:96-111 | Step i moves from `path[i-1]` to the city `Nearest` picks from that step's working list, with weight `dist(path[i-1], path[i])`. |
| TourProperties.TourGreedyStep | TSP.cpp:96-111 | Step i's weight is the distance from the previous city, and no city of that step's working list is closer. The chosen city is in the list, and every city before it in list order is strictly farther. |
| TourProperties.TourGreedyLocality | TSP.cpp:96-111 | Stated on the tour alone: each edge goes to a city no farther than any input city not yet on the path. |
| TourProperties.FirstNearestInInputOrder | TSP.cpp:96-106 | For a first nearest city of a list embedded in the input, every listed city that stands earlier in the input is strictly farther. |
| TourProperties.TourTieBreakInInputOrder | TSP.cpp:96-111 | Tie-break against the input order: every city still unvisited at step i that stands before the chosen city in the input is strictly farther than it. |
| TourProperties.TourClosingEdge | TSP.cpp:125-128 | The tour returns to its start, and the closing weight is the distance from the start to the last visited city. |
| TourProperties.SingleCityTour | TSP.cpp:75-128 | A one-city list skips the loop: path `[c, c]`, weights `[0, dist(c, c)]`, total `dist(c, c)`. |
| TourProperties.ClosingAsWrittenUndefined | TSP.cpp:116-125 | Line 125 as written reads through an iterator into the working list, which the loop has emptied. The closing weight it computes is undefined for every input. |
| TourProperties.EquidistantAdvance | TSP.cpp:102-104 | With all candidates equally far, the step takes the front of the working list. |
| TourProperties.EquidistantVisitsFollowListOrder | TSP.cpp:102-104 | With all candidates equally far, the loop visits the working list in its own order. |
| TourProperties.EquidistantTourFollowsListOrder | TSP.cpp:60-131 | Over equidistant distinct cities, started from the first city, the path is the input list closed by its first city. |
| TourProperties.TieBreakFollowsListOrder | TSP.cpp:102-104 | Cities with ids 1, 3, 2, all one apart, give the tour 1 → 3 → 2 → 1: list order, not id order. |
| TourProperties.ThreeCitiesOnALine | TSP.cpp:60-131 | Cities 1, 2, 3 at x = 0, 1, 2, started at 1, give path 1, 2, 3, 1, weights 0, 1, 1, 2 and total 4. |
| TourProperties.TwoCitiesInThePlane | TSP.cpp:60-131 | Under the truncated Euclidean distance, cities 1 at (0, 0) and 2 at (3, 4), started at 1, give path 1, 2, 1, weights 0, 5, 5 and total 10. |

## Left out

- `display` (TSP.cpp:8-13) and `constructCities` (TSP.cpp:25-46): printing and file parsing, outside the builder.
- `Node::distance`: its body is in TSP.hpp, which is not part of this model. The distance is a parameter constrained only to lie in `[0, INT_MAX)`, the range the `int` variables of the scan can hold below their `INT_MAX` start.
- The conversion of the floating-point distance to `int` is part of that parameter. No floating-point arithmetic is modelled. The scenarios use distances over exact reals: an axis distance on a line, and a Euclidean distance whose square root is truncated to a whole number.
- The widths of `tour.weights` and `tour.total_distance`: their declarations are in TSP.hpp. They are modelled as unbounded integers, so an overflow of the total over many long edges is not modelled.
- An empty city list: the source dereferences `begin()` of an empty list at line 75, which is undefined behaviour. `requires |cities| > 0` excludes it.
- A missing or repeated `start_id`: the documented precondition asks for exactly one city with that id. The code has no check: it keeps the last matching city, and falls back to the first city when none matches. The model follows the code (`StartIndex`) and states both cases instead of requiring the precondition.
- The undefined behaviour of line 125 itself: what a dereference of an erased list iterator returns is not modelled. `ClosingWeightAsWritten` only records that no element is designated. `NearestNeighbor` uses the corrected closing edge.
- The builder takes its list by value and erases from its own copy. The model works on the sequence value, so the caller's list is unchanged by construction.

## Findings

| source | as written | input that shows it | evidently intended | confidence | as-written member | corrected member |
|---|---|---|---|---|---|---|
| TSP.cpp:125 | The closing distance dereferences `it_currCity`, which line 116 (or line 83 for a single city) has already erased, so the call reads through an invalidated iterator. | Any input, e.g. the single city `[c]`: the list is empty when line 125 runs. | The distance from the start city to the last visited city, `tour.path.front().distance(curr_city)`. | not executed | TourProperties.ClosingAsWrittenUndefined | TourProperties.TourClosingEdge |

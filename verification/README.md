# Genetic route optimiser for ship navigation — a Dafny model

This project models the optimiser core of a small ship-navigation program.
The program searches for a route between a fixed start point (0, 0) and a
fixed end point (100, 100). It runs a generational genetic algorithm over
routes: a route is the start, `num_waypoints` interior waypoints, and the
end. A route's fitness (lower is better) is its length, plus a wind time
penalty, plus 100 for each circular danger zone it enters.

The model covers:

- random route generation and the initial population;
- the danger term of the fitness: how many zones contain at least one point
  of a route;
- single-point crossover and one-point mutation;
- one generation (`evolve_population`). It sorts stably by fitness, keeps
  the top 10, draws parents from the top 25, and appends children in pairs;
- the generation loop and the reported best route (`min` with the fitness
  key);
- the danger-zone list as a stack (append, undo).

Randomness is passed in as values. A `Draw` holds what one pass of the
breeding loop consumes: two parent indices, the crossover cut, and each
child's mutation coin, index and fresh point. Generated interior points are
given as sequences. Fitness is a parameter `Route -> real`. The model builds
it as an abstract travel cost plus `100 * HazardCount`.

The breeding loop `Breed` takes what one pass does as a function value
from a draw to two children. A generation passes `BreedFrom(pool, cfg)`,
which applies `BreedPair`: pick the draw's two parents from the pool, cross
them over, and mutate each child (`Offspring`). A parent index outside the
pool raises `IndexOutOfRange`, as Python list indexing would.
`random.choices` never produces one.

Files and modules:

- `types.dfy` (`Types`): points, zones, routes, and the errors the program can raise.
- `hazards.dfy` (`Hazards`): containment, the hazard count, and the zone stack.
- `routes.dfy` (`Routes`): the run configuration, the route shape invariant, and route generation.
- `operators.dfy` (`Operators`): crossover and mutation.
- `ranking.dfy` (`Ranking`): the stable sort and the first minimum.
- `evolution.dfy` (`Evolution`): breeding, one generation, and the generation loop.
- `evolution_proofs.dfy` (`EvolutionProofs`): size, shape, elitism and parent-pool facts.
- `optimiser.dfy` (`Optimiser`): the whole run and the reported best route.

Python raises on four inputs in the core, and the model returns these as
`Failure` values instead of ruling them out:

- `random.choices` on an empty parent pool (`EmptyParentPool`);
- `random.randint(1, num_waypoints)` when `num_waypoints` is 0, in
  `crossover` and in `mutate` (`EmptyRange`). Crossover draws first, so
  every generation that has to breed fails this way when there are no
  waypoints. A run then fails as soon as `population_size` exceeds the 10
  elites and at least one generation is run;
- an assignment past the end of a route in `mutate` (`IndexOutOfRange`);
- `min` of an empty population (`EmptyPopulation`).

Python slicing clamps at the end of a list, and `Crossover` does the same,
so it is total.

The model follows the code as written:

- Children are appended two at a time. A generation can therefore end one
  route above `population_size`: exactly when `population_size` minus the
  number of elites is odd.
- The loop keeps `min(10, len(population))` elites even when that exceeds
  `population_size`.
- Elite count (10), parent pool (25) and the coordinate domain [0, 100] are
  fixed constants, not configuration options.
- The wind time penalty divides by `10 + wind_speed * cos(wind_direction)`
  with no guard for a zero or negative denominator.
- No configuration value is checked before the run. A zero
  `population_size` ends in `EmptyPopulation`. A zero `num_waypoints`
  raises `EmptyRange` only when `population_size` exceeds the 10 elites
  and at least one generation is run; otherwise the run succeeds.

With the program's own parameters (500 routes, 10 elites) the size stays
exactly 500. `SourceConfigKeepsSize` proves this.

## Model

| member | source | states |
|---|---|---|
| Hazards.InsideIsStrictDistance | main.py:31 | For the non-negative root `d` of the squared distance, the squared-form test holds iff `d < r`. A point exactly on the boundary is outside, and a non-positive radius contains nothing. |
| Hazards.HazardCount | main.py:31 | The danger term is between 0 and the number of zones. It is 0 exactly when the route enters none of them. |
| Hazards.HazardCountCountsEnteredZones | main.py:31 | The danger term equals the number of zone entries (by index) that contain some route point, endpoints included. |
| Hazards.HazardCountAppend | main.py:31 | Appending a zone adds 1 if the route enters it and 0 otherwise, so the count never decreases. |
| Hazards.HazardCountDependsOnlyOnEntries | main.py:31 | Two routes that enter the same zones have the same count, however many of their points lie inside each zone. |
| Hazards.InsertSafeWaypoint | main.py:31 | Inserting a waypoint that lies outside every zone, at any position, leaves the count unchanged. |
| Hazards.InsertOutsidePointKeepsEntry | main.py:31 | For one zone: inserting a point outside it, at any position, does not change whether the route enters it. |
| Hazards.RepeatedPointsCountOnce | main.py:31 | Repeating every point of a route leaves the count unchanged, so each zone contributes at most 1. |
| Hazards.Fitness | main.py:28-32 | Fitness is the travel cost plus 100 for each zone entry, by index, that contains some point of the route. A route that enters no zone has fitness equal to its travel cost. |
| Hazards.FitnessDangerBounds | main.py:28-32 | Fitness is at least the travel cost and at most the travel cost plus 100 per zone. |
| Hazards.AddZoneNeverLowersFitness | main.py:84 | After a zone is added, no route has a lower count or a lower fitness. |
| Hazards.AddZone | main.py:84 | The new zone is on top of the list, and every earlier zone keeps its position. |
| Hazards.UndoZone | main.py:89-94 | On a non-empty list, undo removes exactly the last entry. On an empty list it changes nothing. |
| Hazards.UndoAfterAdd | main.py:84 | Adding a zone and then undoing restores the original list. |
| Hazards.AddAfterUndo | main.py:89-91 | Undo removes the top zone: adding it back restores the list. |
| Hazards.UndoNeverRaisesHazardCount | main.py:89-91 | Undo never raises a route's danger term. |
| Routes.GenerateRoute | main.py:25-26 | A generated route has length `num_waypoints + 2`, starts at the start point, ends at the end point, and its interior is exactly the drawn points, in the domain. |
| Routes.InitialPopulation | main.py:97 | Generation 0 has exactly `population_size` valid routes, the j-th built from the j-th draws. |
| Operators.Crossover | main.py:34-38 | For equal-length parents and a cut within them, both children keep the length. Position `i` of the first child comes from parent 1 when `i < cut` and from parent 2 otherwise. The second child is the complement. |
| Operators.CrossoverInvolution | main.py:36-37 | Crossing the two children again at the same cut gives back the two parents. |
| Operators.CrossoverKeepsShape | main.py:34-38 | With a cut in [1, num_waypoints], children of valid routes are valid: same length, same start and end, interior in the domain. |
| Operators.CrossoverLastInteriorFromOtherParent | main.py:35-36 | The cut never exceeds `num_waypoints`, so the last interior waypoint of child 1 is parent 2's (and of child 2, parent 1's). |
| Operators.CrossoverSingleWaypointSwaps | main.py:35-37 | With one waypoint, crossover at cut 1 gives `[p1[0], p2[1], p2[2]]` and `[p2[0], p1[1], p1[2]]`. |
| Operators.Mutate | main.py:40-44 | A coin at or above the rate returns the route unchanged. Otherwise, with no waypoints, `randint(1, 0)` fails with `EmptyRange`. With waypoints, exactly index `k` becomes the fresh point and every other index is kept. An index past the end fails with `IndexOutOfRange`. |
| Operators.MutateChangesAtMostOneInterior | main.py:40-44 | For a valid route and `k` in [1, num_waypoints], mutation succeeds and keeps the route valid. The set of changed positions is a subset of `{k}`, so the endpoints never change. |
| Operators.ZeroRateNeverMutates | main.py:41 | With rate 0 and a coin from `random()` (never negative), the route is returned unchanged. |
| Ranking.StableSort | main.py:47 | The result is a permutation of the population, ordered by non-decreasing fitness. |
| Ranking.StableSortIsStable | main.py:47 | For every fitness value, the routes with that value appear in the same relative order as in the input. |
| Ranking.StableSortIsUnique | main.py:47 | Any sorted arrangement that keeps equal-fitness routes in input order equals `StableSort`, so the model's sort is Python's `sorted`. |
| Ranking.FirstMinimum | main.py:104 | The returned index holds a least fitness, and every earlier route has strictly greater fitness. |
| Ranking.SortHeadIsFirstMinimum | main.py:104 | The first route of the stable sort is the first minimum, the route `min` returns. |
| Ranking.SortHeadHasMinKey | main.py:47-48 | The first route of the stable sort, the first elite, has the least fitness of the population. |
| Evolution.Offspring | main.py:50-52 | With no waypoints the pass fails with `EmptyRange`: the crossover draw comes first. With waypoints it fails only with `IndexOutOfRange`, raised from `mutate`. |
| Evolution.BreedPair | main.py:50-52 | With parents in a non-empty pool and no waypoints, the pass fails with `EmptyRange` (the crossover's `randint(1, 0)`). With at least one waypoint, the only failure is `IndexOutOfRange`. |
| Evolution.BreedFrom | main.py:50-52 | As a step function: for every draw whose parents lie in a non-empty pool, no waypoints means `EmptyRange`. With at least one waypoint, every failing draw fails with `IndexOutOfRange`. |
| Evolution.Breed | main.py:49-52 | The loop adds exactly two routes per pass until the target is reached or passed, and leaves the routes it started with as a prefix. With an empty pool it fails with `EmptyParentPool` iff it needs to breed. Otherwise a failure is the failure of one of the draws it consumes. |
| Evolution.EvolvedSize | main.py:48-52 | From `e` elites: size `e` if `e >= population_size`. Otherwise between `population_size` and `population_size + 1`, equal to `population_size` iff `population_size - e` is even. |
| Ranking.SortedPrefixIsTop | main.py:47-48 | A prefix of a sorted permutation of `pop` is a sub-multiset of `pop`. Any element of `pop` with a strictly lower key than some member of the prefix is itself in the prefix. |
| Evolution.EliteRoutes | main.py:47-48 | The elites are `min(10, n)` routes drawn from the population, in non-decreasing fitness order. No route left out has strictly lower fitness than a route kept. |
| Evolution.ParentPool | main.py:47-50 | The parent pool is `min(25, n)` routes drawn from the population, in non-decreasing fitness order. No route left out has strictly lower fitness than a pool member. |
| Evolution.EvolveFacts | main.py:46-53 | Whatever the breeding loop returns from the first `min(10, n)` routes of the stable sort has `EvolvedSize` routes and keeps those routes as its prefix. It fails on an empty population exactly when `population_size > 0`, with `EmptyParentPool`. With waypoints, any other failure is `IndexOutOfRange`. |
| Evolution.Evolve | main.py:46-53 | The next generation has `EvolvedSize` routes, and its first `min(10, n)` routes are the first `min(10, n)` of the stable fitness sort, unchanged. An empty population fails iff `population_size > 0`, with `EmptyParentPool`. With waypoints, any other failure is `IndexOutOfRange`. |
| Evolution.Run | main.py:99-101 | After `g` generations the population size is the one given by applying the per-generation size rule `g` times. |
| EvolutionProofs.BreedAll | main.py:49-52 | Reference reading of the loop without the loop: `n` draws give `2n` routes. It succeeds iff every draw succeeds, and otherwise fails with the error of the first draw that fails. |
| EvolutionProofs.BreedAllPairs | main.py:51-52 | In a successful batch, positions `2j` and `2j + 1` hold the two children of draw `j`, in that order. |
| EvolutionProofs.PrependedPair | main.py:47-52 | When the loop's output follows `k` routes already in `new_population`, positions `k + 2j` and `k + 2j + 1` hold exactly the pair the pass returns for draw `j`. |
| EvolutionProofs.BreedIsBreedAll | main.py:49-52 | From a non-empty pool, the loop equals the reference: the starting routes followed by the children of the first `PairsNeeded` draws, or the reference's failure. |
| EvolutionProofs.OffspringValid | main.py:50-52 | With at least one waypoint, valid draws from a non-empty pool of valid routes give two valid children without raising. |
| EvolutionProofs.ZeroRateOffspringIsCrossover | main.py:50-52 | With mutation rate 0 and at least one waypoint, the two children are exactly the crossover children. |
| EvolutionProofs.BreedKeepsRoutesValid | main.py:49-52 | If every draw the loop consumes breeds two valid routes, the loop from a non-empty pool never raises, and every route it returns is valid. |
| EvolutionProofs.DrawnRoutesValid | main.py:47-50 | Any routes drawn from a valid population (the ranking, the elites, the pool) are valid. |
| EvolutionProofs.EvolveFailsOnEmptyRange | main.py:46-53 | With no waypoints and more routes wanted than the elites supply, a generation from a non-empty population fails with `EmptyRange`. |
| EvolutionProofs.EvolveSucceedsValid | main.py:46-53 | From a non-empty valid population, with waypoints or with no children to breed, a generation succeeds and returns only valid routes. |
| EvolutionProofs.EvolveKeepsRoutesValid | main.py:46-53 | If every input route is valid, every output route is valid. The generation succeeds iff no child is needed or the population is non-empty and has waypoints. Otherwise it fails with `EmptyParentPool` for an empty population and with `EmptyRange` when there are no waypoints. |
| EvolutionProofs.EvolveBreedsFromPool | main.py:46-53 | One generation in closed form: the elites of the stable sort, followed by the reference batch bred from the first `min(25, n)` routes of that sort. |
| EvolutionProofs.EvolveParentsFromPool | main.py:50-52 | When `Evolve` returns `next`, the routes at positions `e + 2j` and `e + 2j + 1` of `next` are the two children `Offspring` breeds from draw `j`. Its parents are among the first `min(25, n)` routes of the stable sort. |
| EvolutionProofs.EvolveKeepsBest | main.py:47-48 | The next generation starts with the first minimum of the current one. Its least fitness is at most the current least fitness. |
| EvolutionProofs.GensFitBySize | main.py:99-101 | The draws fit a run iff, for every `g`, generation `g`'s draws fit the population size after `g` generations. |
| EvolutionProofs.EvolveKeepsViable | main.py:46-53 | From a viable population (valid routes, non-empty unless the target is 0, and waypoints to cut at unless no children are needed), a generation succeeds, is viable again, and is empty only if the input was. |
| EvolutionProofs.RunKeepsRoutesValid | main.py:97-101 | From a viable population, across any number of generations, the loop never raises and every route stays valid. The population stays non-empty iff it started non-empty. |
| EvolutionProofs.RunFailsOnEmptyRange | main.py:99-101 | With no waypoints, a non-empty population, more routes wanted than the elites supply, and at least one generation, the loop fails with `EmptyRange`. |
| EvolutionProofs.RunNeverLosesBest | main.py:99-101 | The best fitness after any number of generations is at most the best fitness of generation 0. |
| EvolutionProofs.SizeSettles | main.py:48-52 | With at least 10 routes and a target of at least 10, every later generation has `population_size + (population_size - 10) % 2` routes. |
| EvolutionProofs.SourceConfigKeepsSize | main.py:9 | With 500 routes and a target of 500, every generation has exactly 500 routes. |
| Optimiser.BestRoute | main.py:104 | `min` fails with `EmptyPopulation` iff the population is empty. Otherwise it returns the first route of least fitness, which is also the head of the stable sort. |
| Optimiser.RunOutcome | main.py:97-101 | From a valid generation 0 of the configured size, the loop succeeds iff there are waypoints, or at most 10 routes are wanted, or no generation runs. Otherwise it fails with `EmptyRange`. On success the routes are valid, non-empty iff generation 0 is, and the best fitness is no worse. |
| Optimiser.BestIsValidAndMinimal | main.py:104 | The reported route of a valid population is valid and has the least fitness. |
| Optimiser.Optimise | main.py:96-104 | The whole run succeeds iff `population_size > 0` and (there are waypoints, or `population_size <= 10`, or no generation runs). It fails with `EmptyPopulation` for size 0 and otherwise with `EmptyRange`. It reports the first route of least fitness in the final generation, which is valid and no worse than the best of generation 0. |
| Optimiser.OptimiseAsShipped | main.py:9-17 | With the program's parameters and initial zones, the run succeeds with a three-point route from (0, 0) to (100, 100). |

## Left out

- The Tkinter and matplotlib interface (`update_graph`, the widgets, `mainloop`): rendering and event handling, not optimiser logic.
- Parsing the entry fields and the `ValueError` branch of `add_danger_zone`: these are user-input handling. Only the append is modelled.
- The messages printed by `undo_danger_zone` and `add_danger_zone`: console output only.
- Route length (`np.sqrt` distance) and the wind time penalty (`np.cos`, the division by `10 + wind_speed * cos(wind_direction)`): floating-point numerics. They are the abstract `travel` parameter. Nothing is claimed about a zero or negative denominator.
- Wind speed and direction: drawn once at start-up and used only in the travel term.
- Floating-point rounding and NaN: coordinates, radii and fitness are exact reals.
- The random number generator itself: every outcome is a parameter, limited to the values the generator can return (`ValidDraw`, `InDomain`).
- Integer widths: population size and waypoint count are `nat`. Python integers do not overflow, and the program's values are positive literals.
- In-place mutation: `mutate` assigns into the child list and returns it. Each child is a fresh list from slicing, so the value model (`route[k := p]`) sees the same routes.
- Evolve: with no waypoints its contract does not name the error. A draw whose parents lie outside the pool (which `random.choices` cannot produce) fails with `IndexOutOfRange` before the crossover draw. `EvolveKeepsRoutesValid` pins the error to `EmptyRange` for the draws the generator can produce.

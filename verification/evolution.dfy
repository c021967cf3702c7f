/** One generation of the genetic algorithm (`evolve_population`) and the
    generational loop. Every random outcome is an explicit `Draw`; fitness is
    a parameter. */
module Evolution {
  import opened Types
  import opened Routes
  import opened Operators
  import opened Ranking

  /** Routes carried forward unchanged: `population[:10]`. */
  const EliteCount: nat := 10
  /** Parents are drawn from `population[:25]`. */
  const ParentPoolSize: nat := 25

  function Min(a: nat, b: nat): nat {
    if a <= b then a else b
  }

  /** Number of elites kept from a population of `n` routes. */
  function Elites(n: nat): nat {
    Min(EliteCount, n)
  }

  /** Size of the parent pool drawn from a population of `n` routes. */
  function PoolSize(n: nat): nat {
    Min(ParentPoolSize, n)
  }

  /** The random outcomes one pass of the breeding loop consumes. */
  datatype Draw = Draw(
    parent1: nat, parent2: nat,                 // random.choices(pool, k=2)
    cut: nat,                                   // randint(1, numWaypoints) in crossover
    coin1: real, site1: nat, point1: Point,     // mutate(child1)
    coin2: real, site2: nat, point2: Point)     // mutate(child2)

  /** The parent indices lie in the pool (an empty pool raises first). */
  predicate ParentsFit(d: Draw, poolSize: nat) {
    poolSize == 0 || (d.parent1 < poolSize && d.parent2 < poolSize)
  }

  /** Outcomes the random source can produce: `randint(1, numWaypoints)`
      (which raises before producing anything when `numWaypoints` is 0),
      `random()` in `[0, 1)`, `uniform(0, 100)` coordinates. */
  predicate ValidDraw(d: Draw, poolSize: nat, cfg: Config) {
    && ParentsFit(d, poolSize)
    && (cfg.numWaypoints > 0 ==>
          && 1 <= d.cut <= cfg.numWaypoints
          && 1 <= d.site1 <= cfg.numWaypoints && 1 <= d.site2 <= cfg.numWaypoints)
    && 0.0 <= d.coin1 < 1.0 && 0.0 <= d.coin2 < 1.0
    && InDomain(d.point1) && InDomain(d.point2)
  }

  /** Passes of the loop `while len(new_population) < target`, each adding
      two children, starting from `have` routes. */
  function PairsNeeded(have: nat, target: nat): nat {
    if target <= have then 0 else (target - have + 1) / 2
  }

  /** One pass of the loop covers one of the pairs still needed. */
  lemma PairsNeededStep(have: nat, target: nat)
    requires have < target
    ensures PairsNeeded(have, target) >= 1
    ensures PairsNeeded(have + 2, target) == PairsNeeded(have, target) - 1
  {
    var d := target - have;
    assert (d + 1) / 2 >= 1;
    if d <= 2 {
      assert PairsNeeded(have, target) == 1;
    } else {
      assert (d - 2 + 1) / 2 == (d + 1) / 2 - 1;
    }
  }

  /** Two parents from the pool, crossed over, each child mutated. The cut
      is drawn from `[1, numWaypoints]`, so with no waypoints `crossover`
      raises before anything is bred. */
  function Offspring(pool: Population, d: Draw, cfg: Config): (r: Result<(Route, Route)>)
    requires d.parent1 < |pool| && d.parent2 < |pool|
    ensures cfg.numWaypoints == 0 ==> r == Failure(EmptyRange)
    ensures r.Failure? && cfg.numWaypoints > 0 ==> r.error == IndexOutOfRange
  {
    if cfg.numWaypoints == 0 then Failure(EmptyRange)
    else
      var children := Crossover(pool[d.parent1], pool[d.parent2], d.cut);
      var child1 :- Mutate(children.0, d.coin1, cfg.mutationRate, cfg.numWaypoints, d.site1, d.point1);
      var child2 :- Mutate(children.1, d.coin2, cfg.mutationRate, cfg.numWaypoints, d.site2, d.point2);
      Success((child1, child2))
  }

  /** One pass of the loop for a given pool: the draw's two parents, bred
      by `Offspring`. An index outside the pool raises as Python's list
      indexing does; `random.choices` never produces one. */
  function BreedPair(pool: Population, cfg: Config, d: Draw): (r: Result<(Route, Route)>)
    ensures ParentsFit(d, |pool|) && |pool| > 0 && cfg.numWaypoints == 0 ==> r == Failure(EmptyRange)
    ensures r.Failure? && cfg.numWaypoints > 0 ==> r.error == IndexOutOfRange
  {
    if d.parent1 < |pool| && d.parent2 < |pool| then Offspring(pool, d, cfg)
    else Failure(IndexOutOfRange)
  }

  /** The pass as the step function the loop is parameterised by. */
  function BreedFrom(pool: Population, cfg: Config): (breed: Draw -> Result<(Route, Route)>)
    ensures forall d :: ParentsFit(d, |pool|) && |pool| > 0 && cfg.numWaypoints == 0 ==>
      breed(d) == Failure(EmptyRange)
    ensures forall d :: breed(d).Failure? && cfg.numWaypoints > 0 ==> breed(d).error == IndexOutOfRange
  {
    (d: Draw) => BreedPair(pool, cfg, d)
  }

  /** The breeding loop: append two children per pass until `acc` holds at
      least `target` routes. Each pass hands its draw to `breed`; an empty
      pool (size `poolSize`) raises before any breeding. */
  function Breed(poolSize: nat, breed: Draw -> Result<(Route, Route)>, acc: Population, target: nat,
                 draws: seq<Draw>): (r: Result<Population>)
    requires |draws| >= PairsNeeded(|acc|, target)
    ensures r.Success? ==> |r.value| == |acc| + 2 * PairsNeeded(|acc|, target)
    ensures r.Success? ==> r.value[..|acc|] == acc
    ensures poolSize == 0 ==> (r.Success? <==> target <= |acc|)
    ensures poolSize == 0 && r.Failure? ==> r.error == EmptyParentPool
    ensures poolSize > 0 && r.Failure? ==>
      exists j :: 0 <= j < PairsNeeded(|acc|, target) && breed(draws[j]) == Failure(r.error)
    decreases target - |acc|
  {
    if target <= |acc| then Success(acc)
    else if poolSize == 0 then Failure(EmptyParentPool)
    else
      PairsNeededStep(|acc|, target);
      var children :- breed(draws[0]);
      var acc' := acc + [children.0, children.1];
      var rest := draws[1..];
      assert forall j :: 0 <= j < |rest| ==> rest[j] == draws[j + 1];
      var r := Breed(poolSize, breed, acc', target, rest);
      assert r.Success? ==> r.value[..|acc|] == r.value[..|acc'|][..|acc|];
      r
  }

  /** Size of the population `evolve_population` returns from `n` routes.
      Children come in pairs: from `e` elites the loop stops at `target`
      when the shortfall is even and one past it when it is odd; with at
      least `target` elites it adds nothing. */
  function EvolvedSize(n: nat, target: nat): (size: nat)
    ensures target <= Elites(n) ==> size == Elites(n)
    ensures Elites(n) < target ==> target <= size <= target + 1
    ensures Elites(n) < target ==> size == target + (target - Elites(n)) % 2
  {
    var e := Elites(n);
    assert e < target ==>
      (target - e + 1) / 2 * 2 == if (target - e) % 2 == 0 then target - e else target - e + 1;
    e + 2 * PairsNeeded(e, target)
  }

  /** The routes carried forward: the first ten of the ranking. They come
      from `pop`, best first, and no route left out is strictly better than
      one kept. */
  function EliteRoutes(pop: Population, fitness: Route -> real): (elites: Population)
    ensures |elites| == Elites(|pop|)
    ensures multiset(elites) <= multiset(pop)
    ensures Sorted(elites, fitness)
    ensures forall i, j :: 0 <= i < |elites| && 0 <= j < |pop| && fitness(pop[j]) < fitness(elites[i]) ==>
      pop[j] in elites
  {
    var ranked := StableSort(pop, fitness);
    SortedPrefixIsTop(ranked, fitness, pop, Elites(|pop|));
    ranked[..Elites(|pop|)]
  }

  /** The routes parents are drawn from: the first twenty-five of the
      ranking, with the same guarantees as the elites. */
  function ParentPool(pop: Population, fitness: Route -> real): (pool: Population)
    ensures |pool| == PoolSize(|pop|)
    ensures multiset(pool) <= multiset(pop)
    ensures Sorted(pool, fitness)
    ensures forall i, j :: 0 <= i < |pool| && 0 <= j < |pop| && fitness(pop[j]) < fitness(pool[i]) ==>
      pop[j] in pool
  {
    var ranked := StableSort(pop, fitness);
    SortedPrefixIsTop(ranked, fitness, pop, PoolSize(|pop|));
    ranked[..PoolSize(|pop|)]
  }

  /** What `Breed` promises about a generation, restated in terms of the
      population it started from. */
  lemma EvolveFacts(pop: Population, fitness: Route -> real, cfg: Config, draws: seq<Draw>, elites: Population,
                    breed: Draw -> Result<(Route, Route)>, r: Result<Population>)
    requires elites == EliteRoutes(pop, fitness)
    requires |draws| >= PairsNeeded(|elites|, cfg.populationSize)
    requires forall d :: breed(d).Failure? && cfg.numWaypoints > 0 ==> breed(d).error == IndexOutOfRange
    requires r.Success? ==> |r.value| == |elites| + 2 * PairsNeeded(|elites|, cfg.populationSize)
    requires r.Success? ==> r.value[..|elites|] == elites
    requires PoolSize(|pop|) == 0 ==> (r.Success? <==> cfg.populationSize <= |elites|)
    requires PoolSize(|pop|) == 0 && r.Failure? ==> r.error == EmptyParentPool
    requires PoolSize(|pop|) > 0 && r.Failure? ==>
      exists j :: 0 <= j < PairsNeeded(|elites|, cfg.populationSize) && breed(draws[j]) == Failure(r.error)
    ensures r.Success? ==> |r.value| == EvolvedSize(|pop|, cfg.populationSize)
    ensures r.Success? ==> r.value[..Elites(|pop|)] == StableSort(pop, fitness)[..Elites(|pop|)]
    ensures |pop| == 0 ==> (r.Success? <==> cfg.populationSize == 0)
    ensures r.Failure? && |pop| == 0 ==> r.error == EmptyParentPool
    ensures r.Failure? && |pop| > 0 && cfg.numWaypoints > 0 ==> r.error == IndexOutOfRange
  {
    assert |elites| == Elites(|pop|);
    if |pop| == 0 {
      assert PoolSize(|pop|) == 0 && |elites| == 0;
    } else if r.Failure? && cfg.numWaypoints > 0 {
      var j :| 0 <= j < PairsNeeded(|elites|, cfg.populationSize) && breed(draws[j]) == Failure(r.error);
      var d := draws[j];
      assert breed(d) == Failure(r.error);
      assert breed(d).error == IndexOutOfRange;
    }
  }

  /** `evolve_population`: rank by fitness with a stable sort, keep the
      first ten, then breed from the first twenty-five until the target
      size is reached or passed. */
  function Evolve(pop: Population, fitness: Route -> real, cfg: Config, draws: seq<Draw>): (r: Result<Population>)
    requires |draws| >= PairsNeeded(Elites(|pop|), cfg.populationSize)
    ensures r.Success? ==> |r.value| == EvolvedSize(|pop|, cfg.populationSize)
    ensures r.Success? ==> r.value[..Elites(|pop|)] == StableSort(pop, fitness)[..Elites(|pop|)]
    ensures |pop| == 0 ==> (r.Success? <==> cfg.populationSize == 0)
    ensures r.Failure? && |pop| == 0 ==> r.error == EmptyParentPool
    ensures r.Failure? && |pop| > 0 && cfg.numWaypoints > 0 ==> r.error == IndexOutOfRange
  {
    var elites := EliteRoutes(pop, fitness);
    var breed := BreedFrom(ParentPool(pop, fitness), cfg);
    var r := Breed(PoolSize(|pop|), breed, elites, cfg.populationSize, draws);
    EvolveFacts(pop, fitness, cfg, draws, elites, breed, r);
    r
  }

  /** Population size after `g` generations starting from `n` routes. */
  function SizeAfter(n: nat, target: nat, g: nat): nat
    decreases g
  {
    if g == 0 then n else SizeAfter(EvolvedSize(n, target), target, g - 1)
  }

  /** Enough valid draws for one generation of a population of `n` routes. */
  predicate DrawsFit(draws: seq<Draw>, n: nat, cfg: Config) {
    && |draws| >= PairsNeeded(Elites(n), cfg.populationSize)
    && forall j :: 0 <= j < |draws| ==> ValidDraw(draws[j], PoolSize(n), cfg)
  }

  /** Draws for a run from `n` routes: each generation's draws fit the
      population that generation sees. */
  predicate GensFit(gens: seq<seq<Draw>>, n: nat, cfg: Config)
    decreases |gens|
  {
    |gens| == 0 || (DrawsFit(gens[0], n, cfg) && GensFit(gens[1..], EvolvedSize(n, cfg.populationSize), cfg))
  }

  /** `for generation in range(num_generations)`: one `Evolve` per element
      of `gens`. */
  function Run(pop: Population, fitness: Route -> real, cfg: Config, gens: seq<seq<Draw>>): (r: Result<Population>)
    requires GensFit(gens, |pop|, cfg)
    ensures r.Success? ==> |r.value| == SizeAfter(|pop|, cfg.populationSize, |gens|)
    decreases |gens|
  {
    if |gens| == 0 then Success(pop)
    else
      var next :- Evolve(pop, fitness, cfg, gens[0]);
      Run(next, fitness, cfg, gens[1..])
  }
}

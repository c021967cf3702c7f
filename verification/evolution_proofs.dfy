/** What one generation and the generational loop guarantee: population
    size, the route shape, elitism, where parents come from, and that the
    best fitness never gets worse. */
module EvolutionProofs {
  import opened Types
  import opened Routes
  import opened Operators
  import opened Ranking
  import opened Evolution

  /** The first pass of the loop: its draw either aborts the loop or adds
      its two children in front of the remaining passes. */
  lemma BreedFirstPass(poolSize: nat, breed: Draw -> Result<(Route, Route)>, acc: Population, target: nat,
                       draws: seq<Draw>)
    requires poolSize > 0 && |acc| < target
    requires |draws| >= PairsNeeded(|acc|, target)
    ensures |draws| > 0
    ensures PairsNeeded(|acc| + 2, target) == PairsNeeded(|acc|, target) - 1
    ensures var first := breed(draws[0]);
      Breed(poolSize, breed, acc, target, draws) ==
        if first.Failure? then Failure(first.error)
        else Breed(poolSize, breed, acc + [first.value.0, first.value.1], target, draws[1..])
  {
    PairsNeededStep(|acc|, target);
  }

  /** Reference reading of the breeding loop without the loop: each of the
      first `n` draws breeds two children, laid out in draw order. The
      batch fails with the error of the first draw that fails. */
  function BreedAll(breed: Draw -> Result<(Route, Route)>, draws: seq<Draw>, n: nat): (r: Result<Population>)
    requires n <= |draws|
    ensures r.Success? ==> |r.value| == 2 * n
    ensures r.Success? <==> forall j :: 0 <= j < n ==> breed(draws[j]).Success?
    ensures r.Failure? ==>
      exists j :: 0 <= j < n && breed(draws[j]) == Failure(r.error) &&
                  forall i :: 0 <= i < j ==> breed(draws[i]).Success?
    decreases n
  {
    if n == 0 then Success([])
    else
      var rest := draws[1..];
      assert forall j :: 0 <= j < |rest| ==> rest[j] == draws[j + 1];
      var children :- breed(draws[0]);
      var more :- BreedAll(breed, rest, n - 1);
      Success([children.0, children.1] + more)
  }

  /** `acc` followed by the routes of `r`, or the failure of `r`. */
  function Prepend(acc: Population, r: Result<Population>): Result<Population> {
    if r.Success? then Success(acc + r.value) else r
  }

  lemma PrependTwice(a: Population, b: Population, r: Result<Population>)
    ensures Prepend(a, Prepend(b, r)) == Prepend(a + b, r)
  {
    if r.Success? {
      assert a + (b + r.value) == (a + b) + r.value;
    }
  }

  /** Positions `2j` and `2j + 1` of a successful batch hold the two
      children bred from draw `j`. */
  lemma {:induction false} BreedAllPairs(breed: Draw -> Result<(Route, Route)>, draws: seq<Draw>, n: nat, j: nat)
    requires j < n <= |draws|
    requires BreedAll(breed, draws, n).Success?
    ensures breed(draws[j]).Success?
    ensures BreedAll(breed, draws, n).value[2 * j] == breed(draws[j]).value.0
    ensures BreedAll(breed, draws, n).value[2 * j + 1] == breed(draws[j]).value.1
    decreases n
  {
    var first := breed(draws[0]).value;
    var more := BreedAll(breed, draws[1..], n - 1).value;
    assert BreedAll(breed, draws, n).value == [first.0, first.1] + more;
    if j > 0 {
      BreedAllPairs(breed, draws[1..], n - 1, j - 1);
      assert draws[1..][j - 1] == draws[j];
    }
  }

  /** The same positions after a prefix `a`: the children of draw `j`
      sit at `|a| + 2j` and `|a| + 2j + 1`. */
  lemma PrependedPair(a: Population, breed: Draw -> Result<(Route, Route)>, draws: seq<Draw>, n: nat,
                      j: nat, next: Population, i: nat)
    requires j < n <= |draws|
    requires i == |a| + 2 * j
    requires Success(next) == Prepend(a, BreedAll(breed, draws, n))
    ensures i + 1 < |next|
    ensures breed(draws[j]) == Success((next[i], next[i + 1]))
  {
    var batch := BreedAll(breed, draws, n).value;
    BreedAllPairs(breed, draws, n, j);
    assert next == a + batch;
    assert next[i] == batch[2 * j];
    assert next[i + 1] == batch[2 * j + 1];
  }

  /** The loop and the reference agree: from a non-empty pool, breeding
      returns the routes it started with followed by the children of the
      draws it consumes, in draw order, and fails exactly when one of those
      draws fails. */
  lemma {:induction false} BreedIsBreedAll(poolSize: nat, breed: Draw -> Result<(Route, Route)>, acc: Population,
                                           target: nat, draws: seq<Draw>, n: nat)
    requires poolSize > 0 && n == PairsNeeded(|acc|, target) && |draws| >= n
    ensures Breed(poolSize, breed, acc, target, draws) == Prepend(acc, BreedAll(breed, draws, n))
    decreases n
  {
    if n == 0 {
      assert target <= |acc|;
      assert acc + [] == acc;
    } else {
      BreedFirstPass(poolSize, breed, acc, target, draws);
      var first := breed(draws[0]);
      if first.Success? {
        var pair := [first.value.0, first.value.1];
        BreedIsBreedAll(poolSize, breed, acc + pair, target, draws[1..], n - 1);
        PrependTwice(acc, pair, BreedAll(breed, draws[1..], n - 1));
      }
    }
  }

  /** `breed` turns draw `d` into two valid routes. */
  ghost predicate BreedsValid(breed: Draw -> Result<(Route, Route)>, d: Draw, cfg: Config) {
    breed(d).Success? && ValidRoute(breed(d).value.0, cfg) && ValidRoute(breed(d).value.1, cfg)
  }

  /** With at least one waypoint, a valid draw breeds two valid children
      from valid parents. */
  lemma OffspringValid(cfg: Config, pool: Population, d: Draw)
    requires |pool| > 0 && AllValid(pool, cfg) && ValidDraw(d, |pool|, cfg)
    requires cfg.numWaypoints > 0
    ensures Offspring(pool, d, cfg).Success?
    ensures ValidRoute(Offspring(pool, d, cfg).value.0, cfg)
    ensures ValidRoute(Offspring(pool, d, cfg).value.1, cfg)
    ensures BreedsValid(BreedFrom(pool, cfg), d, cfg)
  {
    var p1, p2 := pool[d.parent1], pool[d.parent2];
    assert ValidRoute(p1, cfg) && ValidRoute(p2, cfg);
    CrossoverKeepsShape(cfg, p1, p2, d.cut);
    var children := Crossover(p1, p2, d.cut);
    MutateChangesAtMostOneInterior(cfg, children.0, d.coin1, d.site1, d.point1);
    MutateChangesAtMostOneInterior(cfg, children.1, d.coin2, d.site2, d.point2);
  }

  /** With mutation rate zero, breeding is plain crossover: every child's
      waypoints come from its two parents. */
  lemma ZeroRateOffspringIsCrossover(pool: Population, d: Draw, cfg: Config)
    requires d.parent1 < |pool| && d.parent2 < |pool|
    requires cfg.mutationRate == 0.0 && cfg.numWaypoints > 0
    requires 0.0 <= d.coin1 && 0.0 <= d.coin2
    ensures Offspring(pool, d, cfg) == Success(Crossover(pool[d.parent1], pool[d.parent2], d.cut))
  {
    var children := Crossover(pool[d.parent1], pool[d.parent2], d.cut);
    ZeroRateNeverMutates(children.0, d.coin1, cfg.numWaypoints, d.site1, d.point1);
    ZeroRateNeverMutates(children.1, d.coin2, cfg.numWaypoints, d.site2, d.point2);
  }

  /** When every draw breeds valid routes, the loop from a non-empty pool
      never raises, and every route it returns is valid. */
  lemma {:induction false} BreedKeepsRoutesValid(cfg: Config, poolSize: nat, breed: Draw -> Result<(Route, Route)>,
                                                 acc: Population, target: nat, draws: seq<Draw>)
    requires poolSize > 0 && AllValid(acc, cfg)
    requires |draws| >= PairsNeeded(|acc|, target)
    requires forall j :: 0 <= j < PairsNeeded(|acc|, target) ==> BreedsValid(breed, draws[j], cfg)
    ensures Breed(poolSize, breed, acc, target, draws).Success?
    ensures AllValid(Breed(poolSize, breed, acc, target, draws).value, cfg)
    decreases target - |acc|
  {
    if |acc| < target {
      BreedFirstPass(poolSize, breed, acc, target, draws);
      assert BreedsValid(breed, draws[0], cfg);
      var children := breed(draws[0]).value;
      var acc' := acc + [children.0, children.1];
      assert forall j :: 0 <= j < |draws[1..]| ==> draws[1..][j] == draws[j + 1];
      BreedKeepsRoutesValid(cfg, poolSize, breed, acc', target, draws[1..]);
    }
  }

  /** Routes drawn from a valid population are valid: this covers the
      ranking (a reordering) and the elites and pool (prefixes of it). */
  lemma DrawnRoutesValid(cfg: Config, pop: Population, drawn: Population)
    requires multiset(drawn) <= multiset(pop) && AllValid(pop, cfg)
    ensures AllValid(drawn, cfg)
  {
    forall i | 0 <= i < |drawn|
      ensures ValidRoute(drawn[i], cfg)
    {
      assert drawn[i] in multiset(pop);
      var k :| 0 <= k < |pop| && pop[k] == drawn[i];
    }
  }

  /** With no waypoints, the first crossover of a generation that needs
      children raises: `randint(1, 0)` has nothing to draw from. */
  lemma EvolveFailsOnEmptyRange(pop: Population, fitness: Route -> real, cfg: Config, draws: seq<Draw>)
    requires |pop| > 0 && cfg.numWaypoints == 0 && Elites(|pop|) < cfg.populationSize
    requires DrawsFit(draws, |pop|, cfg)
    ensures Evolve(pop, fitness, cfg, draws) == Failure(EmptyRange)
  {
    var pool := ParentPool(pop, fitness);
    BreedFirstPass(PoolSize(|pop|), BreedFrom(pool, cfg), EliteRoutes(pop, fitness), cfg.populationSize, draws);
    assert ParentsFit(draws[0], |pool|);
  }

  /** A generation that can breed, or needs no children, succeeds from
      valid routes and returns valid routes. */
  lemma EvolveSucceedsValid(pop: Population, fitness: Route -> real, cfg: Config, draws: seq<Draw>)
    requires |pop| > 0 && AllValid(pop, cfg) && DrawsFit(draws, |pop|, cfg)
    requires cfg.numWaypoints > 0 || cfg.populationSize <= Elites(|pop|)
    ensures Evolve(pop, fitness, cfg, draws).Success?
    ensures AllValid(Evolve(pop, fitness, cfg, draws).value, cfg)
  {
    var pool := ParentPool(pop, fitness);
    var elites := EliteRoutes(pop, fitness);
    DrawnRoutesValid(cfg, pop, pool);
    DrawnRoutesValid(cfg, pop, elites);
    if cfg.numWaypoints > 0 {
      forall j | 0 <= j < PairsNeeded(|elites|, cfg.populationSize)
        ensures BreedsValid(BreedFrom(pool, cfg), draws[j], cfg)
      {
        OffspringValid(cfg, pool, draws[j]);
      }
    }
    BreedKeepsRoutesValid(cfg, PoolSize(|pop|), BreedFrom(pool, cfg), elites, cfg.populationSize, draws);
  }

  /** Route-shape invariant of one generation: valid routes stay valid. The
      generation fails exactly when breeding is needed and either the pool
      is empty or there is no waypoint to cut at. */
  lemma EvolveKeepsRoutesValid(pop: Population, fitness: Route -> real, cfg: Config, draws: seq<Draw>)
    requires AllValid(pop, cfg) && DrawsFit(draws, |pop|, cfg)
    ensures Evolve(pop, fitness, cfg, draws).Success? <==>
      (cfg.populationSize <= Elites(|pop|) || (|pop| > 0 && cfg.numWaypoints > 0))
    ensures Evolve(pop, fitness, cfg, draws).Failure? ==>
      Evolve(pop, fitness, cfg, draws).error == (if |pop| == 0 then EmptyParentPool else EmptyRange)
    ensures Evolve(pop, fitness, cfg, draws).Success? ==>
      AllValid(Evolve(pop, fitness, cfg, draws).value, cfg)
  {
    if |pop| == 0 {
      assert Elites(|pop|) == 0;
    } else if cfg.numWaypoints == 0 && Elites(|pop|) < cfg.populationSize {
      EvolveFailsOnEmptyRange(pop, fitness, cfg, draws);
    } else {
      EvolveSucceedsValid(pop, fitness, cfg, draws);
    }
  }

  /** One generation in closed form: the ten best routes in ranking
      order, followed by the children of the draws the loop consumes, each
      pair bred from the first `min(25, |pop|)` routes of the ranking. */
  lemma EvolveBreedsFromPool(pop: Population, fitness: Route -> real, cfg: Config, draws: seq<Draw>)
    requires |pop| > 0
    requires |draws| >= PairsNeeded(Elites(|pop|), cfg.populationSize)
    ensures Evolve(pop, fitness, cfg, draws) ==
      Prepend(EliteRoutes(pop, fitness),
              BreedAll(BreedFrom(ParentPool(pop, fitness), cfg), draws,
                       PairsNeeded(Elites(|pop|), cfg.populationSize)))
  {
    BreedIsBreedAll(PoolSize(|pop|), BreedFrom(ParentPool(pop, fitness), cfg),
                    EliteRoutes(pop, fitness), cfg.populationSize, draws,
                    PairsNeeded(Elites(|pop|), cfg.populationSize));
  }

  /** For parents inside the pool, a pass of the loop is `Offspring`. */
  lemma BreedFromParents(pool: Population, cfg: Config, d: Draw, children: Result<(Route, Route)>)
    requires d.parent1 < |pool| && d.parent2 < |pool|
    requires BreedFrom(pool, cfg)(d) == children
    ensures Offspring(pool, d, cfg) == children
  {
  }

  /** Where parents come from: the `j`-th pair of children in the next
      generation is `Offspring` of two routes among the first
      `min(25, |pop|)` of the ranking, picked by draw `j`. */
  lemma EvolveParentsFromPool(pop: Population, fitness: Route -> real, cfg: Config, draws: seq<Draw>, j: nat,
                              next: Population)
    requires |pop| > 0
    requires |draws| >= PairsNeeded(Elites(|pop|), cfg.populationSize)
    requires forall k :: 0 <= k < |draws| ==> ParentsFit(draws[k], PoolSize(|pop|))
    requires Evolve(pop, fitness, cfg, draws) == Success(next)
    requires j < PairsNeeded(Elites(|pop|), cfg.populationSize)
    ensures draws[j].parent1 < |ParentPool(pop, fitness)| && draws[j].parent2 < |ParentPool(pop, fitness)|
    ensures Elites(|pop|) + 2 * j + 1 < |next|
    ensures Offspring(ParentPool(pop, fitness), draws[j], cfg) ==
      Success((next[Elites(|pop|) + 2 * j], next[Elites(|pop|) + 2 * j + 1]))
  {
    var pool := ParentPool(pop, fitness);
    var i := Elites(|pop|) + 2 * j;
    assert ParentsFit(draws[j], |pool|);
    EvolveBreedsFromPool(pop, fitness, cfg, draws);
    PrependedPair(EliteRoutes(pop, fitness), BreedFrom(pool, cfg), draws,
                  PairsNeeded(Elites(|pop|), cfg.populationSize), j, next, i);
    BreedFromParents(pool, cfg, draws[j], Success((next[i], next[i + 1])));
  }

  /** Elitism: the next generation opens with the best route of this one,
      which is the route `min` reports; so the best fitness never gets
      worse. */
  lemma EvolveKeepsBest(pop: Population, fitness: Route -> real, cfg: Config, draws: seq<Draw>, i: nat)
    requires |draws| >= PairsNeeded(Elites(|pop|), cfg.populationSize)
    requires Evolve(pop, fitness, cfg, draws).Success?
    requires IsFirstMinimum(pop, fitness, i)
    ensures |Evolve(pop, fitness, cfg, draws).value| > 0
    ensures Evolve(pop, fitness, cfg, draws).value[0] == pop[i]
    ensures MinKey(Evolve(pop, fitness, cfg, draws).value, fitness) <= MinKey(pop, fitness)
  {
    var r := Evolve(pop, fitness, cfg, draws).value;
    assert r[..Elites(|pop|)][0] == r[0];
    SortHeadIsFirstMinimum(pop, fitness, i);
    SortHeadHasMinKey(pop, fitness);
  }

  /** `GensFit` read generation by generation: the draws of generation
      `g` fit the population size after `g` generations. */
  lemma {:induction false} GensFitBySize(gens: seq<seq<Draw>>, n: nat, cfg: Config)
    ensures GensFit(gens, n, cfg) <==>
      forall g :: 0 <= g < |gens| ==> DrawsFit(gens[g], SizeAfter(n, cfg.populationSize, g), cfg)
    decreases |gens|
  {
    if |gens| > 0 {
      var next := EvolvedSize(n, cfg.populationSize);
      GensFitBySize(gens[1..], next, cfg);
      assert SizeAfter(n, cfg.populationSize, 0) == n;
      assert forall g :: 0 <= g < |gens| - 1 ==>
        gens[1..][g] == gens[g + 1] && SizeAfter(n, cfg.populationSize, g + 1) == SizeAfter(next, cfg.populationSize, g);
    }
  }

  /** One generation of the loop, unfolded. */
  lemma RunStep(pop: Population, fitness: Route -> real, cfg: Config, gens: seq<seq<Draw>>)
    requires |gens| > 0 && GensFit(gens, |pop|, cfg)
    ensures DrawsFit(gens[0], |pop|, cfg)
    ensures Evolve(pop, fitness, cfg, gens[0]).Success? ==>
      var next := Evolve(pop, fitness, cfg, gens[0]).value;
      GensFit(gens[1..], |next|, cfg) && Run(pop, fitness, cfg, gens) == Run(next, fitness, cfg, gens[1..])
  {
  }

  /** What the loop keeps true of every generation: valid routes, a
      non-empty population unless the target is zero, and either a waypoint
      to cut at or no children to breed. */
  ghost predicate Viable(pop: Population, cfg: Config) {
    && AllValid(pop, cfg)
    && (|pop| > 0 || cfg.populationSize == 0)
    && (cfg.numWaypoints > 0 || cfg.populationSize <= Elites(|pop|))
  }

  /** One generation from a viable population succeeds, is viable again,
      and is empty only if the population was. */
  lemma EvolveKeepsViable(pop: Population, fitness: Route -> real, cfg: Config, draws: seq<Draw>)
    requires Viable(pop, cfg) && DrawsFit(draws, |pop|, cfg)
    ensures Evolve(pop, fitness, cfg, draws).Success?
    ensures Viable(Evolve(pop, fitness, cfg, draws).value, cfg)
    ensures |Evolve(pop, fitness, cfg, draws).value| > 0 <==> |pop| > 0
  {
    EvolveKeepsRoutesValid(pop, fitness, cfg, draws);
    var n := |Evolve(pop, fitness, cfg, draws).value|;
    assert n == EvolvedSize(|pop|, cfg.populationSize);
    assert Elites(|pop|) <= n;
    if cfg.numWaypoints == 0 {
      assert n == Elites(|pop|) && Elites(n) == n;
    }
  }

  /** Route-shape invariant across the generation loop: from a viable
      population the loop never raises, every route stays valid, and the
      population is empty only if it started empty. */
  lemma {:induction false} RunKeepsRoutesValid(pop: Population, fitness: Route -> real, cfg: Config, gens: seq<seq<Draw>>)
    requires Viable(pop, cfg) && GensFit(gens, |pop|, cfg)
    ensures Run(pop, fitness, cfg, gens).Success?
    ensures Run(pop, fitness, cfg, gens).Success? ==> AllValid(Run(pop, fitness, cfg, gens).value, cfg)
    ensures Run(pop, fitness, cfg, gens).Success? ==> (|Run(pop, fitness, cfg, gens).value| > 0 <==> |pop| > 0)
    decreases |gens|
  {
    if |gens| > 0 {
      RunStep(pop, fitness, cfg, gens);
      EvolveKeepsViable(pop, fitness, cfg, gens[0]);
      var next := Evolve(pop, fitness, cfg, gens[0]).value;
      RunKeepsRoutesValid(next, fitness, cfg, gens[1..]);
    }
  }

  /** With no waypoints and more routes wanted than the elites supply, the
      first generation raises and the loop stops there. */
  lemma RunFailsOnEmptyRange(pop: Population, fitness: Route -> real, cfg: Config, gens: seq<seq<Draw>>)
    requires |pop| > 0 && cfg.numWaypoints == 0 && Elites(|pop|) < cfg.populationSize && |gens| > 0
    requires GensFit(gens, |pop|, cfg)
    ensures Run(pop, fitness, cfg, gens) == Failure(EmptyRange)
  {
    RunStep(pop, fitness, cfg, gens);
    EvolveFailsOnEmptyRange(pop, fitness, cfg, gens[0]);
  }

  /** The best fitness after any number of generations is at most the best
      fitness of the starting population. */
  lemma {:induction false} RunNeverLosesBest(pop: Population, fitness: Route -> real, cfg: Config, gens: seq<seq<Draw>>)
    requires |pop| > 0 && GensFit(gens, |pop|, cfg)
    requires Run(pop, fitness, cfg, gens).Success?
    ensures |Run(pop, fitness, cfg, gens).value| > 0
    ensures MinKey(Run(pop, fitness, cfg, gens).value, fitness) <= MinKey(pop, fitness)
    decreases |gens|
  {
    if |gens| > 0 {
      RunStep(pop, fitness, cfg, gens);
      var i :| 0 <= i < |pop| && fitness(pop[i]) == MinKey(pop, fitness);
      var first := FirstMinimumIndex(pop, fitness, i);
      EvolveKeepsBest(pop, fitness, cfg, gens[0], first);
      var next := Evolve(pop, fitness, cfg, gens[0]).value;
      RunNeverLosesBest(next, fitness, cfg, gens[1..]);
    }
  }

  /** A first minimum exists in every non-empty sequence. */
  lemma {:induction false} FirstMinimumIndex<T>(s: seq<T>, key: T -> real, i: nat) returns (first: nat)
    requires i < |s| && key(s[i]) == MinKey(s, key)
    ensures IsFirstMinimum(s, key, first)
    decreases i
  {
    if exists j :: 0 <= j < i && key(s[j]) == MinKey(s, key) {
      var j :| 0 <= j < i && key(s[j]) == MinKey(s, key);
      first := FirstMinimumIndex(s, key, j);
    } else {
      first := i;
    }
  }

  /** Once there are at least ten routes and the target is at least ten,
      every later generation has the target size, plus one when the
      shortfall after the elites is odd. */
  lemma {:induction false} SizeSettles(n: nat, target: nat, g: nat)
    requires EliteCount <= n && EliteCount <= target && 1 <= g
    ensures SizeAfter(n, target, g) == target + (target - EliteCount) % 2
    decreases g
  {
    var next := EvolvedSize(n, target);
    assert Elites(n) == EliteCount;
    assert next == target + (target - EliteCount) % 2;
    assert SizeAfter(n, target, g) == SizeAfter(next, target, g - 1);
    if g > 1 {
      SizeSettles(next, target, g - 1);
    } else {
      assert SizeAfter(next, target, 0) == next;
    }
  }

  /** With the program's own parameters (500 routes, 10 elites) the
      population has exactly 500 routes in every generation. */
  lemma SourceConfigKeepsSize(g: nat)
    ensures SizeAfter(SourceConfig.populationSize, SourceConfig.populationSize, g) == SourceConfig.populationSize
  {
    if g > 0 {
      SizeSettles(SourceConfig.populationSize, SourceConfig.populationSize, g);
    }
  }
}

/** The whole run: seed generation 0, evolve it for the configured number
    of generations, and report the best route as `min` with the fitness key
    does. */
module Optimiser {
  import opened Types
  import opened Routes
  import opened Ranking
  import opened Hazards
  import opened Evolution
  import opened EvolutionProofs

  /** The fitness the program ranks by: travel cost plus the danger term
      for the current hazard zones. */
  function FitnessOf(travel: Route -> real, zones: seq<Zone>): Route -> real {
    route => Fitness(travel, zones, route)
  }

  /** `min(population, key=fitness)`; `min` of an empty list raises. */
  method BestRoute(pop: Population, fitness: Route -> real) returns (best: Result<Route>)
    ensures best.Failure? <==> |pop| == 0
    ensures best.Failure? ==> best.error == EmptyPopulation
    ensures best.Success? ==> exists i :: IsFirstMinimum(pop, fitness, i) && best.value == pop[i]
    ensures best.Success? ==> best.value == StableSort(pop, fitness)[0]
  {
    if |pop| == 0 {
      return Failure(EmptyPopulation);
    }
    var i := FirstMinimum(pop, fitness);
    SortHeadIsFirstMinimum(pop, fitness, i);
    return Success(pop[i]);
  }

  /** The program's main sequence: seed, evolve, report `min` of the last
      generation. It returns a valid route (start, `numWaypoints` interior
      points in the domain, end) no worse than the best of generation 0
      unless the population is empty (`min` raises) or a generation has to
      breed with no waypoint to cut at (`randint(1, 0)` raises). */
  method Optimise(cfg: Config, travel: Route -> real, zones: seq<Zone>,
                  seeds: seq<seq<Point>>, gens: seq<seq<Draw>>) returns (best: Result<Route>)
    requires |seeds| == cfg.populationSize
    requires forall j :: 0 <= j < |seeds| ==> |seeds[j]| == cfg.numWaypoints
    requires forall j, i :: 0 <= j < |seeds| && 0 <= i < |seeds[j]| ==> InDomain(seeds[j][i])
    requires |gens| == cfg.numGenerations
    requires GensFit(gens, cfg.populationSize, cfg)
    ensures best.Success? <==>
      cfg.populationSize > 0 &&
      (cfg.numWaypoints > 0 || cfg.populationSize <= EliteCount || cfg.numGenerations == 0)
    ensures best.Failure? ==> best.error == (if cfg.populationSize == 0 then EmptyPopulation else EmptyRange)
    ensures best.Success? ==> ValidRoute(best.value, cfg)
    ensures best.Success? ==>
      FitnessOf(travel, zones)(best.value) <= MinKey(InitialPopulation(cfg, seeds), FitnessOf(travel, zones))
    ensures best.Success? ==>
      var final := Run(InitialPopulation(cfg, seeds), FitnessOf(travel, zones), cfg, gens);
      final.Success? &&
      exists i :: IsFirstMinimum(final.value, FitnessOf(travel, zones), i) && best.value == final.value[i]
  {
    var fitness := FitnessOf(travel, zones);
    var initial := InitialPopulation(cfg, seeds);
    RunOutcome(initial, fitness, cfg, gens);
    var outcome := Run(initial, fitness, cfg, gens);
    if outcome.Failure? {
      return Failure(outcome.error);
    }
    var final := outcome.value;
    best := BestRoute(final, fitness);
    if best.Success? {
      BestIsValidAndMinimal(final, fitness, cfg, best.value);
    }
  }

  /** What the generation loop delivers from a valid generation 0 of the
      configured size: it raises only when breeding is needed and there is
      no waypoint to cut at; otherwise every route stays valid, the
      population stays non-empty, and the best fitness never gets worse. */
  lemma RunOutcome(initial: Population, fitness: Route -> real, cfg: Config, gens: seq<seq<Draw>>)
    requires AllValid(initial, cfg) && |initial| == cfg.populationSize
    requires GensFit(gens, |initial|, cfg)
    ensures Run(initial, fitness, cfg, gens).Success? <==>
      (cfg.numWaypoints > 0 || cfg.populationSize <= EliteCount || |gens| == 0)
    ensures Run(initial, fitness, cfg, gens).Failure? ==> Run(initial, fitness, cfg, gens).error == EmptyRange
    ensures Run(initial, fitness, cfg, gens).Success? ==> AllValid(Run(initial, fitness, cfg, gens).value, cfg)
    ensures Run(initial, fitness, cfg, gens).Success? ==>
      (|Run(initial, fitness, cfg, gens).value| > 0 <==> |initial| > 0)
    ensures Run(initial, fitness, cfg, gens).Success? && |initial| > 0 ==>
      MinKey(Run(initial, fitness, cfg, gens).value, fitness) <= MinKey(initial, fitness)
  {
    assert cfg.populationSize <= Elites(|initial|) <==> cfg.populationSize <= EliteCount;
    if cfg.numWaypoints > 0 || cfg.populationSize <= EliteCount {
      RunKeepsRoutesValid(initial, fitness, cfg, gens);
      if |initial| > 0 {
        RunNeverLosesBest(initial, fitness, cfg, gens);
      }
    } else if |gens| > 0 {
      RunFailsOnEmptyRange(initial, fitness, cfg, gens);
    }
  }

  /** A first minimum of a valid population is valid and has the least fitness. */
  lemma BestIsValidAndMinimal(pop: Population, fitness: Route -> real, cfg: Config, best: Route)
    requires AllValid(pop, cfg)
    requires exists i :: IsFirstMinimum(pop, fitness, i) && best == pop[i]
    ensures ValidRoute(best, cfg)
    ensures fitness(best) == MinKey(pop, fitness)
  {
    var i :| IsFirstMinimum(pop, fitness, i) && best == pop[i];
    var m :| 0 <= m < |pop| && fitness(pop[m]) == MinKey(pop, fitness);
  }

  /** The scenario the program starts in: the default configuration and the
      two initial hazard zones. */
  method OptimiseAsShipped(travel: Route -> real, seeds: seq<seq<Point>>, gens: seq<seq<Draw>>)
    returns (best: Result<Route>)
    requires |seeds| == SourceConfig.populationSize
    requires forall j :: 0 <= j < |seeds| ==> |seeds[j]| == SourceConfig.numWaypoints
    requires forall j, i :: 0 <= j < |seeds| && 0 <= i < |seeds[j]| ==> InDomain(seeds[j][i])
    requires |gens| == SourceConfig.numGenerations
    requires forall g :: 0 <= g < |gens| ==>
      DrawsFit(gens[g], SourceConfig.populationSize, SourceConfig)
    ensures best.Success?
    ensures |best.value| == 3
    ensures best.value[0] == Point(0.0, 0.0) && best.value[2] == Point(100.0, 100.0)
  {
    forall g | 0 <= g < |gens|
      ensures DrawsFit(gens[g], SizeAfter(SourceConfig.populationSize, SourceConfig.populationSize, g), SourceConfig)
    {
      SourceConfigKeepsSize(g);
    }
    GensFitBySize(gens, SourceConfig.populationSize, SourceConfig);
    best := Optimise(SourceConfig, travel, InitialZones, seeds, gens);
  }
}

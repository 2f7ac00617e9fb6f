/**
 * The evolution driver of `main`: one generation step (select, cross,
 * mutate, evaluate, append until the new population is full), the
 * per-generation statistics, and the final best individual with its item
 * list. The random draws of each offspring pair are an input.
 */
module Evolution {
  import opened Knapsack
  import opened Scans
  import opened Individuals
  import opened Operators

  /** The draws consumed by one offspring pair. */
  datatype PairDraws = PairDraws(
    picks1: seq<nat>,     // tournament indices for the first parent
    picks2: seq<nat>,     // tournament indices for the second parent
    cross: bool,          // whether the crossover draw fell below the crossover rate
    point: nat,           // the crossover point, used only when cross holds
    flips1: seq<bool>,    // mutation decisions for the first child
    flips2: seq<bool>)    // mutation decisions for the second child

  /** Each draw lies in the range of its distribution. */
  predicate WellFormed(d: PairDraws)
  {
    ValidPicks(d.picks1) && ValidPicks(d.picks2) &&
    (d.cross ==> 1 <= d.point <= GENE_COUNT - 1) &&
    |d.flips1| == GENE_COUNT && |d.flips2| == GENE_COUNT
  }

  /** Pairs bred per generation: enough to fill POPULATION_SIZE slots, two at a time. */
  const PAIRS_PER_GENERATION: nat := (POPULATION_SIZE + 1) / 2

  /** The draws of one whole generation. */
  predicate GenerationDraws(ds: seq<PairDraws>)
  {
    |ds| == PAIRS_PER_GENERATION && forall k :: 0 <= k < |ds| ==> WellFormed(ds[k])
  }

  /** A schedule entry: the draws of one whole generation. */
  type Generation = ds: seq<PairDraws> | GenerationDraws(ds)
    witness seq(PAIRS_PER_GENERATION, _ => PairDraws([0, 0, 0], [0, 0, 0], false, 0,
                                                     seq(GENE_COUNT, _ => false), seq(GENE_COUNT, _ => false)))

  /** A population of the right size whose gene vectors have the catalog's length. */
  predicate Shaped(pop: seq<Snapshot>)
  {
    |pop| == POPULATION_SIZE && forall j :: 0 <= j < |pop| ==> |pop[j].genes| == GENE_COUNT
  }

  /** The two children one pair of draws produces, evaluated after mutation. */
  function Offspring(pop: seq<Snapshot>, d: PairDraws): (children: (Snapshot, Snapshot))
    requires Shaped(pop) && WellFormed(d)
  {
    var w1 := pop[Winner(pop, d.picks1)];
    var w2 := pop[Winner(pop, d.picks2)];
    var (g1, g2) := if d.cross then Crossed(w1.genes, w2.genes, d.point) else (w1.genes, w2.genes);
    var m1 := Mutated(g1, d.flips1);
    var m2 := Mutated(g2, d.flips2);
    (Snapshot(m1, Fitness(m1)), Snapshot(m2, Fitness(m2)))
  }

  /** The children pairs the draws of one generation breed from pop, in draw order. */
  function Broods(pop: seq<Snapshot>, ds: seq<PairDraws>): (kids: seq<(Snapshot, Snapshot)>)
    requires Shaped(pop) && forall k :: 0 <= k < |ds| ==> WellFormed(ds[k])
    ensures |kids| == |ds|
  {
    seq(|ds|, k requires 0 <= k < |ds| => Offspring(pop, ds[k]))
  }

  /** The pairs bred from draws 0..k are those from draws 0..k-1 followed by pair k's children. */
  lemma BroodsPrefix(pop: seq<Snapshot>, ds: seq<PairDraws>, k: nat)
    requires Shaped(pop) && (forall i :: 0 <= i < |ds| ==> WellFormed(ds[i])) && k < |ds|
    ensures Broods(pop, ds)[..k + 1] == Broods(pop, ds)[..k] + [Offspring(pop, ds[k])]
  {
  }

  /**
   * How children are placed in the new population: each pair appends its
   * first child, and its second child only while there is room. Once the
   * population is full the loop has stopped and later pairs are not bred.
   */
  function Fill(kids: seq<(Snapshot, Snapshot)>): (next: seq<Snapshot>)
    ensures |next| == if 2 * |kids| < POPULATION_SIZE then 2 * |kids| else POPULATION_SIZE
  {
    if kids == [] then []
    else
      var prev := Fill(kids[..|kids| - 1]);
      if |prev| >= POPULATION_SIZE then prev
      else
        var (c1, c2) := kids[|kids| - 1];
        prev + [c1] + (if |prev| + 1 < POPULATION_SIZE then [c2] else [])
  }

  /** One generation step on values: the population the generation's draws breed. */
  function NextPopulation(pop: seq<Snapshot>, ds: Generation): (next: seq<Snapshot>)
    requires Shaped(pop)
    ensures Shaped(next)
  {
    GenerationWellFormed(pop, ds);
    Fill(Broods(pop, ds))
  }

  /** The population after each generation's draws in turn. */
  function Evolve(pop: seq<Snapshot>, schedule: seq<Generation>): (last: seq<Snapshot>)
    requires Shaped(pop)
    ensures Shaped(last)
  {
    if schedule == [] then pop
    else
      var ds := schedule[|schedule| - 1];
      NextPopulation(Evolve(pop, schedule[..|schedule| - 1]), ds)
  }

  /** f applied to every non-empty prefix of s, shortest first. */
  function PrefixMap<T(!new), U>(f: seq<T> --> U, s: seq<T>): (r: seq<U>)
    requires forall p :: f.requires(p)
    ensures |r| == |s|
  {
    if s == [] then [] else PrefixMap(f, s[..|s| - 1]) + [f(s)]
  }

  /** Entry g of the prefix map is f of the first g + 1 elements. */
  lemma {:induction false} PrefixMapAt<T(!new), U>(f: seq<T> --> U, s: seq<T>, g: nat)
    requires (forall p :: f.requires(p)) && g < |s|
    ensures PrefixMap(f, s)[g] == f(s[..g + 1])
  {
    var n := |s| - 1;
    if g < n {
      PrefixMapAt(f, s[..n], g);
      assert s[..n][..g + 1] == s[..g + 1];
    } else {
      assert s[..g + 1] == s;
    }
  }

  /** The population after every generation of the run, in generation order. */
  function Trajectory(pop: seq<Snapshot>, schedule: seq<Generation>): (hist: seq<seq<Snapshot>>)
    requires Shaped(pop)
    ensures |hist| == |schedule|
  {
    PrefixMap((s: seq<Generation>) requires Shaped(pop) => Evolve(pop, s), schedule)
  }

  /** Entry g of the trajectory is the population after generations 0..g. */
  lemma TrajectoryAt(pop: seq<Snapshot>, schedule: seq<Generation>, g: nat)
    requires Shaped(pop) && g < |schedule|
    ensures Trajectory(pop, schedule)[g] == Evolve(pop, schedule[..g + 1])
  {
    PrefixMapAt((s: seq<Generation>) requires Shaped(pop) => Evolve(pop, s), schedule, g);
  }

  /** One more generation of draws adds one more population to the trajectory. */
  lemma TrajectoryStep(pop: seq<Snapshot>, schedule: seq<Generation>, g: nat)
    requires Shaped(pop) && g < |schedule|
    ensures Trajectory(pop, schedule[..g + 1]) == Trajectory(pop, schedule[..g]) + [Evolve(pop, schedule[..g + 1])]
  {
    assert schedule[..g + 1][..g] == schedule[..g];
  }

  /** One more pair appends its children while there is room. */
  lemma FillStep(kids: seq<(Snapshot, Snapshot)>, kid: (Snapshot, Snapshot))
    requires |Fill(kids)| < POPULATION_SIZE
    ensures Fill(kids + [kid]) == Fill(kids) + [kid.0] +
      (if |Fill(kids)| + 1 < POPULATION_SIZE then [kid.1] else [])
  {
    assert (kids + [kid])[..|kids|] == kids;
  }

  /** Pair k's first child sits at slot 2k and its second at slot 2k + 1, when those slots exist. */
  lemma {:induction false} FillAt(kids: seq<(Snapshot, Snapshot)>, k: nat)
    requires k < |kids|
    ensures 2 * k < |Fill(kids)| ==> Fill(kids)[2 * k] == kids[k].0
    ensures 2 * k + 1 < |Fill(kids)| ==> Fill(kids)[2 * k + 1] == kids[k].1
  {
    var n := |kids| - 1;
    var h := kids[..n];
    var prev := Fill(h);
    assert h + [kids[n]] == kids;
    if |prev| >= POPULATION_SIZE {
      assert Fill(kids) == prev;
      if k < n {
        FillAt(h, k);
        assert h[k] == kids[k];
      }
    } else {
      FillStep(h, kids[n]);
      var added := [kids[n].0] + (if |prev| + 1 < POPULATION_SIZE then [kids[n].1] else []);
      assert Fill(kids) == prev + added;
      if k < n {
        FillAt(h, k);
        assert h[k] == kids[k];
      } else {
        assert |prev| == 2 * k;
      }
    }
  }

  /**
   * Children are placed in pair order: pair k fills slot 2k with its first
   * child and slot 2k + 1, when it exists, with its second.
   */
  lemma FillLayout(kids: seq<(Snapshot, Snapshot)>)
    ensures forall k :: 0 <= k < |kids| && 2 * k < |Fill(kids)| ==> Fill(kids)[2 * k] == kids[k].0
    ensures forall k :: 0 <= k < |kids| && 2 * k + 1 < |Fill(kids)| ==> Fill(kids)[2 * k + 1] == kids[k].1
  {
    forall k | 0 <= k < |kids| {
      FillAt(kids, k);
    }
  }

  /** What holds of every child of every pair holds of every member of the new population. */
  lemma {:induction false} FillKeeps(kids: seq<(Snapshot, Snapshot)>, p: Snapshot -> bool)
    requires forall k :: 0 <= k < |kids| ==> p(kids[k].0) && p(kids[k].1)
    ensures forall j :: 0 <= j < |Fill(kids)| ==> p(Fill(kids)[j])
  {
    if kids != [] {
      var h := kids[..|kids| - 1];
      assert forall k :: 0 <= k < |h| ==> h[k] == kids[k];
      FillKeeps(h, p);
    }
  }

  /** The children built step by step from the winners are the pair's offspring. */
  lemma OffspringOfSteps(pop: seq<Snapshot>, d: PairDraws, c1: Snapshot, c2: Snapshot)
    requires Shaped(pop) && WellFormed(d)
    requires
      var w1 := pop[Winner(pop, d.picks1)];
      var w2 := pop[Winner(pop, d.picks2)];
      var (g1, g2) := if d.cross then Crossed(w1.genes, w2.genes, d.point) else (w1.genes, w2.genes);
      |g1| == |d.flips1| && |g2| == |d.flips2| &&
      c1.genes == Mutated(g1, d.flips1) && c2.genes == Mutated(g2, d.flips2)
    requires Evaluated(c1) && Evaluated(c2)
    ensures (c1, c2) == Offspring(pop, d)
  {
  }

  /** Children have the catalog's gene length and a fitness computed from their genes. */
  lemma OffspringWellFormed(pop: seq<Snapshot>, d: PairDraws)
    requires Shaped(pop) && WellFormed(d)
    ensures |Offspring(pop, d).0.genes| == GENE_COUNT && Evaluated(Offspring(pop, d).0)
    ensures |Offspring(pop, d).1.genes| == GENE_COUNT && Evaluated(Offspring(pop, d).1)
  {
  }

  /** The children of 0/1 parents are 0/1 genomes. */
  lemma OffspringKeepsGenomes(pop: seq<Snapshot>, d: PairDraws)
    requires Shaped(pop) && WellFormed(d)
    requires forall j :: 0 <= j < |pop| ==> IsGenome(pop[j].genes)
    ensures IsGenome(Offspring(pop, d).0.genes) && IsGenome(Offspring(pop, d).1.genes)
  {
    var w1 := pop[Winner(pop, d.picks1)];
    var w2 := pop[Winner(pop, d.picks2)];
    if d.cross {
      CrossedKeepsGenome(w1.genes, w2.genes, d.point);
      var (g1, g2) := Crossed(w1.genes, w2.genes, d.point);
      MutatedKeepsGenome(g1, d.flips1);
      MutatedKeepsGenome(g2, d.flips2);
    } else {
      MutatedKeepsGenome(w1.genes, d.flips1);
      MutatedKeepsGenome(w2.genes, d.flips2);
    }
  }

  /**
   * A generation step yields exactly POPULATION_SIZE individuals, each with
   * the catalog's gene length and its fitness computed from its final genes.
   */
  lemma GenerationWellFormed(pop: seq<Snapshot>, ds: Generation)
    requires Shaped(pop)
    ensures |Fill(Broods(pop, ds))| == POPULATION_SIZE
    ensures forall j :: 0 <= j < POPULATION_SIZE ==>
      |Fill(Broods(pop, ds))[j].genes| == GENE_COUNT && Evaluated(Fill(Broods(pop, ds))[j])
  {
    var kids := Broods(pop, ds);
    forall k | 0 <= k < |kids|
      ensures |kids[k].0.genes| == GENE_COUNT && Evaluated(kids[k].0)
      ensures |kids[k].1.genes| == GENE_COUNT && Evaluated(kids[k].1)
    {
      OffspringWellFormed(pop, ds[k]);
    }
    FillKeeps(kids, (s: Snapshot) => |s.genes| == GENE_COUNT && Evaluated(s));
  }

  /**
   * The new population holds, in order, the first and second child of each
   * pair; the second child of a pair is present only when its slot exists.
   */
  lemma GenerationLayout(pop: seq<Snapshot>, ds: Generation)
    requires Shaped(pop)
    ensures forall k :: 0 <= k < |ds| && 2 * k < POPULATION_SIZE ==>
      NextPopulation(pop, ds)[2 * k] == Offspring(pop, ds[k]).0
    ensures forall k :: 0 <= k < |ds| && 2 * k + 1 < POPULATION_SIZE ==>
      NextPopulation(pop, ds)[2 * k + 1] == Offspring(pop, ds[k]).1
  {
    var kids := Broods(pop, ds);
    var next := NextPopulation(pop, ds);
    assert next == Fill(kids);
    forall k | 0 <= k < |ds|
      ensures 2 * k < POPULATION_SIZE ==> next[2 * k] == Offspring(pop, ds[k]).0
      ensures 2 * k + 1 < POPULATION_SIZE ==> next[2 * k + 1] == Offspring(pop, ds[k]).1
    {
      FillAt(kids, k);
      assert kids[k] == Offspring(pop, ds[k]);
    }
  }

  /** A generation of 0/1 genomes breeds 0/1 genomes. */
  lemma GenerationKeepsGenomes(pop: seq<Snapshot>, ds: Generation)
    requires Shaped(pop)
    requires forall j :: 0 <= j < |pop| ==> IsGenome(pop[j].genes)
    ensures forall j :: 0 <= j < POPULATION_SIZE ==> IsGenome(NextPopulation(pop, ds)[j].genes)
  {
    var kids := Broods(pop, ds);
    forall k | 0 <= k < |kids|
      ensures IsGenome(kids[k].0.genes) && IsGenome(kids[k].1.genes)
    {
      OffspringKeepsGenomes(pop, ds[k]);
    }
    FillKeeps(kids, (s: Snapshot) => IsGenome(s.genes));
  }

  /** One more generation of draws applies one more generation step. */
  lemma EvolveStep(pop: seq<Snapshot>, schedule: seq<Generation>, g: nat)
    requires Shaped(pop) && g < |schedule|
    ensures Evolve(pop, schedule[..g + 1]) == NextPopulation(Evolve(pop, schedule[..g]), schedule[g])
  {
    assert schedule[..g + 1][..g] == schedule[..g];
  }

  /**
   * Every population of a run is made of 0/1 genomes with fitness
   * consistent with their genes.
   */
  lemma {:induction false} EvolveWellFormed(bits: seq<seq<int>>, schedule: seq<Generation>)
    requires InitialBits(bits)
    ensures forall j :: 0 <= j < POPULATION_SIZE ==>
      IsGenome(Evolve(Initial(bits), schedule)[j].genes) && Evaluated(Evolve(Initial(bits), schedule)[j])
  {
    InitialWellFormed(bits);
    if schedule != [] {
      var h := schedule[..|schedule| - 1];
      EvolveWellFormed(bits, h);
      GenerationWellFormed(Evolve(Initial(bits), h), schedule[|schedule| - 1]);
      GenerationKeepsGenomes(Evolve(Initial(bits), h), schedule[|schedule| - 1]);
    }
  }

  /** kids are the pairs the first |kids| draws breed from pop. */
  predicate BredFrom(pop: seq<Snapshot>, ds: seq<PairDraws>, kids: seq<(Snapshot, Snapshot)>)
    requires Shaped(pop) && forall k :: 0 <= k < |ds| ==> WellFormed(ds[k])
    decreases |kids|
  {
    |kids| <= |ds| &&
    (kids == [] ||
     (BredFrom(pop, ds, kids[..|kids| - 1]) && kids[|kids| - 1] == Offspring(pop, ds[|kids| - 1])))
  }

  /** Breeding the next draw's pair extends the bred pairs. */
  lemma BredFromStep(pop: seq<Snapshot>, ds: seq<PairDraws>, kids: seq<(Snapshot, Snapshot)>)
    requires Shaped(pop) && (forall k :: 0 <= k < |ds| ==> WellFormed(ds[k]))
    requires BredFrom(pop, ds, kids) && |kids| < |ds|
    ensures BredFrom(pop, ds, kids + [Offspring(pop, ds[|kids|])])
  {
    var more := kids + [Offspring(pop, ds[|kids|])];
    assert more[..|more| - 1] == kids;
    assert more[|more| - 1] == Offspring(pop, ds[|kids|]);
    assert ds[|more| - 1] == ds[|kids|];
  }

  /** Pairs bred from all the draws are the draws' broods. */
  lemma {:induction false} BredFromAll(pop: seq<Snapshot>, ds: seq<PairDraws>, kids: seq<(Snapshot, Snapshot)>)
    requires Shaped(pop) && (forall k :: 0 <= k < |ds| ==> WellFormed(ds[k]))
    requires BredFrom(pop, ds, kids)
    ensures kids == Broods(pop, ds)[..|kids|]
  {
    if kids != [] {
      var n := |kids| - 1;
      BredFromAll(pop, ds, kids[..n]);
      BroodsPrefix(pop, ds, n);
      assert kids == kids[..n] + [kids[|kids| - 1]];
    }
  }

  /** Once a pair is bred from every draw of the generation, placing them gives the next population. */
  lemma BredAllIsNext(pop: seq<Snapshot>, ds: Generation, kids: seq<(Snapshot, Snapshot)>)
    requires Shaped(pop) && BredFrom(pop, ds, kids) && |kids| == |ds|
    ensures Fill(kids) == NextPopulation(pop, ds)
  {
    BredFromAll(pop, ds, kids);
    assert Broods(pop, ds)[..|ds|] == Broods(pop, ds);
  }

  /**
   * Breeds one pair: two tournaments, crossover, mutation of each child and
   * recomputation of each child's fitness. The population is only read.
   */
  method BreedPair(pop: seq<Individual>, ghost vs: seq<Snapshot>, d: PairDraws) returns (c1: Individual, c2: Individual)
    requires Values(pop) == vs && Shaped(vs) && WellFormed(d)
    ensures fresh(c1) && fresh(c2) && c1 != c2
    ensures (c1.Value(), c2.Value()) == Offspring(vs, d)
  {
    var p1 := Tournament(pop, d.picks1);
    var p2 := Tournament(pop, d.picks2);
    c1, c2 := Crossover(p1, p2, d.cross, d.point);
    c1.Mutate(d.flips1);
    c2.Mutate(d.flips2);
    c1.CalculateFitness();
    c2.CalculateFitness();
    OffspringOfSteps(vs, d, c1.Value(), c2.Value());
  }

  /**
   * Appends a bred pair to the new population: the first child always, the
   * second only when there is still room for it.
   */
  method Place(next: seq<Individual>, c1: Individual, c2: Individual, ghost kids: seq<(Snapshot, Snapshot)>)
    returns (placed: seq<Individual>)
    requires Values(next) == Fill(kids) && |next| < POPULATION_SIZE
    requires Distinct(next) && c1 !in next && c2 !in next && c1 != c2
    ensures placed == next + [c1] + (if |next| + 1 < POPULATION_SIZE then [c2] else [])
    ensures |next| < |placed| && forall j :: 0 <= j < |next| ==> placed[j] == next[j]
    ensures forall j :: |next| <= j < |placed| ==> placed[j] == c1 || placed[j] == c2
    ensures Distinct(placed)
    ensures Values(placed) == Fill(kids + [(c1.Value(), c2.Value())])
  {
    FillStep(kids, (c1.Value(), c2.Value()));
    ValuesAppend(next, c1);
    placed := next + [c1];
    assert placed[..|next|] == next;
    if |placed| < POPULATION_SIZE {
      ValuesAppend(placed, c2);
      placed := placed + [c2];
      assert placed[..|next|] == next;
    }
  }

  /** One iteration of the generation loop: breeds the next pair and places its children. */
  method BreedAndPlace(pop: seq<Individual>, ghost vs: seq<Snapshot>, ds: Generation, k: nat,
                       next: seq<Individual>, ghost kids: seq<(Snapshot, Snapshot)>)
    returns (grown: seq<Individual>, ghost bred: seq<(Snapshot, Snapshot)>)
    requires Values(pop) == vs && Shaped(vs)
    requires k == |kids| < |ds| && BredFrom(vs, ds, kids)
    requires Values(next) == Fill(kids) && |next| < POPULATION_SIZE && Distinct(next)
    ensures |next| < |grown| && forall j :: 0 <= j < |next| ==> grown[j] == next[j]
    ensures forall j :: |next| <= j < |grown| ==> fresh(grown[j])
    ensures Distinct(grown)
    ensures |bred| == |kids| + 1 && BredFrom(vs, ds, bred)
    ensures Values(grown) == Fill(bred)
  {
    var c1, c2 := BreedPair(pop, vs, ds[k]);
    BredFromStep(vs, ds, kids);
    bred := kids + [(c1.Value(), c2.Value())];
    grown := Place(next, c1, c2, kids);
  }

  /**
   * One generation step: breeds pairs until the new population holds
   * POPULATION_SIZE fresh individuals. The current population is only read.
   */
  method NextGeneration(pop: seq<Individual>, ds: Generation) returns (next: seq<Individual>)
    requires Shaped(Values(pop))
    ensures forall j :: 0 <= j < |next| ==> fresh(next[j])
    ensures Distinct(next)
    ensures Values(next) == NextPopulation(Values(pop), ds)
  {
    ghost var vs := Values(pop);
    ghost var kids: seq<(Snapshot, Snapshot)> := [];
    next := [];
    var k := 0;
    while |next| < POPULATION_SIZE
      invariant k == |kids| <= |ds|
      invariant Values(pop) == vs
      invariant forall j :: 0 <= j < |next| ==> fresh(next[j])
      invariant Distinct(next)
      invariant BredFrom(vs, ds, kids)
      invariant Values(next) == Fill(kids)
      decreases POPULATION_SIZE - |next|
    {
      assert k < |ds|;
      next, kids := BreedAndPlace(pop, vs, ds, k, next, kids);
      k := k + 1;
    }
    assert |kids| == |ds|;
    BredAllIsNext(vs, ds, kids);
  }

  /** The maximum fitness of each population of a trajectory. */
  function MaxFits(hist: seq<seq<Snapshot>>): (maxFits: seq<int>)
    ensures |maxFits| == |hist|
  {
    if hist == [] then [] else MaxFits(hist[..|hist| - 1]) + [MaxFit(Fitnesses(hist[|hist| - 1]))]
  }

  /** The fitness sum of each population of a trajectory. */
  function Totals(hist: seq<seq<Snapshot>>): (totals: seq<int>)
    ensures |totals| == |hist|
  {
    if hist == [] then [] else Totals(hist[..|hist| - 1]) + [Sum(Fitnesses(hist[|hist| - 1]))]
  }

  /** Entry g of the statistics describes population g of the trajectory. */
  lemma {:induction false} StatsAt(hist: seq<seq<Snapshot>>, g: nat)
    requires g < |hist|
    ensures MaxFits(hist)[g] == MaxFit(Fitnesses(hist[g]))
    ensures Totals(hist)[g] == Sum(Fitnesses(hist[g]))
  {
    var n := |hist| - 1;
    if g < n {
      StatsAt(hist[..n], g);
      assert hist[..n][g] == hist[g];
    }
  }

  /** Recording one more population appends its statistics. */
  lemma StatsStep(hist: seq<seq<Snapshot>>, pop: seq<Snapshot>)
    ensures MaxFits(hist + [pop]) == MaxFits(hist) + [MaxFit(Fitnesses(pop))]
    ensures Totals(hist + [pop]) == Totals(hist) + [Sum(Fitnesses(pop))]
  {
    assert (hist + [pop])[..|hist|] == hist;
  }

  /** In an evaluated population of GENE_COUNT-gene individuals, the fitness sum lies between 0 and 1200 per individual. */
  lemma TotalBounded(pop: seq<Snapshot>)
    requires forall j :: 0 <= j < |pop| ==> |pop[j].genes| == GENE_COUNT && Evaluated(pop[j])
    ensures 0 <= Sum(Fitnesses(pop)) <= |pop| * 1200
  {
    var fs := Fitnesses(pop);
    forall j | 0 <= j < |fs|
      ensures 0 <= fs[j] <= 1200
    {
      SumsBounded(pop[j].genes);
    }
    SumBounded(fs, 1200);
  }

  /**
   * In a run, the maximum recorded for generation g is the fitness of the
   * first best individual of that generation's population, so it is attained.
   */
  lemma RecordedMaxAttained(bits: seq<seq<int>>, schedule: seq<Generation>, g: nat)
    requires InitialBits(bits) && g < |schedule|
    ensures
      var hist := Trajectory(Initial(bits), schedule);
      |hist[g]| == POPULATION_SIZE && MaxFits(hist)[g] == hist[g][FirstMax(Fitnesses(hist[g]))].fitness
  {
    var hist := Trajectory(Initial(bits), schedule);
    var pop := Evolve(Initial(bits), schedule[..g + 1]);
    TrajectoryAt(Initial(bits), schedule, g);
    StatsAt(hist, g);
    EvolveWellFormed(bits, schedule[..g + 1]);
    var fs := Fitnesses(pop);
    forall j | 0 <= j < |fs|
      ensures 0 <= fs[j]
    {
      SumsBounded(pop[j].genes);
    }
    MaxFitIsFirstMax(fs);
  }

  /**
   * The per-generation statistics: the maximum fitness, scanned from 0, and
   * the integer sum of the fitness values (the reported mean divides it by
   * POPULATION_SIZE in floating point).
   */
  method Statistics(pop: seq<Individual>) returns (maxFit: int, total: int)
    ensures maxFit == MaxFit(Fitnesses(Values(pop)))
    ensures total == Sum(Fitnesses(Values(pop)))
  {
    ghost var fs := Fitnesses(Values(pop));
    maxFit, total := 0, 0;
    for i := 0 to |pop|
      invariant maxFit == MaxFit(fs[..i])
      invariant total == Sum(fs[..i])
    {
      assert fs[..i + 1][..i] == fs[..i];
      if pop[i].fitness > maxFit {
        maxFit := pop[i].fitness;
      }
      total := total + pop[i].fitness;
    }
    assert fs[..|pop|] == fs;
  }

  /** `std::max_element` with `a.fitness < b.fitness`: the first individual of maximal fitness. */
  method BestIndex(pop: seq<Individual>) returns (b: nat)
    requires |pop| > 0
    ensures b == FirstMax(Fitnesses(Values(pop)))
  {
    ghost var fs := Fitnesses(Values(pop));
    b := 0;
    for i := 1 to |pop|
      invariant b == FirstMax(fs[..i])
    {
      assert fs[..i + 1][..i] == fs[..i];
      if pop[b].fitness < pop[i].fitness {
        b := i;
      }
    }
    assert fs[..|pop|] == fs;
  }

  /** The item indices the final report prints: the positions of non-zero genes. */
  method SelectedItems(genes: seq<int>) returns (items: seq<nat>)
    ensures items == Selected(genes)
  {
    items := [];
    for i := 0 to |genes|
      invariant items == Selected(genes[..i])
    {
      assert genes[..i + 1][..i] == genes[..i];
      if genes[i] != 0 {
        items := items + [i];
      }
    }
    assert genes[..|genes|] == genes;
  }

  /** Generation g of the run: the population after g generations becomes the one after g + 1. */
  method Advance(pop: seq<Individual>, ghost init: seq<Snapshot>, schedule: seq<Generation>, g: nat)
    returns (next: seq<Individual>)
    requires Shaped(init) && g < |schedule|
    requires Values(pop) == Evolve(init, schedule[..g])
    ensures Values(next) == Evolve(init, schedule[..g + 1])
  {
    EvolveStep(init, schedule, g);
    next := NextGeneration(pop, schedule[g]);
  }

  /**
   * The final report: the first individual of maximal fitness and the
   * positions of its non-zero genes.
   */
  method Report(pop: seq<Individual>) returns (best: Snapshot, items: seq<nat>)
    requires |pop| > 0
    ensures best == Values(pop)[FirstMax(Fitnesses(Values(pop)))]
    ensures items == Selected(best.genes)
  {
    var b := BestIndex(pop);
    best := pop[b].Value();
    items := SelectedItems(pop[b].genes);
  }

  /**
   * The whole run: initialise, then for every generation replace the
   * population by its offspring and record the statistics; finally report
   * the first best individual and its item list.
   */
  method Run(bits: seq<seq<int>>, schedule: seq<Generation>)
    returns (maxFits: seq<int>, totals: seq<int>, best: Snapshot, items: seq<nat>)
    requires InitialBits(bits)
    requires |schedule| == GENERATIONS
    ensures |maxFits| == GENERATIONS && |totals| == GENERATIONS
    ensures maxFits == MaxFits(Trajectory(Initial(bits), schedule))
    ensures totals == Totals(Trajectory(Initial(bits), schedule))
    ensures best == Evolve(Initial(bits), schedule)[FirstMax(Fitnesses(Evolve(Initial(bits), schedule)))]
    ensures items == Selected(best.genes)
  {
    var pop := InitializePopulation(bits);
    ghost var init := Initial(bits);
    ghost var hist: seq<seq<Snapshot>> := [];
    maxFits, totals := [], [];
    for g := 0 to GENERATIONS
      invariant Values(pop) == Evolve(init, schedule[..g])
      invariant hist == Trajectory(init, schedule[..g])
      invariant maxFits == MaxFits(hist) && totals == Totals(hist)
    {
      TrajectoryStep(init, schedule, g);
      pop := Advance(pop, init, schedule, g);
      ghost var now := Values(pop);
      var maxFit, total := Statistics(pop);
      StatsStep(hist, now);
      hist := hist + [now];
      maxFits := maxFits + [maxFit];
      totals := totals + [total];
    }
    assert schedule[..GENERATIONS] == schedule;
    best, items := Report(pop);
  }
}

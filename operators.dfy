/**
 * Population initialisation and the genetic operators: tournament
 * selection, one-point crossover. Every random draw is an input: the
 * initial bits, the sampled tournament indices, the crossover decision and
 * its point.
 */
module Operators {
  import opened Knapsack
  import opened Scans
  import opened Individuals

  /** The initial population the bits describe, each fitness computed from its genes. */
  function Initial(bits: seq<seq<int>>): (pop: seq<Snapshot>)
    requires forall j :: 0 <= j < |bits| ==> |bits[j]| == GENE_COUNT
  {
    seq(|bits|, j requires 0 <= j < |bits| => Snapshot(bits[j], Fitness(bits[j])))
  }

  /** The bits the initialiser draws: one 0/1 draw per gene of every individual. */
  predicate InitialBits(bits: seq<seq<int>>)
  {
    |bits| == POPULATION_SIZE && forall j :: 0 <= j < |bits| ==> IsGenome(bits[j])
  }

  /** Builds the generation-0 population from the drawn bits. */
  method InitializePopulation(bits: seq<seq<int>>) returns (pop: seq<Individual>)
    requires InitialBits(bits)
    ensures |pop| == POPULATION_SIZE
    ensures forall j :: 0 <= j < |pop| ==> fresh(pop[j])
    ensures Distinct(pop)
    ensures Values(pop) == Initial(bits)
  {
    pop := [];
    for j := 0 to POPULATION_SIZE
      invariant |pop| == j
      invariant forall l :: 0 <= l < j ==> fresh(pop[l])
      invariant Distinct(pop)
      invariant forall l :: 0 <= l < j ==> pop[l].Value() == Snapshot(bits[l], Fitness(bits[l]))
    {
      var ind: Individual := new Individual(Snapshot([], 0));
      ind.genes := seq(GENE_COUNT, _ => 0);
      for i := 0 to GENE_COUNT
        modifies ind`genes
        invariant |ind.genes| == GENE_COUNT
        invariant ind.genes[..i] == bits[j][..i]
      {
        ind.genes := ind.genes[i := bits[j][i]];
        assert ind.genes[..i + 1] == bits[j][..i + 1];
      }
      assert ind.genes == ind.genes[..GENE_COUNT] && bits[j] == bits[j][..GENE_COUNT];
      ind.CalculateFitness();
      pop := pop + [ind];
    }
  }

  /** Initial populations are well formed: 0/1 genomes with consistent fitness. */
  lemma InitialWellFormed(bits: seq<seq<int>>)
    requires InitialBits(bits)
    ensures |Initial(bits)| == POPULATION_SIZE
    ensures forall j :: 0 <= j < POPULATION_SIZE ==>
      IsGenome(Initial(bits)[j].genes) && Evaluated(Initial(bits)[j])
  {
  }

  /** The tournament draws are valid population indices. */
  predicate ValidPicks(picks: seq<nat>)
  {
    |picks| == TOURNAMENT_SIZE && forall j :: 0 <= j < |picks| ==> picks[j] < POPULATION_SIZE
  }

  /** The fitness of each sampled contender, in sampling order. */
  function ContenderFitness(pop: seq<Snapshot>, picks: seq<nat>): (fs: seq<int>)
    requires forall j :: 0 <= j < |picks| ==> picks[j] < |pop|
    ensures |fs| == |picks|
  {
    seq(|picks|, j requires 0 <= j < |picks| => pop[picks[j]].fitness)
  }

  /** Population index of the tournament winner: the first sampled maximal contender. */
  function Winner(pop: seq<Snapshot>, picks: seq<nat>): (w: nat)
    requires |picks| > 0
    requires forall j :: 0 <= j < |picks| ==> picks[j] < |pop|
    ensures w < |pop|
  {
    picks[FirstMax(ContenderFitness(pop, picks))]
  }

  /**
   * The winner is one of the sampled individuals; its fitness is at least
   * that of every contender; every contender sampled before it is strictly worse.
   */
  lemma WinnerIsFirstBest(pop: seq<Snapshot>, picks: seq<nat>)
    requires |picks| > 0
    requires forall j :: 0 <= j < |picks| ==> picks[j] < |pop|
    ensures exists k ::
      (0 <= k < |picks| && picks[k] == Winner(pop, picks) &&
       (forall j :: 0 <= j < |picks| ==> pop[picks[j]].fitness <= pop[picks[k]].fitness) &&
       (forall j :: 0 <= j < k ==> pop[picks[j]].fitness < pop[picks[k]].fitness))
  {
    var fs := ContenderFitness(pop, picks);
    var k := FirstMax(fs);
    assert forall j :: 0 <= j < |picks| ==> fs[j] == pop[picks[j]].fitness;
    assert picks[k] == Winner(pop, picks);
  }

  /** A tournament whose sample covers the whole population returns a global best. */
  lemma WinnerOfFullSample(pop: seq<Snapshot>, picks: seq<nat>)
    requires |picks| > 0
    requires forall j :: 0 <= j < |picks| ==> picks[j] < |pop|
    requires forall i :: 0 <= i < |pop| ==> i in picks
    ensures forall i :: 0 <= i < |pop| ==> pop[i].fitness <= pop[Winner(pop, picks)].fitness
  {
    WinnerIsFirstBest(pop, picks);
    forall i | 0 <= i < |pop|
      ensures pop[i].fitness <= pop[Winner(pop, picks)].fitness
    {
      assert i in picks;
      var j :| 0 <= j < |picks| && picks[j] == i;
    }
  }

  /**
   * Tournament selection: scans the sampled contenders and returns a copy of
   * the first strictly-best one. The population is only read.
   */
  method Tournament(pop: seq<Individual>, picks: seq<nat>) returns (best: Individual)
    requires |pop| == POPULATION_SIZE && ValidPicks(picks)
    ensures fresh(best)
    ensures best.Value() == Values(pop)[Winner(Values(pop), picks)]
  {
    ghost var vs := Values(pop);
    var b := pop[picks[0]];
    ghost var k := 0;
    for i := 1 to TOURNAMENT_SIZE
      invariant k == FirstMax(ContenderFitness(vs, picks[..i]))
      invariant b == pop[picks[k]]
    {
      assert ContenderFitness(vs, picks[..i + 1])[..i] == ContenderFitness(vs, picks[..i]);
      var contender := pop[picks[i]];
      if contender.fitness > b.fitness {
        b := contender;
        k := i;
      }
    }
    assert picks[..TOURNAMENT_SIZE] == picks;
    best := new Individual(b.Value());
  }

  /** One-point crossover at c: the children exchange the gene suffixes from c on. */
  function Crossed(g1: seq<int>, g2: seq<int>, c: nat): (children: (seq<int>, seq<int>))
    requires |g1| == |g2| && c <= |g1|
  {
    (g1[..c] + g2[c..], g2[..c] + g1[c..])
  }

  /**
   * The children keep the length, take their prefix from one parent and
   * their suffix from the other, and conserve each position's gene sum.
   */
  lemma CrossedSwapsSuffixes(g1: seq<int>, g2: seq<int>, c: nat)
    requires |g1| == |g2| && c <= |g1|
    ensures |Crossed(g1, g2, c).0| == |g1| && |Crossed(g1, g2, c).1| == |g1|
    ensures forall i :: 0 <= i < c ==> Crossed(g1, g2, c).0[i] == g1[i] && Crossed(g1, g2, c).1[i] == g2[i]
    ensures forall i :: c <= i < |g1| ==> Crossed(g1, g2, c).0[i] == g2[i] && Crossed(g1, g2, c).1[i] == g1[i]
    ensures forall i :: 0 <= i < |g1| ==> Crossed(g1, g2, c).0[i] + Crossed(g1, g2, c).1[i] == g1[i] + g2[i]
  {
  }

  /** Crossing the children again at the same point gives back the parents. */
  lemma CrossedTwice(g1: seq<int>, g2: seq<int>, c: nat)
    requires |g1| == |g2| && c <= |g1|
    ensures Crossed(Crossed(g1, g2, c).0, Crossed(g1, g2, c).1, c) == (g1, g2)
  {
    var (h1, h2) := Crossed(g1, g2, c);
    assert h1[..c] + h2[c..] == g1;
    assert h2[..c] + h1[c..] == g2;
  }

  /** Crossing two 0/1 genomes yields two 0/1 genomes. */
  lemma CrossedKeepsGenome(g1: seq<int>, g2: seq<int>, c: nat)
    requires IsGenome(g1) && IsGenome(g2) && c <= |g1|
    ensures IsGenome(Crossed(g1, g2, c).0) && IsGenome(Crossed(g1, g2, c).1)
  {
    CrossedSwapsSuffixes(g1, g2, c);
  }

  /** Parents 1111 and 0000 crossed at point 2 give 1100 and 0011. */
  lemma CrossedExample()
    ensures Crossed([1, 1, 1, 1], [0, 0, 0, 0], 2) == ([1, 1, 0, 0], [0, 0, 1, 1])
  {
    var ones, zeros := [1, 1, 1, 1], [0, 0, 0, 0];
    assert ones[..2] + zeros[2..] == [1, 1, 0, 0];
    assert zeros[..2] + ones[2..] == [0, 0, 1, 1];
  }

  /**
   * Crossover on copies of the parents: when `cross` holds, the suffixes
   * from `point` on are swapped position by position; otherwise the children
   * are plain copies. The parents themselves are never modified.
   */
  method Crossover(p1: Individual, p2: Individual, cross: bool, point: nat) returns (c1: Individual, c2: Individual)
    requires |p1.genes| == GENE_COUNT && |p2.genes| == GENE_COUNT
    requires cross ==> 1 <= point <= GENE_COUNT - 1
    ensures fresh(c1) && fresh(c2) && c1 != c2
    ensures (c1.genes, c2.genes) == if cross then Crossed(p1.genes, p2.genes, point) else (p1.genes, p2.genes)
    ensures c1.fitness == p1.fitness && c2.fitness == p2.fitness
  {
    c1 := new Individual(p1.Value());
    c2 := new Individual(p2.Value());
    if cross {
      for i := point to GENE_COUNT
        invariant |c1.genes| == GENE_COUNT && |c2.genes| == GENE_COUNT
        invariant c1.fitness == p1.fitness && c2.fitness == p2.fitness
        invariant forall k :: 0 <= k < GENE_COUNT ==>
          c1.genes[k] == (if point <= k < i then p2.genes[k] else p1.genes[k]) &&
          c2.genes[k] == (if point <= k < i then p1.genes[k] else p2.genes[k])
      {
        c1.genes, c2.genes := c1.genes[i := c2.genes[i]], c2.genes[i := c1.genes[i]];
      }
      assert c1.genes == Crossed(p1.genes, p2.genes, point).0;
      assert c2.genes == Crossed(p1.genes, p2.genes, point).1;
    }
  }
}

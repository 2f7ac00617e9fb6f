/**
 * The `Individual` struct: a gene vector and a fitness field that
 * `calculateFitness` writes and `mutate` leaves stale.
 */
module Individuals {
  import opened Knapsack

  /**
   * The value an Individual holds: what a C++ copy of it carries. The
   * fitness is whatever was last written, not necessarily that of the genes.
   */
  datatype Snapshot = Snapshot(genes: seq<int>, fitness: int)

  /** The fitness field agrees with the genes, as after calculateFitness. */
  predicate Evaluated(s: Snapshot)
  {
    |s.genes| <= |ITEMS| && s.fitness == Fitness(s.genes)
  }

  /** The fitness values of a population, in population order. */
  function Fitnesses(pop: seq<Snapshot>): (fs: seq<int>)
    ensures |fs| == |pop|
  {
    seq(|pop|, j requires 0 <= j < |pop| => pop[j].fitness)
  }

  /** Point mutation with the decisions `flips`: selected genes g become 1 - g. */
  function Mutated(g: seq<int>, flips: seq<bool>): (r: seq<int>)
    requires |flips| == |g|
  {
    seq(|g|, i requires 0 <= i < |g| => if flips[i] then 1 - g[i] else g[i])
  }

  /**
   * Mutation changes exactly the selected positions, flipping them, and
   * keeps the length.
   */
  lemma MutatedChangesExactlyFlips(g: seq<int>, flips: seq<bool>)
    requires |flips| == |g|
    ensures |Mutated(g, flips)| == |g|
    ensures forall i :: 0 <= i < |g| ==> (Mutated(g, flips)[i] != g[i] <==> flips[i])
    ensures forall i :: 0 <= i < |g| && flips[i] ==> Mutated(g, flips)[i] == 1 - g[i]
  {
  }

  /** Mutating a 0/1 genome yields a 0/1 genome. */
  lemma MutatedKeepsGenome(g: seq<int>, flips: seq<bool>)
    requires |flips| == |g| && IsGenome(g)
    ensures IsGenome(Mutated(g, flips))
  {
  }

  /** With no position selected the genes are identical. */
  lemma MutatedNoFlips(g: seq<int>, flips: seq<bool>)
    requires |flips| == |g|
    requires forall i :: 0 <= i < |flips| ==> !flips[i]
    ensures Mutated(g, flips) == g
  {
  }

  /** Applying the same decisions twice restores the genes. */
  lemma MutatedTwice(g: seq<int>, flips: seq<bool>)
    requires |flips| == |g|
    ensures Mutated(Mutated(g, flips), flips) == g
  {
  }

  class Individual {
    var genes: seq<int>
    var fitness: int

    /** A copy of the value `s`, as C++ copies an Individual by value. */
    constructor (s: Snapshot)
      ensures Value() == s
    {
      genes := s.genes;
      fitness := s.fitness;
    }

    function Value(): Snapshot
      reads this
    {
      Snapshot(genes, fitness)
    }

    /** Recomputes the fitness field from the genes; the genes are untouched. */
    method CalculateFitness()
      requires |genes| <= |ITEMS|
      modifies this`fitness
      ensures fitness == Fitness(genes)
      ensures Evaluated(Value())
    {
      var currentWeight, currentValue := 0, 0;
      for i := 0 to |genes|
        invariant currentWeight == TotalWeight(genes[..i])
        invariant currentValue == TotalValue(genes[..i])
      {
        assert genes[..i + 1][..i] == genes[..i];
        if genes[i] == 1 {
          currentWeight := currentWeight + ITEMS[i].weight;
          currentValue := currentValue + ITEMS[i].value;
        }
      }
      assert genes[..|genes|] == genes;
      if currentWeight > MAX_CAPACITY {
        fitness := 0;
      } else {
        fitness := currentValue;
      }
    }

    /** Flips, in place, the genes that `flips` selects; the fitness becomes stale. */
    method Mutate(flips: seq<bool>)
      requires |flips| == |genes|
      modifies this`genes
      ensures genes == Mutated(old(genes), flips)
    {
      for i := 0 to |genes|
        invariant |genes| == |flips|
        invariant forall k :: 0 <= k < i ==> genes[k] == if flips[k] then 1 - old(genes)[k] else old(genes)[k]
        invariant forall k :: i <= k < |genes| ==> genes[k] == old(genes)[k]
      {
        if flips[i] {
          genes := genes[i := 1 - genes[i]];
        }
      }
    }
  }

  /** The values held by a sequence of individuals. */
  function Values(pop: seq<Individual>): (vs: seq<Snapshot>)
    reads pop
    ensures |vs| == |pop|
    ensures forall j :: 0 <= j < |pop| ==> vs[j] == pop[j].Value()
  {
    seq(|pop|, j requires 0 <= j < |pop| reads pop => pop[j].Value())
  }

  /** No individual occurs twice: the sequence holds distinct objects, as a C++ vector holds distinct values. */
  predicate Distinct(s: seq<Individual>)
  {
    forall j, l :: 0 <= j < l < |s| ==> s[j] != s[l]
  }

  /** Appending an individual appends its value. */
  lemma ValuesAppend(pop: seq<Individual>, ind: Individual)
    ensures Values(pop + [ind]) == Values(pop) + [ind.Value()]
  {
  }
}

/**
 * The problem instance of the knapsack genetic algorithm: the item catalog,
 * the capacity, the algorithm's integer parameters, and the fitness rule
 * applied to a gene vector (`Individual::calculateFitness`).
 */
module Knapsack {

  /** An item of the catalog. Every weight and value in the catalog is non-negative. */
  datatype Item = Item(weight: nat, value: nat)

  const MAX_CAPACITY: int := 50

  const ITEMS: seq<Item> := [
    Item(10, 60), Item(20, 100), Item(30, 120), Item(15, 70), Item(5, 30),
    Item(12, 50), Item(8, 40), Item(7, 30), Item(18, 80), Item(25, 110)
  ]

  /** One gene per catalog item. */
  const GENE_COUNT: nat := |ITEMS|

  const POPULATION_SIZE: nat := 50
  const GENERATIONS: nat := 50
  const TOURNAMENT_SIZE: nat := 3

  /** A gene vector of the right length whose every gene is 0 or 1. */
  predicate IsGenome(g: seq<int>)
  {
    |g| == GENE_COUNT && forall i :: 0 <= i < |g| ==> g[i] == 0 || g[i] == 1
  }

  /** Sum of the weights of the items whose gene is exactly 1. */
  function TotalWeight(g: seq<int>): nat
    requires |g| <= |ITEMS|
  {
    if g == [] then 0
    else TotalWeight(g[..|g| - 1]) + (if g[|g| - 1] == 1 then ITEMS[|g| - 1].weight else 0)
  }

  /** Sum of the values of the items whose gene is exactly 1. */
  function TotalValue(g: seq<int>): nat
    requires |g| <= |ITEMS|
  {
    if g == [] then 0
    else TotalValue(g[..|g| - 1]) + (if g[|g| - 1] == 1 then ITEMS[|g| - 1].value else 0)
  }

  /** The fitness rule: the total value, or 0 when the total weight exceeds the capacity. */
  function Fitness(g: seq<int>): int
    requires |g| <= |ITEMS|
  {
    if TotalWeight(g) > MAX_CAPACITY then 0 else TotalValue(g)
  }

  /** The positions whose gene is non-zero, in increasing order (what the final report prints). */
  function Selected(g: seq<int>): seq<nat>
  {
    if g == [] then []
    else Selected(g[..|g| - 1]) + (if g[|g| - 1] != 0 then [|g| - 1] else [])
  }

  /** Sum of the weights of the catalog items at the given positions. */
  function WeightOf(idx: seq<nat>): nat
    requires forall k :: 0 <= k < |idx| ==> idx[k] < |ITEMS|
  {
    if idx == [] then 0 else WeightOf(idx[..|idx| - 1]) + ITEMS[idx[|idx| - 1]].weight
  }

  /** Sum of the values of the catalog items at the given positions. */
  function ValueOf(idx: seq<nat>): nat
    requires forall k :: 0 <= k < |idx| ==> idx[k] < |ITEMS|
  {
    if idx == [] then 0 else ValueOf(idx[..|idx| - 1]) + ITEMS[idx[|idx| - 1]].value
  }

  /** The reported item list is exactly the non-zero genes, strictly increasing. */
  lemma {:induction false} SelectedExactly(g: seq<int>)
    ensures forall k :: 0 <= k < |Selected(g)| ==> Selected(g)[k] < |g| && g[Selected(g)[k]] != 0
    ensures forall k, l :: 0 <= k < l < |Selected(g)| ==> Selected(g)[k] < Selected(g)[l]
    ensures forall i :: 0 <= i < |g| && g[i] != 0 ==> i in Selected(g)
  {
    if g != [] {
      var h := g[..|g| - 1];
      SelectedExactly(h);
      assert forall i :: 0 <= i < |h| ==> h[i] == g[i];
    }
  }

  /**
   * For a 0/1 gene vector, the fitness is the rule applied to the reported
   * items: their total weight against the capacity, and their total value.
   */
  lemma {:induction false} FitnessOfSelected(g: seq<int>)
    requires |g| <= |ITEMS|
    requires forall i :: 0 <= i < |g| ==> g[i] == 0 || g[i] == 1
    ensures forall k :: 0 <= k < |Selected(g)| ==> Selected(g)[k] < |ITEMS|
    ensures TotalWeight(g) == WeightOf(Selected(g))
    ensures TotalValue(g) == ValueOf(Selected(g))
    ensures Fitness(g) == if WeightOf(Selected(g)) > MAX_CAPACITY then 0 else ValueOf(Selected(g))
  {
    SelectedExactly(g);
    if g != [] {
      var n := |g| - 1;
      var h := g[..n];
      FitnessOfSelected(h);
      var s := Selected(h);
      if g[n] != 0 {
        var t := s + [n];
        assert Selected(g) == t;
        assert t[..|t| - 1] == s;
        assert WeightOf(t) == WeightOf(s) + ITEMS[n].weight;
        assert ValueOf(t) == ValueOf(s) + ITEMS[n].value;
      } else {
        assert Selected(g) == s;
        assert TotalWeight(g) == TotalWeight(h) && TotalValue(g) == TotalValue(h);
      }
    }
  }

  /** Every catalog weight is at most 30 and every value at most 120. */
  lemma ItemBounds(i: nat)
    requires i < |ITEMS|
    ensures ITEMS[i].weight <= 30 && ITEMS[i].value <= 120
  {
  }

  /**
   * The sums that calculateFitness accumulates in C++ `int` stay far below
   * 2^31 - 1, so no overflow can occur in the source.
   */
  lemma {:induction false} SumsBounded(g: seq<int>)
    requires |g| <= |ITEMS|
    ensures TotalWeight(g) <= 30 * |g| && TotalValue(g) <= 120 * |g|
    ensures TotalWeight(g) < 0x8000_0000 && TotalValue(g) < 0x8000_0000
    ensures 0 <= Fitness(g) <= 1200
  {
    if g != [] {
      SumsBounded(g[..|g| - 1]);
      ItemBounds(|g| - 1);
    }
  }

  /**
   * The fitness rule on the first three catalog items: items 0 and 1 weigh
   * 30 and are worth 160; adding item 2 weighs 60, over the capacity.
   */
  lemma FitnessExample()
    ensures Fitness([1, 1, 0]) == 160
    ensures Fitness([1, 1, 1]) == 0
  {
    assert TotalWeight([1, 1, 0]) == 30 && TotalValue([1, 1, 0]) == 160 by {
      assert [1, 1, 0][..2] == [1, 1] && [1, 1][..1] == [1] && [1][..0] == [];
    }
    assert TotalWeight([1, 1, 1]) == 60 by {
      assert [1, 1, 1][..2] == [1, 1] && [1, 1][..1] == [1] && [1][..0] == [];
    }
  }
}

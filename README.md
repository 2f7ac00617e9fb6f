# Knapsack genetic algorithm: a verified model

This project models `knapsackai.cpp`, a genetic algorithm for one fixed 0/1
knapsack instance: ten items, capacity 50. An individual is a vector of
ten genes, 0 or 1, and a `fitness` field. Fitness is the total value of the
chosen items, or 0 when their total weight exceeds the capacity. The program
does the following:

- It builds 50 random individuals.
- It evolves them for 50 generations. Each generation breeds offspring
  pairs until the new population holds 50 individuals. Breeding a pair
  takes two tournament selections of size 3, a one-point crossover with
  probability 0.8, per-gene mutation with probability 0.05, and
  recomputing each child's fitness.
- After each generation it records the maximum fitness and the sum of the
  fitness values; the printed mean divides that sum by 50.
- At the end it reports the first individual of maximal fitness and the
  indices of its chosen items.

The model has five modules:

- `Knapsack` (`knapsack.dfy`): the catalog, the constants, and the fitness
  rule as functions.
- `Scans` (`scans.dfy`): the three scans over fitness values, as
  specification functions:
  - the first strictly-best element;
  - the maximum, starting from 0;
  - the sum.
- `Individuals` (`individual.dfy`): the C++ `Individual` becomes a class
  whose `genes` and `fitness` fields are updated in place by
  `CalculateFitness` and `Mutate`. Its value, which is what a C++ copy
  carries, is the datatype `Snapshot`.
- `Operators` (`operators.dfy`): population initialisation, tournament
  selection and crossover, as methods. Each method is proved against a
  function on values.
- `Evolution` (`evolution.dfy`): the body of `main`.
  - The generation loop is `NextGeneration`. It is proved to produce
    `NextPopulation`, the value-level generation step.
  - The whole run is `Run`. It is proved to produce the statistics and the
    final report of `Evolve`, the population after every generation.

Every random draw is an input. A tournament's draws are its three sampled
indices. Crossover takes a boolean, "the probability draw fell below 0.8",
and a crossover point. Mutation takes one boolean per gene. The initial
genes are a sequence of 0/1 vectors. `PairDraws` groups the draws that one
offspring pair consumes. A `Generation` holds the draws of one generation.

## Model

| member | source | states |
|---|---|---|
| Knapsack.FitnessOfSelected | knapsackai.cpp:36-51 | for a 0/1 gene vector, the accumulated weight and value are the catalog sums over the genes equal to 1, and the fitness is that value, or 0 when that weight exceeds MAX_CAPACITY |
| Knapsack.TotalWeight | knapsackai.cpp:37-44 | definition: the sum of the catalog weights at the positions whose gene equals 1, accumulated in gene order |
| Knapsack.TotalValue | knapsackai.cpp:37-44 | definition: the sum of the catalog values at the positions whose gene equals 1, accumulated in gene order |
| Knapsack.Fitness | knapsackai.cpp:46-50 | definition: 0 when the total weight exceeds MAX_CAPACITY, the total value otherwise |
| Knapsack.Selected | knapsackai.cpp:152-153 | definition: the positions whose gene is non-zero, in increasing order |
| Knapsack.SumsBounded | knapsackai.cpp:37-50 | the weight and value accumulators are at most 30 and 120 per gene, far below 2^31, so the C++ `int` sums cannot overflow; every fitness lies between 0 and 1200 |
| Knapsack.FitnessExample | knapsackai.cpp:36-51 | genes 1,1,0 (items 0 and 1, weight 30) have fitness 160; genes 1,1,1 (weight 60, over the capacity) have fitness 0 |
| Knapsack.ItemBounds | knapsackai.cpp:16-19 | every catalog weight is at most 30 and every value at most 120 |
| Knapsack.SelectedExactly | knapsackai.cpp:152-153 | the reported indices are exactly the positions of non-zero genes, each in range, strictly increasing |
| Individuals.Individual.constructor | knapsackai.cpp:31-33 | a new individual holds exactly the given genes and fitness (a C++ copy by value) |
| Individuals.Individual.CalculateFitness | knapsackai.cpp:36-51 | the fitness field becomes the fitness rule applied to the genes; the genes are not changed |
| Individuals.Individual.Mutate | knapsackai.cpp:96-103 | the genes become the old genes with each selected position g replaced by 1 - g; the fitness field is not changed |
| Individuals.Mutated | knapsackai.cpp:98-101 | definition: each position whose draw selects it becomes 1 - g, every other position is kept |
| Individuals.MutatedChangesExactlyFlips | knapsackai.cpp:98-101 | mutation keeps the length, changes a gene if and only if its position is selected, and sets a selected gene g to 1 - g |
| Individuals.MutatedKeepsGenome | knapsackai.cpp:100 | mutating a 0/1 genome gives a 0/1 genome |
| Individuals.MutatedNoFlips | knapsackai.cpp:99 | when no probability draw falls below the mutation rate, the genes are unchanged |
| Individuals.MutatedTwice | knapsackai.cpp:100 | flipping the same positions twice restores the genes |
| Scans.FirstMax | knapsackai.cpp:148-149 | the index is in range, its element is at least every element, and every earlier element is strictly smaller (`std::max_element` with `<`) |
| Scans.MaxFit | knapsackai.cpp:135-138 | the maximum scanned from 0 is non-negative, at least every element, and either 0 or equal to some element |
| Scans.MaxFitAttained | knapsackai.cpp:135-138 | with non-negative fitness values, the maximum is one of the elements |
| Scans.MaxFitIsFirstMax | knapsackai.cpp:135-149 | with non-negative fitness values, the recorded maximum is the fitness of the reported best individual |
| Scans.Sum | knapsackai.cpp:137-139 | definition: the fitness values added up in population order |
| Scans.SumBounded | knapsackai.cpp:136-141 | the fitness sum lies between 0 and the population size times any bound on the fitness values |
| Operators.InitializePopulation | knapsackai.cpp:55-67 | builds POPULATION_SIZE fresh, distinct individuals; individual j holds the drawn genes j and their fitness |
| Operators.Initial | knapsackai.cpp:59-65 | definition: individual j holds the drawn genes j and their fitness |
| Operators.InitialWellFormed | knapsackai.cpp:55-67 | the initial population has POPULATION_SIZE 0/1 genomes whose fitness agrees with their genes |
| Operators.ContenderFitness | knapsackai.cpp:72-78 | one fitness per sampled contender, in sampling order |
| Operators.Winner | knapsackai.cpp:70-80 | the tournament winner is a valid population index |
| Operators.WinnerIsFirstBest | knapsackai.cpp:72-78 | the winner is a sampled individual whose fitness is at least that of every contender, and every contender sampled before it is strictly worse |
| Operators.WinnerOfFullSample | knapsackai.cpp:72-78 | a sample that covers the whole population yields a global best |
| Operators.Tournament | knapsackai.cpp:70-80 | returns a fresh copy of the value of the winner of the sampled indices; the population is only read |
| Operators.Crossed | knapsackai.cpp:88-90 | definition: each child keeps its own parent's genes before the point and takes the other parent's from the point on |
| Operators.CrossedSwapsSuffixes | knapsackai.cpp:86-90 | both children keep the length; below the point each child keeps its parent's genes, from the point on it has the other parent's; the gene sum at each position is conserved |
| Operators.CrossedTwice | knapsackai.cpp:88-90 | crossing the children again at the same point restores the parents |
| Operators.CrossedKeepsGenome | knapsackai.cpp:88-90 | crossing 0/1 genomes yields 0/1 genomes |
| Operators.CrossedExample | knapsackai.cpp:88-90 | 1111 and 0000 crossed at point 2 give 1100 and 0011 |
| Operators.Crossover | knapsackai.cpp:83-93 | the children are fresh and distinct; they are the crossed gene vectors when the crossover draw succeeds and plain copies of the parents otherwise; their fitness fields are the parents' |
| Evolution.Offspring | knapsackai.cpp:114-126 | definition: the two tournament winners, crossed when the draw says so, each mutated by its flips and evaluated |
| Evolution.Broods | knapsackai.cpp:112-126 | one offspring pair per draw of the generation, in draw order |
| Evolution.OffspringOfSteps | knapsackai.cpp:114-126 | the children built by select, cross, mutate and evaluate are exactly the pair's `Offspring` |
| Evolution.OffspringWellFormed | knapsackai.cpp:121-126 | each child has GENE_COUNT genes and a fitness that agrees with its final genes |
| Evolution.OffspringKeepsGenomes | knapsackai.cpp:114-126 | children of 0/1 parents are 0/1 genomes |
| Evolution.Fill | knapsackai.cpp:112-130 | after k pairs the new population has 2k members, capped at POPULATION_SIZE |
| Evolution.FillStep | knapsackai.cpp:128-129 | a pair appends its first child, and its second only while the population is not yet full |
| Evolution.FillAt | knapsackai.cpp:128-129 | the first child of pair k sits at slot 2k and its second at slot 2k + 1, when those slots exist |
| Evolution.FillLayout | knapsackai.cpp:112-130 | every pair's children sit at slots 2k and 2k + 1, in pair order |
| Evolution.FillKeeps | knapsackai.cpp:112-130 | any property of every child holds of every member of the new population |
| Evolution.GenerationWellFormed | knapsackai.cpp:110-132 | a generation step produces exactly POPULATION_SIZE individuals, each with GENE_COUNT genes and a fitness consistent with them |
| Evolution.GenerationLayout | knapsackai.cpp:112-130 | slot 2k of the new population holds the first child of pair k, and slot 2k + 1 its second child when that slot exists |
| Evolution.GenerationKeepsGenomes | knapsackai.cpp:110-132 | a population of 0/1 genomes breeds a population of 0/1 genomes |
| Evolution.NextPopulation | knapsackai.cpp:110-132 | the value-level generation step keeps the population's size and gene length |
| Evolution.Evolve | knapsackai.cpp:109-132 | every population of a run has POPULATION_SIZE members with GENE_COUNT genes |
| Evolution.EvolveStep | knapsackai.cpp:109-132 | one more generation of draws applies one more generation step |
| Evolution.EvolveWellFormed | knapsackai.cpp:106-132 | every population of a run consists of 0/1 genomes whose fitness agrees with their genes |
| Evolution.PrefixMapAt | knapsackai.cpp:109-145 | entry g of the per-generation record is computed from the first g + 1 generations |
| Evolution.TrajectoryAt | knapsackai.cpp:109-145 | entry g of the trajectory is the population after generations 0..g |
| Evolution.TrajectoryStep | knapsackai.cpp:109-145 | one more generation adds one more population to the trajectory |
| Evolution.BreedPair | knapsackai.cpp:113-126 | breeds two fresh, distinct children whose values are the pair's `Offspring`; the population is only read |
| Evolution.Place | knapsackai.cpp:128-129 | appends the first child, and the second only while there is room; earlier members stay in place and the population's value follows `Fill` |
| Evolution.BreedAndPlace | knapsackai.cpp:112-130 | one loop iteration keeps the earlier members, adds fresh, distinct ones, and keeps the new population equal to `Fill` of the pairs bred so far |
| Evolution.BredFromAll | knapsackai.cpp:112-130 | the pairs bred so far are a prefix of the generation's broods |
| Evolution.BredAllIsNext | knapsackai.cpp:112-132 | once every pair of the generation is bred, the placed children are the next population |
| Evolution.NextGeneration | knapsackai.cpp:110-132 | the generation loop ends with fresh, distinct individuals whose values are `NextPopulation` of the current population's values |
| Evolution.MaxFits | knapsackai.cpp:135-144 | one recorded maximum per population of the trajectory, in generation order |
| Evolution.Totals | knapsackai.cpp:135-144 | one recorded fitness sum per population of the trajectory, in generation order |
| Evolution.StatsAt | knapsackai.cpp:135-141 | entry g of the recorded statistics is the maximum and the fitness sum of population g |
| Evolution.StatsStep | knapsackai.cpp:135-144 | recording one more population appends its maximum and its sum |
| Evolution.TotalBounded | knapsackai.cpp:136-141 | the fitness sum of evaluated individuals lies between 0 and 1200 per individual |
| Evolution.RecordedMaxAttained | knapsackai.cpp:132-138 | in a run, the maximum recorded for generation g is the fitness of the first best individual of that generation's population |
| Evolution.Statistics | knapsackai.cpp:135-141 | the scan returns `MaxFit` and `Sum` of the population's fitness values |
| Evolution.BestIndex | knapsackai.cpp:148-149 | the index is `FirstMax` of the fitness values: the first individual of maximal fitness |
| Evolution.SelectedItems | knapsackai.cpp:152-153 | the reported indices are `Selected` of the best individual's genes |
| Evolution.Advance | knapsackai.cpp:109-132 | the population after g generations becomes the population after g + 1 |
| Evolution.Report | knapsackai.cpp:147-154 | returns the first best individual's value and its item list |
| Evolution.Run | knapsackai.cpp:105-157 | the recorded maxima and sums are those of every population of the trajectory, one per generation, and the report is the first best individual of the final population with its non-zero gene positions |

## Left out

- The random number generator (`std::mt19937` seeded from `time(0)`, lines 29, 57, 71, 84, 86 and 97) is not modelled. Every draw it would produce is an input. `WellFormed` and `InitialBits` limit the draws to the ranges of their distributions.
- Floating point is not modelled. The comparisons `prob(rng) < CROSSOVER_RATE` and `prob(rng) < MUTATION_RATE` (lines 85 and 99) become the boolean draws `cross` and `flips`, so the rates 0.8 and 0.05 do not appear.
- Statistics: models the integer sum behind `avgFit` (lines 136-141), but not the double accumulation or the division by POPULATION_SIZE.
- Console output (lines 143-144 and 151-154) is not modelled. `Run` returns the values that would be printed instead.
- Convergence and solution quality of the algorithm are not stated: they depend on the random draws.
- `std::vector<Individual> population(POPULATION_SIZE)` (line 56) value-initialises every element, so each starts with empty genes and fitness 0. `InitializePopulation` starts each individual from exactly that value, `Snapshot([], 0)`. `calculateFitness` (line 64) then overwrites the fitness before any read.
- Fill models the check at line 129 that drops the second child when the population is full. With POPULATION_SIZE 50, which is even, that drop never happens.
- Fitness counts a gene only when it equals 1 (line 40), but printing takes any non-zero gene (line 153). Both are modelled as written. `FitnessOfSelected` relates them only for 0/1 genomes, and every population of a run is made of those (`EvolveWellFormed`).
- C++ `int` overflow needs no wrap-around modelling. `SumsBounded` bounds every fitness value by 1200. `TotalBounded` bounds the fitness sum of a population of evaluated individuals by 1200 per individual, that is 60000 for POPULATION_SIZE 50.

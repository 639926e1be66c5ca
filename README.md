# A verified model of a small genetic-algorithm solver

This project models a small genetic-algorithm solver in Dafny, together with two of its problem plug-ins.

- **Solver.** The solver is generic: `GASolver` keeps a population of `Individual`s as its state.
  - `reset_population` appends freshly evaluated individuals.
  - `evolve_for_one_generation` ranks the population by fitness and keeps its fittest `round(n * selection_rate)` individuals. It then refills the population to its old size with offspring of two distinct randomly chosen members of the breeding pool (the survivors and the offspring bred so far), mutated when a random number falls below the mutation rate.
  - `get_best_individual` ranks the population and returns its head.
  - `evolve_until` runs at most a given number of generations and stops after the first one whose best fitness equals a threshold.
- **Travelling-salesperson plug-in** (`TSProblem`). Its crossover keeps the first half of one tour and repairs the rest so that no city repeats. Its mutation swaps two cities in place.
- **Mastermind plug-in** (`MastermindProblem`). Its crossover is one-point. Its mutation replaces one colour.

Files:

- `wrappers.dfy` (module `Wrappers`): `Option`, and `Result` carrying a Python exception (`IndexError`, `ValueError`).
- `py_slices.dfy` (module `PySlices`): Python slice bounds, `s[:k]` and `s[k:]`.
- `individual.dfy` (module `Individuals`):
  - `Individual` and its `__lt__`.
  - The order `list.sort(reverse=True)` leaves a population in. It is defined as a stable insertion sort, `SortDescending`.
- `ga_solver.dfy` (module `GaSolver`):
  - The problem callbacks, as function-valued fields of a `Problem` datatype.
  - Functions that specify one generation (`NextGeneration`, built on `Refill`) and one run (`Evolution`).
  - Lemmas about those functions.
  - The class `GASolver`, whose `population` field its methods update. Each method is proved equal to the corresponding function.
- `tsp_problem.dfy` (module `TspProblem`): the tour operators on arrays.
  - Reproduction is a method with the source's two loops, proved equal to `Crossover`.
  - Mutation swaps in place.
- `mastermind_problem.dfy` (module `MastermindProblem`): the Mastermind operators, as pure functions.

All randomness is an input:

- **Solver draws.** The chromosomes `problem_chromosome` would generate are passed to `ResetPopulation`. Each breeding attempt consumes one `Draw(a, b, number)`:
  - the two `random.choice` calls pick positions `Choice(a, |pool|)` and `Choice(b, |pool|)`, that is `a % |pool|` (`ChoiceIsRemainder`);
  - `number` is the value of `random.random()`.
- **Generation runs.** A generation runs on a sequence of draws from a given position. It reports the first unused position, so the next generation continues from there.
- **Plug-in draws.** The plug-ins take their `randrange`/`choice` results as parameters, constrained to the ranges those calls draw from.

Where the code and its documentation disagree, the model follows the code:

- `reset_population` appends and does not clear the existing population (`ga_solver.py:96-100`).
- The two parents are compared by identity (`a==b` on objects without `__eq__`). Every entry of the population list is a distinct object, so the model compares the positions drawn, not the values.
- The parents of an offspring are drawn from the growing breeding pool, not only from the survivors. The docstring (`ga_solver.py:106-107`) says the new individuals come from crossing the surviving ones. But both `random.choice` calls draw from `selected_population` (`ga_solver.py:116-117`), and each child is appended to that same list (`ga_solver.py:129`). So a later child of a generation can have an earlier one as a parent: `Refill` draws from the grown pool.
- `evolve_until` stops on `==`, not on the `>=` its docstring describes (`ga_solver.py:147-152`).

## Model

| member | source | states |
|---|---|---|
| `Individuals.Less` | ga_solver.py:28-30 | `__lt__`: one individual is less than another exactly when its fitness is smaller; its order properties are stated by `LessIsStrictWeakOrder` |
| `Individuals.LessIsStrictWeakOrder` | ga_solver.py:28-30 | `__lt__` compares fitness only: it is irreflexive and transitive, and two individuals are incomparable exactly when their fitnesses are equal |
| `Individuals.Insert` | ga_solver.py:112 | one step of the stable descending sort: `x` goes in front of the first individual not fitter than it, making the list one longer; `InsertPermutes`, `InsertKeepsDescending` and `InsertOfFitness` state what it keeps |
| `Individuals.InsertPermutes` | ga_solver.py:112 | inserting into the ranking adds exactly the inserted individual (multiset) |
| `Individuals.InsertKeepsDescending` | ga_solver.py:112 | inserting into a descending ranking keeps it descending |
| `Individuals.SortDescending` | ga_solver.py:112 | `sort(reverse=True)` as a stable insertion sort, of the population's length; `SortPermutes`, `SortSorts` and `SortStable` show it is the one stable descending ordering of the population |
| `Individuals.SortPermutes` | ga_solver.py:112 | ranking (`sort(reverse=True)`) is a permutation of the population |
| `Individuals.SortSorts` | ga_solver.py:112 | after ranking, no individual is less fit than a later one |
| `Individuals.InsertOfFitness` | ga_solver.py:112 | inserting `x` puts it in front of every equally fit individual and keeps the order of those of any other fitness |
| `Individuals.SortStable` | ga_solver.py:112 | `list.sort` is stable: for every fitness, the individuals of that fitness appear in the ranking in their order in the population, which decides which of them survive the `[:k]` slice and which one `get_best_individual` returns |
| `Individuals.SortSorted` | ga_solver.py:141 | ranking an already ranked population leaves it unchanged |
| `Individuals.SortIdempotent` | ga_solver.py:141 | ranking twice is the same as ranking once, as when `get_best_individual` re-sorts |
| `Individuals.HeadIsFittest` | ga_solver.py:140-142 | the head of a descending population is at least as fit as every member |
| `GaSolver.Choice` | ga_solver.py:116-117 | the position `random.choice` picks always lies inside the list |
| `GaSolver.ChoiceIsRemainder` | ga_solver.py:116-117 | that position is the drawn number modulo the list length |
| `GaSolver.Born` | ga_solver.py:96-99 | one individual per generated chromosome, in order, carrying that chromosome and its problem fitness |
| `GaSolver.RoundHalfEven` | ga_solver.py:113 | Python `round` lands within 0.5 of its argument and on the even integer at a tie |
| `GaSolver.RoundHalfEvenUnique` | ga_solver.py:113 | exactly one integer has those two properties, so `RoundHalfEven` is Python's `round` |
| `GaSolver.Scaled` | ga_solver.py:113 | `len(population) * selection_rate`, as a repeated exact sum; `ScaledIsProduct` proves it is the product |
| `GaSolver.ScaledIsProduct` | ga_solver.py:113 | the repeated addition equals `n * selection_rate`, and lies within `[0, n]` for a rate in `[0, 1]` |
| `GaSolver.SurvivorCount` | ga_solver.py:113 | the number of survivors never exceeds the population size |
| `GaSolver.SurvivorCountInRange` | ga_solver.py:113 | for a rate in `[0, 1]` exactly `round(n * selection_rate)` individuals survive |
| `GaSolver.Offspring` | ga_solver.py:116-119 | an attempt yields no offspring exactly when both choices pick the same individual |
| `GaSolver.OffspringSound` | ga_solver.py:116-128 | an offspring's parents are the two distinct drawn positions; it is mutated exactly when the drawn number is `<` the mutation rate; its chromosome is `reproduction` (then `mutation` with the first parent's length, if mutated) and its fitness that of the chromosome |
| `GaSolver.Refill` | ga_solver.py:115-129 | the breeding loop never consumes draws before its starting position or past the end |
| `GaSolver.RefillSkip` | ga_solver.py:118-119 | a draw that picks one individual twice is skipped: nothing is appended and the next draw is used |
| `GaSolver.RefillBirth` | ga_solver.py:121-129 | a draw with two distinct picks appends their offspring and continues with the next draw |
| `GaSolver.NextGeneration` | ga_solver.py:112-131 | one generation consumes only draws between its starting position and the end |
| `GaSolver.RefillTrace` | ga_solver.py:115-129 | the breeding loop only appends, and each individual it appends is recorded soundly with the draw that bred it; every draw in between was skipped |
| `GaSolver.NextGenerationBreeds` | ga_solver.py:112-131 | a completed generation keeps the population size; ranking is a permutation; its first `k` members are the ranking's top `k`, unchanged, and each is at least as fit as every individual it displaced; the rest are offspring traced to the draws |
| `GaSolver.NextGenerationSize` | ga_solver.py:113-115 | a completed generation has the length of the population before it |
| `GaSolver.NextGenerationConsistent` | ga_solver.py:127-128 | if every individual's fitness is its chromosome's, that still holds after a generation |
| `GaSolver.NextGenerationMutationRates` | ga_solver.py:123-125 | with draws in `[0, 1)`, a rate of at most 0 never mutates and a rate of at least 1 always mutates |
| `GaSolver.RefillNonEmptyPool` | ga_solver.py:116 | a breeding loop started on a non-empty pool never fails with an empty pool |
| `GaSolver.NextGenerationEmptyPool` | ga_solver.py:116 | `random.choice` raises exactly when no individual of a non-empty population survives selection |
| `GaSolver.RefillStalls` | ga_solver.py:115-119 | with a single individual in the pool every draw is skipped, until the draws run out |
| `GaSolver.OneSurvivorNeverRefills` | ga_solver.py:115-119 | with one survivor of two or more individuals no offspring is ever bred, whatever the draws (the Python loop does not terminate) |
| `GaSolver.RankedMembers` | ga_solver.py:141 | ranking keeps exactly the members of the population |
| `GaSolver.RankedHead` | ga_solver.py:141-142 | the head of the ranking is a member at least as fit as every member |
| `GaSolver.BestIndividual` | ga_solver.py:139-142 | none exactly for the empty population (IndexError); otherwise a member at least as fit as every member |
| `GaSolver.BestIndividualStable` | ga_solver.py:141-142 | asking again without an intervening generation returns the same individual |
| `GaSolver.Evolution` | ga_solver.py:150-153 | the `for` loop of evolve_until: with budget left it runs one generation and continues as `AfterGeneration` says; with none it ends `BudgetExhausted` on the current population; `EvolutionInvariant`, `EvolutionChained` and `EvolveUntilGuarantees` state what a run guarantees |
| `GaSolver.AfterGeneration` | ga_solver.py:151-153 | after a generation: a failure aborts with the population left ranked; otherwise the new population is ranked, and the run stops if its head's fitness `==` the threshold and continues with one generation less if not, recording that best fitness and ranking |
| `GaSolver.StepKeepsSize` | ga_solver.py:151 | every step that completes keeps the population size |
| `GaSolver.EvolutionInvariant` | ga_solver.py:150-153 | any run with size-keeping steps satisfies `RunOk`, which is spelled out under `EvolveUntilGuarantees` |
| `GaSolver.EvolveUntilGuarantees` | ga_solver.py:150-153 | see the list below the table |
| `GaSolver.EvolutionChained` | ga_solver.py:150-153 | a run keeps the generations it was entered with, and the ones it adds follow one another: each is the ranking of the generation bred from the ranking and draw position before it, the recorded best fitness is that ranking's head's, and a run that did not abort ends on the last one |
| `GaSolver.EvolveUntilTrace` | ga_solver.py:150-153 | from the start, the recorded generations of a run form that chain from the initial population, each ranking is descending, and each recorded best fitness is the head of its ranking, the individual `get_best_individual` returned |
| `GaSolver.NoThresholdRunsAll` | ga_solver.py:144-153 | with `threshold_fitness=None` a run never stops on the threshold; unless it aborts, it runs every generation and keeps its size |
| `GaSolver.GASolver.constructor` | ga_solver.py:76-87 | a new solver holds the given problem and rates, and an empty population |
| `GaSolver.GASolver.ResetPopulation` | ga_solver.py:89-100 | the new population is the old one with the born individuals appended after it |
| `GaSolver.GASolver.EvolveForOneGeneration` | ga_solver.py:102-131 | the population becomes the generation `NextGeneration` describes, with the next unused draw position; on failure it is left ranked and the failure is reported |
| `GaSolver.GASolver.Breed` | ga_solver.py:115-129 | the `while` loop with `continue` computes exactly what `Refill` describes, including its failures |
| `GaSolver.GASolver.GetBestIndividual` | ga_solver.py:139-142 | the population is ranked in place and remains a permutation; the result is IndexError exactly when it was empty, otherwise the individual `BestIndividual` names |
| `GaSolver.GASolver.EvolveUntil` | ga_solver.py:144-153 | status, final population and next draw position are those of `Evolution`, whose guarantees `EvolveUntilGuarantees` states |
| `GaSolver.GASolver.EvolveWith` | ga_solver.py:150-153 | the loop of evolve_until, for any step `gen` that agrees with `NextGeneration` inside the draws: its status, final population and next draw position are those of `Evolution` over `gen` |
| `GaSolver.GASolver.GenerationStep` | ga_solver.py:151 | one call of evolve_for_one_generation inside the loop: the population becomes the generation `gen` breeds, or is left ranked when that generation fails, and the next draw position stays within the draws |
| `TspProblem.Reproduction` | tsp_problem.py:41-59 | the two loops build exactly `Crossover` of the parents' tours; the method has no `modifies` clause, so neither parent array is changed |
| `TspProblem.AppendNew` | tsp_problem.py:52-58 | one of the `not in` / `append` loops over a list of candidate cities; `AppendNewSnoc` ties it to the loop a step at a time, and `AppendNewMembers`, `AppendNewNoDup`, `AppendNewOrder` and `AppendNewExtends` state what it builds |
| `TspProblem.AppendNewSnoc` | tsp_problem.py:52-58 | one more candidate is appended to the result exactly when it is not already in it |
| `TspProblem.AppendNewMembers` | tsp_problem.py:52-58 | a city ends up in the new chromosome exactly when it was already there or was a candidate |
| `TspProblem.AppendNewNoDup` | tsp_problem.py:53-58 | the membership check never appends a city twice |
| `TspProblem.AppendNewOrder` | tsp_problem.py:52-58 | the cities appended are a subsequence of the candidates, in their order, after the unchanged start |
| `TspProblem.AppendNewExtends` | tsp_problem.py:51-58 | the loops only append |
| `TspProblem.Crossover` | tsp_problem.py:50-58 | the chromosome `reproduction` returns: the first half of `a`, the new cities of `b` from the cut on, then the missing cities only if it is still shorter than `a`; `CrossoverKeepsFirstHalf`, `CrossoverOrder`, `CrossoverNoDup` and `CrossoverPermutes` state its properties |
| `TspProblem.CrossoverKeepsFirstHalf` | tsp_problem.py:50-51 | the offspring begins with `a[0:len(a)//2]` unchanged |
| `TspProblem.CrossoverOrder` | tsp_problem.py:50-58 | see the list below the table |
| `TspProblem.CrossoverNoDup` | tsp_problem.py:50-58 | every city comes from `a`'s first half, `b`'s second half or the city list, and none repeats when `a`'s first half has no repeats |
| `TspProblem.CrossoverPermutes` | tsp_problem.py:50-59 | if both parents are permutations of the repeat-free city list, so is the offspring |
| `TspProblem.PermutationNoDup` | tsp_problem.py:50-59 | a permutation of a repeat-free list has no repeats |
| `TspProblem.Pigeonhole` | tsp_problem.py:55 | a repeat-free selection of cities at least as long as the city list contains every city, which is why the repair loop is skipped safely |
| `TspProblem.Swap` | tsp_problem.py:71 | the tuple assignment on two positions of a tour, keeping its length; `SwapExchanges` and `SwapPermutes` state its effect |
| `TspProblem.SwapExchanges` | tsp_problem.py:71 | the cities at the two positions are exchanged and the rest stay; swapping a position with itself changes nothing; swapping twice restores the tour |
| `TspProblem.SwapPermutes` | tsp_problem.py:71 | a swap keeps the tour a permutation of the same cities |
| `TspProblem.Mutation` | tsp_problem.py:61-72 | an empty `randrange` raises ValueError and an out-of-range position IndexError, both leaving the tour untouched; otherwise the same array is returned with the two positions swapped in place |
| `PySlices.SliceBound` | ga_solver.py:113 | the index a Python slice bound stands for: within the list, the bound itself when it is inside, the length when it is past the end, counted from the end when negative |
| `PySlices.Take` | mastermind_problem.py:50 | `s[:k]` is the prefix of `s` up to that index |
| `PySlices.Drop` | mastermind_problem.py:63 | `s[k:]` holds the elements of `s` from that index on, in order |
| `PySlices.TakeDrop` | mastermind_problem.py:50 | `s[:k] + s[k:]` is `s` for every bound |
| `MastermindProblem.Reproduction` | mastermind_problem.py:40-51 | ValueError exactly when `a` has fewer than 3 genes; otherwise genes before the cut are `a`'s and the rest `b`'s, and the length is `len(b)`, or the cut point if `b` is shorter than it |
| `MastermindProblem.ReproductionMixesParents` | mastermind_problem.py:49-50 | with equal-length parents the cut is interior: the offspring has their length, starts with `a`'s first gene and ends with `b`'s last |
| `MastermindProblem.ReproductionKeepsValid` | mastermind_problem.py:50 | parents made of palette colours give an offspring made of palette colours |
| `MastermindProblem.Mutation` | mastermind_problem.py:53-64 | see the list below the table |
| `MastermindProblem.MutationKeepsValid` | mastermind_problem.py:61-63 | a guess made of palette colours stays one |

`GaSolver.EvolveUntilGuarantees` states that a run from the start:

- runs at most `max_nb_of_generations` generations, and all of them when it ends by exhausting the budget;
- stops right after the first generation whose best fitness `==` the threshold, and at no earlier one;
- when stopped by the threshold, holds a best individual that is a maximum;
- keeps the population size, unless it aborted.

`GaSolver.EvolveUntilTrace` adds that the best fitness recorded after each generation is the head of that generation's ranking, and that each generation is bred from the previous one, so the threshold test is applied to the actual ranked populations.

`TspProblem.CrossoverOrder` states that the offspring is laid out in three parts:

1. `a`'s first half;
2. cities of `b`'s second half, in `b`'s order;
3. missing cities, in the city list's order, present only when the first two parts leave the offspring shorter than `a`.

`MastermindProblem.Mutation` states that:

- an empty palette raises IndexError; otherwise an empty range raises ValueError;
- otherwise gene `pos` becomes the drawn colour and every other gene is kept, at the same length;
- a position past the end appends the colour.

The Mastermind operators are pure functions over sequence values, so they cannot modify their inputs.

## Left out

- Printing, not modelled because it is output only: `show_generation_summary` and `Individual.__repr__`.
- Script entry points: the `__main__` blocks of both plug-ins, which load files, draw pictures and print.
- Problem internals, which belong to modules outside the core:
  - `problem_chromosome` and `problem_fitness` of both plug-ins and `MastermindProblem.__init__`, which wrap the `cities` and `mastermind` modules;
  - `TSProblem.__init__` (the `cities` module). The city list is a parameter of the TSP operators.
- The no-op `GAProblem` bodies. The callbacks become the function-valued fields of `Problem`. These fields are deterministic, so randomness that a plug-in draws inside its callbacks is not part of the solver model. Errors they raise do not propagate into a generation either.
- Floating point: fitness is `real`, and `n * selection_rate` is computed exactly before Python's round-half-even rounding. Float rounding of the product and NaN fitnesses are not modelled.
- The distribution of the random draws: only the positions and numbers drawn are modelled, not their uniformity.
- Default arguments (`pop_size=50`, `selection_rate=0.5`, `mutation_rate=0.1`, `max_nb_of_generations=500`, `threshold_fitness=None`): callers pass every value, and `None` is `Option.None`.
- `GaSolver.GASolver.EvolveForOneGeneration`, under non-termination: the Python loop spinning forever with one survivor is modelled as the supplied draws running out (`DrawsExhausted`).
- `GaSolver.GASolver.EvolveForOneGeneration`, under a raised exception: an exception is a reported failure. On failure the returned draw position is simply `start`.
- `GaSolver.GASolver.EvolveUntil`: an exception raised inside a generation or by `get_best_individual` ends the run with status `Aborted` instead of propagating.
- `TspProblem.Reproduction`: it takes the parents' chromosomes, not the `Individual`s that hold them.
- `TspProblem.Mutation`: positions are drawn in `[0, len_chromosome)`, so negative indices cannot occur and are not modelled.

/**
  The generic genetic-algorithm solver (GASolver): a population of
  Individuals that is seeded from generated chromosomes, ranked, truncated to
  its fittest prefix and refilled with offspring of two distinct members of
  the breeding pool (the survivors and the offspring bred so far), for a
  bounded number of generations or until the best fitness equals a
  threshold.

  All randomness is an input: the chromosomes that `problem_chromosome`
  would generate, and one `Draw` per breeding attempt for the two
  `random.choice` calls and the `random.random()` number.
*/
module GaSolver {
  import opened Wrappers
  import opened PySlices
  import opened Individuals

  /**
    The GAProblem callbacks the solver threads together: fitness evaluation,
    reproduction of two parents into a chromosome, and mutation of a
    chromosome given the parent's chromosome length.
  */
  datatype Problem<!G> = Problem(
    fitness: seq<G> -> real,
    reproduction: (Individual<G>, Individual<G>) -> seq<G>,
    mutation: (seq<G>, nat) -> seq<G>)

  /** The solver's fixed configuration. */
  datatype Config<!G> = Config(problem: Problem<G>, selectionRate: real, mutationRate: real)

  /**
    The random draws of one breeding attempt: `random.choice(pool)` picks
    `pool[Choice(a, |pool|)]` and `pool[Choice(b, |pool|)]`; `number` is `random.random()`.
  */
  datatype Draw = Draw(a: nat, b: nat, number: real)

  /**
    The position `random.choice` picks in a list of `m` for the drawn number
    `a`: `a % m`, computed by repeated subtraction.
  */
  function Choice(a: nat, m: nat): (i: nat)
    requires m > 0
    ensures i < m
    decreases a
  {
    if a < m then a else Choice(a - m, m)
  }

  /** Choice is the remainder. */
  lemma {:induction false} ChoiceIsRemainder(a: nat, m: nat)
    requires m > 0
    ensures Choice(a, m) == a % m
    decreases a
  {
    if a >= m {
      ChoiceIsRemainder(a - m, m);
      var q, r := (a - m) / m, (a - m) % m;
      assert a == (q + 1) * m + r;
      RemainderUnique(a, m, q + 1, r);
    }
  }

  /** The remainder is the only `r` in [0, m) that makes `a - r` a multiple of `m`. */
  lemma RemainderUnique(a: int, m: int, q: int, r: int)
    requires m > 0 && 0 <= r < m && a == q * m + r
    ensures a % m == r
  {
    var q2, r2 := a / m, a % m;
    assert q * m + r == q2 * m + r2;
    MultipleSmall(q - q2, m, r2 - r);
  }

  /** A multiple of `m` strictly between -m and m is zero. */
  lemma MultipleSmall(d: int, m: int, e: int)
    requires m > 0 && d * m == e && -m < e < m
    ensures d == 0
  {
    if d >= 1 {
      AtLeastOnce(d, m);
    } else if d <= -1 {
      AtLeastOnce(-d, m);
    }
  }

  /** At least one copy of a positive `m` is at least `m`. */
  lemma {:induction false} AtLeastOnce(d: int, m: int)
    requires d >= 1 && m > 0
    ensures d * m >= m
    decreases d
  {
    if d > 1 {
      AtLeastOnce(d - 1, m);
      assert d * m == (d - 1) * m + m;
    }
  }

  /** Why a generation or a run ended without completing. */
  datatype Failure =
    | EmptyPool        // random.choice on an empty survivor list (IndexError)
    | EmptyPopulation  // get_best_individual on an empty population (IndexError)
    | DrawsExhausted   // the supplied draws ran out before the population was refilled

  /**
    A record of one offspring: the individual appended, the positions of its
    parents in the growing population, whether it was mutated, and the index
    of the draw that produced it.
  */
  datatype Birth<G> = Birth(child: Individual<G>, parentA: nat, parentB: nat, mutated: bool, draw: nat)

  /** The result of one generation: the new population, its births and the next unused draw. */
  datatype Outcome<G> =
    | Bred(population: seq<Individual<G>>, births: seq<Birth<G>>, next: nat)
    | Failed(failure: Failure)

  /** An individual's fitness is the problem's fitness of its chromosome. */
  ghost predicate Consistent<G>(p: Problem<G>, x: Individual<G>) {
    x.fitness == p.fitness(x.chromosome)
  }

  // ---------------------------------------------------------------------
  // reset_population
  // ---------------------------------------------------------------------

  /** The individuals created, in order, for the given generated chromosomes. */
  function Born<G>(p: Problem<G>, chromosomes: seq<seq<G>>): (r: seq<Individual<G>>)
    ensures |r| == |chromosomes|
    ensures forall i :: 0 <= i < |r| ==> r[i].chromosome == chromosomes[i] && Consistent(p, r[i])
  {
    if chromosomes == [] then []
    else
      var c := chromosomes[|chromosomes| - 1];
      Born(p, chromosomes[..|chromosomes| - 1]) + [Individual(c, p.fitness(c))]
  }

  // ---------------------------------------------------------------------
  // evolve_for_one_generation: selection
  // ---------------------------------------------------------------------

  /**
    Python's `round` on a number: to the nearest integer, halves to the even
    one; computed two units at a time towards [0, 2).
  */
  function RoundHalfEven(x: real): (r: int)
    ensures x - 0.5 <= r as real <= x + 0.5
    ensures (r as real == x - 0.5 || r as real == x + 0.5) ==> r % 2 == 0
    decreases if x >= 0.0 then x.Floor else (-x).Floor + 2
  {
    if x >= 2.0 then RoundHalfEven(x - 2.0) + 2
    else if x < 0.0 then RoundHalfEven(x + 2.0) - 2
    else if x <= 0.5 then 0
    else if x < 1.5 then 1
    else 2
  }

  /** The rounding is determined by its two properties: no other integer has both. */
  lemma RoundHalfEvenUnique(x: real, r: int)
    requires x - 0.5 <= r as real <= x + 0.5
    requires (r as real == x - 0.5 || r as real == x + 0.5) ==> r % 2 == 0
    ensures r == RoundHalfEven(x)
  {
  }


  /** `n * rate`, as repeated addition (so that it unfolds one step at a time). */
  function Scaled(n: nat, rate: real): (x: real)
  {
    if n == 0 then 0.0 else Scaled(n - 1, rate) + rate
  }

  /** Scaled is the product, and for a rate in [0, 1] it lies within [0, n]. */
  lemma {:induction false} ScaledIsProduct(n: nat, rate: real)
    ensures Scaled(n, rate) == n as real * rate
    ensures 0.0 <= rate <= 1.0 ==> 0.0 <= Scaled(n, rate) <= n as real
  {
    if n > 0 {
      ScaledIsProduct(n - 1, rate);
      assert n as real * rate == (n - 1) as real * rate + rate;
    }
  }

  /** The length of `population[:round(n * selection_rate)]` for a population of length `n`. */
  function SurvivorCount(n: nat, selectionRate: real): (k: nat)
    ensures k <= n
  {
    SliceBound(n, RoundHalfEven(Scaled(n, selectionRate)))
  }

  /** For a selection rate in [0, 1] the slice keeps exactly `round(n * selection_rate)` individuals. */
  lemma SurvivorCountInRange(n: nat, selectionRate: real)
    requires 0.0 <= selectionRate <= 1.0
    ensures SurvivorCount(n, selectionRate) == RoundHalfEven(n as real * selectionRate)
  {
    ScaledIsProduct(n, selectionRate);
  }

  // ---------------------------------------------------------------------
  // evolve_for_one_generation: breeding
  // ---------------------------------------------------------------------

  /**
    `b` is a sound record of the individual at position `m` of `q`, bred from
    draw `d` while the population was `q[..m]`: its parents are the drawn
    positions, they are distinct, mutation happened exactly when the drawn
    number is below the mutation rate, and the child's chromosome and
    fitness are what the callbacks compute.
  */
  ghost predicate BirthOk<G>(c: Config<G>, q: seq<Individual<G>>, m: nat, d: Draw, b: Birth<G>) {
    && 0 < m < |q|
    && b.child == q[m]
    && b.parentA == Choice(d.a, m)
    && b.parentB == Choice(d.b, m)
    && b.parentA != b.parentB
    && (b.mutated <==> d.number < c.mutationRate)
    && Consistent(c.problem, b.child)
    && var x, y := q[b.parentA], q[b.parentB];
       var crossed := c.problem.reproduction(x, y);
       b.child.chromosome == if b.mutated then c.problem.mutation(crossed, |x.chromosome|) else crossed
  }

  /** Draw `d` picks the same individual twice from a pool of `m` (`a == b` at ga_solver.py:118). */
  predicate Skipped(d: Draw, m: nat) {
    m > 0 && Choice(d.a, m) == Choice(d.b, m)
  }

  /**
    One pass of the breeding loop with draw `d` (draw number `t`): no offspring
    when both choices pick the same individual, otherwise the offspring of the
    two parents, mutated when the drawn number is below the mutation rate.
  */
  function Offspring<G>(c: Config<G>, pool: seq<Individual<G>>, d: Draw, t: nat): (r: Option<Birth<G>>)
    requires |pool| > 0
    ensures r.None? <==> Skipped(d, |pool|)
  {
    var i, j := Choice(d.a, |pool|), Choice(d.b, |pool|);
    if Skipped(d, |pool|) then None
    else
      var crossed := c.problem.reproduction(pool[i], pool[j]);
      var mutated := d.number < c.mutationRate;
      var chromosome := if mutated then c.problem.mutation(crossed, |pool[i].chromosome|) else crossed;
      var child := Individual(chromosome, c.problem.fitness(chromosome));
      Some(Birth(child, i, j, mutated, t))
  }

  /** An offspring is recorded soundly against the population it is appended to. */
  lemma OffspringSound<G>(c: Config<G>, pool: seq<Individual<G>>, d: Draw, t: nat)
    requires |pool| > 0
    ensures var r := Offspring(c, pool, d, t);
      r.Some? ==> r.value.draw == t && BirthOk(c, pool + [r.value.child], |pool|, d, r.value)
  {
    var r := Offspring(c, pool, d, t);
    if r.Some? {
      var q := pool + [r.value.child];
      assert q[r.value.parentA] == pool[r.value.parentA] && q[r.value.parentB] == pool[r.value.parentB];
    }
  }

  /**
    The breeding loop from the state (`pool`, `births`, next draw `pos`) until
    the pool has `n` individuals: it fails on an empty pool (random.choice
    raises) and when the draws run out.
  */
  function Refill<G>(c: Config<G>, pool: seq<Individual<G>>, births: seq<Birth<G>>, n: nat,
                     draws: seq<Draw>, pos: nat): (r: Outcome<G>)
    requires pos <= |draws|
    ensures r.Bred? ==> pos <= r.next <= |draws|
    decreases |draws| - pos
  {
    if |pool| >= n then Bred(pool, births, pos)
    else if |pool| == 0 then Failed(EmptyPool)
    else if pos == |draws| then Failed(DrawsExhausted)
    else match Offspring(c, pool, draws[pos], pos)
      case None => Refill(c, pool, births, n, draws, pos + 1)
      case Some(b) => Refill(c, pool + [b.child], births + [b], n, draws, pos + 1)
  }

  /** A draw that picks the same individual twice leaves the breeding loop's state as it was. */
  lemma RefillSkip<G>(c: Config<G>, pool: seq<Individual<G>>, births: seq<Birth<G>>, n: nat, draws: seq<Draw>, pos: nat)
    requires 0 < |pool| < n && pos < |draws|
    requires Skipped(draws[pos], |pool|)
    ensures Refill(c, pool, births, n, draws, pos) == Refill(c, pool, births, n, draws, pos + 1)
  {
  }

  /** A draw that picks two distinct individuals appends their offspring and its record. */
  lemma RefillBirth<G>(c: Config<G>, pool: seq<Individual<G>>, births: seq<Birth<G>>, n: nat, draws: seq<Draw>, pos: nat)
    requires 0 < |pool| < n && pos < |draws|
    requires !Skipped(draws[pos], |pool|)
    ensures var o := Offspring(c, pool, draws[pos], pos);
      && o.Some?
      && Refill(c, pool, births, n, draws, pos) == Refill(c, pool + [o.value.child], births + [o.value], n, draws, pos + 1)
  {
  }

  /**
    One call of evolve_for_one_generation on population `pop`, using the
    draws from position `start`: rank, keep the fittest prefix, refill.
  */
  function NextGeneration<G>(c: Config<G>, pop: seq<Individual<G>>, draws: seq<Draw>, start: nat): (r: Outcome<G>)
    requires start <= |draws|
    ensures r.Bred? ==> start <= r.next <= |draws|
  {
    var ranked := SortDescending(pop);
    Refill(c, ranked[..SurvivorCount(|pop|, c.selectionRate)], [], |pop|, draws, start)
  }

  // ---------------------------------------------------------------------
  // The trace of a generation
  // ---------------------------------------------------------------------

  /** The first draw that birth `t` may have used: the one after birth `t - 1`'s. */
  function Lower<G>(start: nat, births: seq<Birth<G>>, t: nat): nat
    requires t <= |births|
  {
    if t == 0 then start else births[t - 1].draw + 1
  }

  /** Every draw in `from .. to` picks the same individual twice from a pool of `m`. */
  ghost predicate Gap(draws: seq<Draw>, from: nat, to: nat, m: nat) {
    from <= to <= |draws| && forall i :: from <= i < to ==> Skipped(draws[i], m)
  }

  /**
    Birth `t` is the child at position `k + t` of `q`, bred from a draw after
    the previous birth's, and every draw in between was skipped.
  */
  ghost predicate BirthAt<G>(c: Config<G>, draws: seq<Draw>, start: nat, k: nat,
                             q: seq<Individual<G>>, births: seq<Birth<G>>, t: nat)
    requires t < |births|
  {
    var b := births[t];
    && start <= b.draw < |draws|
    && Gap(draws, Lower(start, births, t), b.draw, k + t)
    && BirthOk(c, q, k + t, draws[b.draw], b)
  }

  /**
    `q` is `k` survivors followed by the children of `births`, bred in order
    from the draws `start .. pos`; every draw after the last birth was skipped.
  */
  ghost predicate Trace<G>(c: Config<G>, draws: seq<Draw>, start: nat, k: nat,
                           q: seq<Individual<G>>, births: seq<Birth<G>>, pos: nat) {
    && |q| == k + |births|
    && start <= pos <= |draws|
    && (forall t :: 0 <= t < |births| ==> BirthAt(c, draws, start, k, q, births, t))
    && Gap(draws, Lower(start, births, |births|), pos, |q|)
  }

  /** A birth record stays sound when individuals are appended to the population. */
  lemma BirthOkExtends<G>(c: Config<G>, q: seq<Individual<G>>, q': seq<Individual<G>>, m: nat, d: Draw, b: Birth<G>)
    requires BirthOk(c, q, m, d, b) && q <= q'
    ensures BirthOk(c, q', m, d, b)
  {
    assert q'[m] == q[m] && q'[b.parentA] == q[b.parentA] && q'[b.parentB] == q[b.parentB];
  }

  /** ... and when further births are recorded after it. */
  lemma BirthAtExtends<G>(c: Config<G>, draws: seq<Draw>, start: nat, k: nat,
                          q: seq<Individual<G>>, births: seq<Birth<G>>,
                          q': seq<Individual<G>>, births': seq<Birth<G>>, t: nat)
    requires t < |births| && q <= q' && births <= births'
    requires BirthAt(c, draws, start, k, q, births, t)
    ensures BirthAt(c, draws, start, k, q', births', t)
  {
    assert births'[t] == births[t];
    assert Lower(start, births', t) == Lower(start, births, t);
    BirthOkExtends(c, q, q', k + t, draws[births[t].draw], births[t]);
  }

  /** A skipped draw extends the trace. */
  lemma TraceSkip<G>(c: Config<G>, draws: seq<Draw>, start: nat, k: nat,
                     q: seq<Individual<G>>, births: seq<Birth<G>>, pos: nat)
    requires Trace(c, draws, start, k, q, births, pos) && pos < |draws|
    requires Skipped(draws[pos], |q|)
    ensures Trace(c, draws, start, k, q, births, pos + 1)
  {
  }

  /** An offspring bred from draw `pos` extends the trace. */
  lemma TraceBirth<G>(c: Config<G>, draws: seq<Draw>, start: nat, k: nat,
                      q: seq<Individual<G>>, births: seq<Birth<G>>, pos: nat, b: Birth<G>)
    requires Trace(c, draws, start, k, q, births, pos) && pos < |draws|
    requires b.draw == pos && BirthOk(c, q + [b.child], |q|, draws[pos], b)
    ensures Trace(c, draws, start, k, q + [b.child], births + [b], pos + 1)
  {
    var q', births' := q + [b.child], births + [b];
    forall t | 0 <= t < |births'|
      ensures BirthAt(c, draws, start, k, q', births', t)
    {
      if t < |births| {
        BirthAtExtends(c, draws, start, k, q, births, q', births', t);
      } else {
        assert births'[t] == b && Lower(start, births', t) == Lower(start, births, |births|);
      }
    }
    assert Lower(start, births', |births'|) == pos + 1;
  }

  /** What the breeding loop establishes about a generation that completes. */
  ghost predicate RefillPost<G>(c: Config<G>, pool: seq<Individual<G>>, n: nat, draws: seq<Draw>,
                                start: nat, k: nat, r: Outcome<G>) {
    r.Bred? ==>
      && |r.population| == (if |pool| >= n then |pool| else n)
      && r.population[..|pool|] == pool
      && Trace(c, draws, start, k, r.population, r.births, r.next)
      && Lower(start, r.births, |r.births|) == r.next
  }

  /**
    The breeding loop keeps the trace: it only appends to the pool and to
    the births, and what it appends is recorded soundly.
  */
  lemma {:induction false} RefillTrace<G>(c: Config<G>, pool: seq<Individual<G>>, births: seq<Birth<G>>, n: nat,
                                          draws: seq<Draw>, pos: nat, start: nat, k: nat)
    requires Trace(c, draws, start, k, pool, births, pos)
    requires |pool| >= n ==> Lower(start, births, |births|) == pos
    ensures RefillPost(c, pool, n, draws, start, k, Refill(c, pool, births, n, draws, pos))
    decreases |draws| - pos, 1
  {
    if |pool| >= n || |pool| == 0 || pos == |draws| {
    } else if Offspring(c, pool, draws[pos], pos).None? {
      RefillTraceSkip(c, pool, births, n, draws, pos, start, k);
    } else {
      RefillTraceBirth(c, pool, births, n, draws, pos, start, k);
    }
  }

  /** The case of RefillTrace where draw `pos` is skipped. */
  lemma {:induction false} RefillTraceSkip<G>(c: Config<G>, pool: seq<Individual<G>>, births: seq<Birth<G>>, n: nat,
                                              draws: seq<Draw>, pos: nat, start: nat, k: nat)
    requires Trace(c, draws, start, k, pool, births, pos)
    requires 0 < |pool| < n && pos < |draws| && Offspring(c, pool, draws[pos], pos).None?
    ensures RefillPost(c, pool, n, draws, start, k, Refill(c, pool, births, n, draws, pos))
    decreases |draws| - pos, 0
  {
    assert Refill(c, pool, births, n, draws, pos) == Refill(c, pool, births, n, draws, pos + 1);
    TraceSkip(c, draws, start, k, pool, births, pos);
    RefillTrace(c, pool, births, n, draws, pos + 1, start, k);
  }

  /** The case of RefillTrace where draw `pos` breeds an offspring. */
  lemma {:induction false} RefillTraceBirth<G>(c: Config<G>, pool: seq<Individual<G>>, births: seq<Birth<G>>, n: nat,
                                               draws: seq<Draw>, pos: nat, start: nat, k: nat)
    requires Trace(c, draws, start, k, pool, births, pos)
    requires 0 < |pool| < n && pos < |draws| && Offspring(c, pool, draws[pos], pos).Some?
    ensures RefillPost(c, pool, n, draws, start, k, Refill(c, pool, births, n, draws, pos))
    decreases |draws| - pos, 0
  {
    OffspringSound(c, pool, draws[pos], pos);
    var b := Offspring(c, pool, draws[pos], pos).value;
    var pool', births' := pool + [b.child], births + [b];
    assert Refill(c, pool, births, n, draws, pos) == Refill(c, pool', births', n, draws, pos + 1);
    TraceBirth(c, draws, start, k, pool, births, pos, b);
    RefillTrace(c, pool', births', n, draws, pos + 1, start, k);
    var r := Refill(c, pool', births', n, draws, pos + 1);
    if r.Bred? {
      assert r.population[..|pool|] == (r.population[..|pool'|])[..|pool|];
    }
  }

  // ---------------------------------------------------------------------
  // Properties of one generation
  // ---------------------------------------------------------------------

  /**
    A generation that completes keeps the population size; its first `k`
    members are the fittest prefix of the ranking, unchanged, and each of
    them is at least as fit as every individual it displaced; the rest are
    the recorded offspring, bred in order from the draws.
  */
  lemma NextGenerationBreeds<G>(c: Config<G>, pop: seq<Individual<G>>, draws: seq<Draw>, start: nat)
    requires start <= |draws|
    ensures var r := NextGeneration(c, pop, draws, start);
      var ranked, k := SortDescending(pop), SurvivorCount(|pop|, c.selectionRate);
      && multiset(ranked) == multiset(pop)
      && (forall i, j :: 0 <= i < k <= j < |ranked| ==> !Less(ranked[i], ranked[j]))
      && (r.Bred? ==>
            && |r.population| == |pop|
            && r.population[..k] == ranked[..k]
            && Trace(c, draws, start, k, r.population, r.births, r.next)
            && Lower(start, r.births, |r.births|) == r.next)
  {
    var ranked, k := SortDescending(pop), SurvivorCount(|pop|, c.selectionRate);
    var pool := ranked[..k];
    SortPermutes(pop);
    SortSorts(pop);
    assert Trace(c, draws, start, k, pool, [], start);
    RefillTrace(c, pool, [], |pop|, draws, start, start, k);
  }

  /** A generation that completes keeps the population size. */
  lemma NextGenerationSize<G>(c: Config<G>, pop: seq<Individual<G>>, draws: seq<Draw>, start: nat)
    requires start <= |draws|
    ensures var r := NextGeneration(c, pop, draws, start);
      r.Bred? ==> |r.population| == |pop|
  {
    NextGenerationBreeds(c, pop, draws, start);
  }

  /** Every individual of `pop` has the fitness of its chromosome. */
  ghost predicate AllConsistent<G>(p: Problem<G>, pop: seq<Individual<G>>) {
    forall x :: x in pop ==> Consistent(p, x)
  }

  /** Every offspring recorded in a trace has the fitness of its chromosome. */
  lemma TraceConsistent<G>(c: Config<G>, draws: seq<Draw>, start: nat, k: nat,
                           q: seq<Individual<G>>, births: seq<Birth<G>>, pos: nat)
    requires Trace(c, draws, start, k, q, births, pos)
    ensures forall m :: k <= m < |q| ==> Consistent(c.problem, q[m])
  {
    forall m | k <= m < |q|
      ensures Consistent(c.problem, q[m])
    {
      assert BirthAt(c, draws, start, k, q, births, m - k);
    }
  }

  /** Ranking keeps a population consistent. */
  lemma RankedConsistent<G>(p: Problem<G>, pop: seq<Individual<G>>)
    requires AllConsistent(p, pop)
    ensures AllConsistent(p, SortDescending(pop))
  {
    var ranked := SortDescending(pop);
    SortPermutes(pop);
    forall x | x in ranked
      ensures Consistent(p, x)
    {
      assert x in multiset(ranked);
      assert x in pop;
    }
  }

  /** A population made of consistent survivors followed by traced offspring is consistent. */
  lemma SurvivorsAndOffspringConsistent<G>(c: Config<G>, pop: seq<Individual<G>>, k: nat, draws: seq<Draw>,
                                           start: nat, q: seq<Individual<G>>, births: seq<Birth<G>>, pos: nat)
    requires AllConsistent(c.problem, pop) && k <= |pop| && k <= |q| && q[..k] == pop[..k]
    requires Trace(c, draws, start, k, q, births, pos)
    ensures AllConsistent(c.problem, q)
  {
    TraceConsistent(c, draws, start, k, q, births, pos);
    forall m | 0 <= m < k
      ensures Consistent(c.problem, q[m])
    {
      assert q[m] == q[..k][m] == pop[m];
    }
    assert forall x :: x in q ==> exists m :: 0 <= m < |q| && q[m] == x;
  }

  /** Fitness stays consistent across a generation: survivors keep theirs, offspring are evaluated at birth. */
  lemma NextGenerationConsistent<G>(c: Config<G>, pop: seq<Individual<G>>, draws: seq<Draw>, start: nat)
    requires start <= |draws| && AllConsistent(c.problem, pop)
    ensures var r := NextGeneration(c, pop, draws, start);
      r.Bred? ==> AllConsistent(c.problem, r.population)
  {
    var r := NextGeneration(c, pop, draws, start);
    NextGenerationBreeds(c, pop, draws, start);
    if r.Bred? {
      var ranked, k := SortDescending(pop), SurvivorCount(|pop|, c.selectionRate);
      RankedConsistent(c.problem, pop);
      SurvivorsAndOffspringConsistent(c, ranked, k, draws, start, r.population, r.births, r.next);
    }
  }

  /**
    Mutation gating is strict: with drawn numbers in [0, 1), a mutation rate
    of at most 0 never mutates and a rate of at least 1 always does.
  */
  lemma NextGenerationMutationRates<G>(c: Config<G>, pop: seq<Individual<G>>, draws: seq<Draw>, start: nat)
    requires start <= |draws|
    requires forall i :: start <= i < |draws| ==> 0.0 <= draws[i].number < 1.0
    ensures var r := NextGeneration(c, pop, draws, start);
      r.Bred? ==>
        && (c.mutationRate <= 0.0 ==> forall t :: 0 <= t < |r.births| ==> !r.births[t].mutated)
        && (c.mutationRate >= 1.0 ==> forall t :: 0 <= t < |r.births| ==> r.births[t].mutated)
  {
    var r := NextGeneration(c, pop, draws, start);
    NextGenerationBreeds(c, pop, draws, start);
    if r.Bred? {
      var k := SurvivorCount(|pop|, c.selectionRate);
      forall t | 0 <= t < |r.births|
        ensures c.mutationRate <= 0.0 ==> !r.births[t].mutated
        ensures c.mutationRate >= 1.0 ==> r.births[t].mutated
      {
        assert BirthAt(c, draws, start, k, r.population, r.births, t);
      }
    }
  }

  /** The breeding loop never draws from an empty pool once the pool has an individual. */
  lemma {:induction false} RefillNonEmptyPool<G>(c: Config<G>, pool: seq<Individual<G>>, births: seq<Birth<G>>, n: nat,
                                                 draws: seq<Draw>, pos: nat)
    requires pos <= |draws| && |pool| > 0
    ensures Refill(c, pool, births, n, draws, pos) != Failed(EmptyPool)
    decreases |draws| - pos
  {
    if |pool| < n && pos < |draws| {
      var o := Offspring(c, pool, draws[pos], pos);
      if o.None? {
        RefillNonEmptyPool(c, pool, births, n, draws, pos + 1);
      } else {
        RefillNonEmptyPool(c, pool + [o.value.child], births + [o.value], n, draws, pos + 1);
      }
    }
  }

  /** random.choice raises exactly when no individual survives selection of a non-empty population. */
  lemma NextGenerationEmptyPool<G>(c: Config<G>, pop: seq<Individual<G>>, draws: seq<Draw>, start: nat)
    requires start <= |draws|
    ensures NextGeneration(c, pop, draws, start) == Failed(EmptyPool)
        <==> SurvivorCount(|pop|, c.selectionRate) == 0 && |pop| > 0
  {
    var ranked, k := SortDescending(pop), SurvivorCount(|pop|, c.selectionRate);
    if k > 0 {
      RefillNonEmptyPool(c, ranked[..k], [], |pop|, draws, start);
    }
  }

  /** With a single individual in the pool every attempt picks it twice and is skipped. */
  lemma {:induction false} RefillStalls<G>(c: Config<G>, pool: seq<Individual<G>>, births: seq<Birth<G>>, n: nat,
                                           draws: seq<Draw>, pos: nat)
    requires pos <= |draws| && |pool| == 1 < n
    ensures Refill(c, pool, births, n, draws, pos) == Failed(DrawsExhausted)
    decreases |draws| - pos
  {
    if pos < |draws| {
      assert Choice(draws[pos].a, 1) == 0 == Choice(draws[pos].b, 1);
      RefillStalls(c, pool, births, n, draws, pos + 1);
    }
  }

  /**
    With exactly one survivor of a population of two or more, no draw ever
    produces an offspring: however many draws are supplied, they run out
    (the Python loop never terminates).
  */
  lemma OneSurvivorNeverRefills<G>(c: Config<G>, pop: seq<Individual<G>>, draws: seq<Draw>, start: nat)
    requires start <= |draws|
    requires SurvivorCount(|pop|, c.selectionRate) == 1 && |pop| > 1
    ensures NextGeneration(c, pop, draws, start) == Failed(DrawsExhausted)
  {
    RefillStalls(c, SortDescending(pop)[..1], [], |pop|, draws, start);
  }

  // ---------------------------------------------------------------------
  // get_best_individual
  // ---------------------------------------------------------------------

  /** Ranking a population keeps exactly its members. */
  lemma RankedMembers<G>(pop: seq<Individual<G>>)
    ensures forall x :: x in pop <==> x in SortDescending(pop)
  {
    var ranked := SortDescending(pop);
    SortPermutes(pop);
    forall x
      ensures x in pop <==> x in ranked
    {
      assert x in pop <==> x in multiset(pop);
      assert x in ranked <==> x in multiset(ranked);
    }
  }

  /** The head of the ranking is a member at least as fit as every member. */
  lemma RankedHead<G>(pop: seq<Individual<G>>)
    requires pop != []
    ensures SortDescending(pop)[0] in pop
    ensures forall x :: x in pop ==> !Less(SortDescending(pop)[0], x)
  {
    var ranked := SortDescending(pop);
    RankedMembers(pop);
    SortSorts(pop);
    HeadIsFittest(ranked);
    assert ranked[0] in ranked;
  }

  /**
    The individual get_best_individual returns: the head of the ranking, a
    member at least as fit as every member; none (IndexError) when empty.
  */
  function BestIndividual<G>(pop: seq<Individual<G>>): (r: Option<Individual<G>>)
    ensures r.None? <==> pop == []
    ensures r.Some? ==> r.value in pop && forall x :: x in pop ==> !Less(r.value, x)
  {
    if pop == [] then None
    else
      RankedHead(pop);
      Some(SortDescending(pop)[0])
  }

  /** Asking for the best individual again, with no generation in between, gives the same individual. */
  lemma BestIndividualStable<G>(pop: seq<Individual<G>>)
    ensures BestIndividual(SortDescending(pop)) == BestIndividual(pop)
  {
    SortIdempotent(pop);
  }

  // ---------------------------------------------------------------------
  // evolve_until
  // ---------------------------------------------------------------------

  /** How a run of evolve_until ended. */
  datatype RunStatus =
    | ThresholdReached         // the best fitness equalled the threshold (break)
    | BudgetExhausted          // all max_nb_of_generations generations ran
    | Aborted(failure: Failure)

  /**
    A generation of a run that get_best_individual ranked: its population in
    that order, and the next unused draw after it.
  */
  datatype Generation<G> = Generation(ranked: seq<Individual<G>>, next: nat)

  /**
    The end of a run: its status, the final population, the best fitness
    after each generation that ran (each one ranked), and the next unused draw.
  */
  datatype Run<G> = Run(status: RunStatus, population: seq<Individual<G>>, bests: seq<real>,
                        history: seq<Generation<G>>, next: nat)

  /**
    One call of evolve_for_one_generation as a step of a run: the generation
    bred from `pop` with the draws from position `pos` (none are left past
    the end of `draws`).
  */
  function Step<G(!new)>(c: Config<G>, draws: seq<Draw>): (gen: (seq<Individual<G>>, nat) -> Outcome<G>)
    ensures forall pop: seq<Individual<G>>, pos: nat :: pos <= |draws| ==> gen(pop, pos) == NextGeneration(c, pop, draws, pos)
  {
    (pop: seq<Individual<G>>, pos: nat) =>
      if pos <= |draws| then NextGeneration(c, pop, draws, pos) else Failed(DrawsExhausted)
  }

  /** Every generation `gen` completes keeps the population size. */
  ghost predicate SizeKeeping<G(!new)>(gen: (seq<Individual<G>>, nat) -> Outcome<G>) {
    forall pop: seq<Individual<G>>, pos: nat :: gen(pop, pos).Bred? ==> |gen(pop, pos).population| == |pop|
  }

  /** evolve_for_one_generation keeps the population size. */
  lemma StepKeepsSize<G(!new)>(c: Config<G>, draws: seq<Draw>)
    ensures SizeKeeping(Step(c, draws))
  {
    var gen := Step(c, draws);
    forall pop: seq<Individual<G>>, pos: nat
      ensures gen(pop, pos).Bred? ==> |gen(pop, pos).population| == |pop|
    {
      if pos <= |draws| {
        NextGenerationSize(c, pop, draws, pos);
      }
    }
  }

  /**
    evolve_until with `budget` generations left, each one a call of `gen`,
    from population `pop` and the draws at `pos`, after generations whose
    best fitnesses were `bests` and whose rankings were `history`.
  */
  function Evolution<G>(gen: (seq<Individual<G>>, nat) -> Outcome<G>, pop: seq<Individual<G>>, budget: nat,
                        threshold: Option<real>, pos: nat, bests: seq<real>, history: seq<Generation<G>>): (r: Run<G>)
    decreases budget, 1
  {
    if budget == 0 then Run(BudgetExhausted, pop, bests, history, pos)
    else AfterGeneration(gen, pop, gen(pop, pos), budget, threshold, pos, bests, history)
  }

  /**
    The rest of a run once the generation bred from `pop` ended in `g`: an
    aborted generation leaves `pop` ranked; otherwise get_best_individual
    ranks the new population (IndexError if it is empty) and the run stops
    when the best fitness equals the threshold.
  */
  function AfterGeneration<G>(gen: (seq<Individual<G>>, nat) -> Outcome<G>, pop: seq<Individual<G>>, g: Outcome<G>,
                              budget: nat, threshold: Option<real>, pos: nat, bests: seq<real>,
                              history: seq<Generation<G>>): (r: Run<G>)
    requires budget > 0
    decreases budget, 0
  {
    match g
    case Failed(e) => Run(Aborted(e), SortDescending(pop), bests, history, pos)
    case Bred(q, _, next) =>
      var ranked := SortDescending(q);
      if ranked == [] then Run(Aborted(EmptyPopulation), ranked, bests, history, next)
      else if threshold == Some(ranked[0].fitness) then
        Run(ThresholdReached, ranked, bests + [ranked[0].fitness], history + [Generation(ranked, next)], next)
      else
        Evolution(gen, ranked, budget - 1, threshold, next, bests + [ranked[0].fitness],
                  history + [Generation(ranked, next)])
  }

  /**
    What a run guarantees, for a run entered after the generations whose
    best fitnesses are `bests`, from a population of `size`, with `budget`
    generations left: at most `budget` more generations, all of them when
    the budget is exhausted; no generation but the last reached the
    threshold, and the last did exactly when the run stopped on it, with a
    best individual that is a maximum; the size is kept unless it aborted.
  */
  ghost predicate RunOk<G>(r: Run<G>, size: nat, budget: nat, threshold: Option<real>, bests: seq<real>) {
    && |bests| <= |r.bests| <= |bests| + budget
    && r.bests[..|bests|] == bests
    && (r.status == BudgetExhausted ==> |r.bests| == |bests| + budget)
    && (forall i :: |bests| <= i < |r.bests| - 1 ==> threshold != Some(r.bests[i]))
    && (r.status == ThresholdReached <==> |r.bests| > |bests| && threshold == Some(r.bests[|r.bests| - 1]))
    && (r.status == ThresholdReached ==>
          && r.population != []
          && r.population[0].fitness == r.bests[|r.bests| - 1]
          && forall x :: x in r.population ==> x.fitness <= r.population[0].fitness)
    && (!r.status.Aborted? ==> |r.population| == size)
  }

  /** A generation that misses the threshold passes the guarantee of the rest of the run back. */
  lemma RunOkStep<G>(r: Run<G>, size: nat, budget: nat, threshold: Option<real>, bests: seq<real>, best: real)
    requires threshold != Some(best)
    requires RunOk(r, size, budget, threshold, bests + [best])
    ensures RunOk(r, size, budget + 1, threshold, bests)
  {
    assert r.bests[..|bests|] == r.bests[..|bests| + 1][..|bests|];
    assert r.bests[|bests|] == best;
  }

  /** A run that stops on the threshold satisfies RunOk. */
  lemma RunOkHit<G>(ranked: seq<Individual<G>>, budget: nat, threshold: Option<real>, bests: seq<real>,
                    history: seq<Generation<G>>, next: nat)
    requires ranked != [] && Descending(ranked) && budget > 0
    requires threshold == Some(ranked[0].fitness)
    ensures RunOk(Run(ThresholdReached, ranked, bests + [ranked[0].fitness], history + [Generation(ranked, next)], next),
                  |ranked|, budget, threshold, bests)
  {
    HeadIsFittest(ranked);
  }

  /** Every run whose generations keep the population size keeps RunOk. */
  lemma {:induction false} EvolutionInvariant<G(!new)>(gen: (seq<Individual<G>>, nat) -> Outcome<G>, pop: seq<Individual<G>>,
                                                 budget: nat, threshold: Option<real>, pos: nat, bests: seq<real>,
                                                 history: seq<Generation<G>>)
    requires SizeKeeping(gen)
    ensures RunOk(Evolution(gen, pop, budget, threshold, pos, bests, history), |pop|, budget, threshold, bests)
    decreases budget, 1
  {
    if budget > 0 {
      AfterGenerationInvariant(gen, pop, gen(pop, pos), budget, threshold, pos, bests, history);
    }
  }

  /** The rest of a run after a generation that kept the size keeps RunOk. */
  lemma {:induction false} AfterGenerationInvariant<G(!new)>(gen: (seq<Individual<G>>, nat) -> Outcome<G>,
                                                       pop: seq<Individual<G>>, g: Outcome<G>, budget: nat,
                                                       threshold: Option<real>, pos: nat, bests: seq<real>,
                                                       history: seq<Generation<G>>)
    requires SizeKeeping(gen) && budget > 0
    requires g.Bred? ==> |g.population| == |pop|
    ensures RunOk(AfterGeneration(gen, pop, g, budget, threshold, pos, bests, history), |pop|, budget, threshold, bests)
    decreases budget, 0
  {
    if g.Bred? {
      var ranked := SortDescending(g.population);
      if ranked != [] {
        var best := ranked[0].fitness;
        if threshold == Some(best) {
          SortSorts(g.population);
          RunOkHit(ranked, budget, threshold, bests, history, g.next);
        } else {
          var h := history + [Generation(ranked, g.next)];
          EvolutionInvariant(gen, ranked, budget - 1, threshold, g.next, bests + [best], h);
          RunOkStep(Evolution(gen, ranked, budget - 1, threshold, g.next, bests + [best], h),
                    |ranked|, budget - 1, threshold, bests, best);
        }
      }
    }
  }

  /** A generation that misses the threshold hands the run on to the ranked new population. */
  lemma EvolutionMiss<G>(gen: (seq<Individual<G>>, nat) -> Outcome<G>, pop: seq<Individual<G>>, budget: nat,
                         threshold: Option<real>, pos: nat, bests: seq<real>, history: seq<Generation<G>>,
                         ranked: seq<Individual<G>>, next: nat)
    requires budget > 0 && gen(pop, pos).Bred? && next == gen(pop, pos).next
    requires ranked == SortDescending(gen(pop, pos).population)
    requires ranked != [] && threshold != Some(ranked[0].fitness)
    ensures Evolution(gen, pop, budget, threshold, pos, bests, history)
         == Evolution(gen, ranked, budget - 1, threshold, next, bests + [ranked[0].fitness],
                      history + [Generation(ranked, next)])
  {
  }

  /**
    `g` is the ranking get_best_individual makes of the generation `gen`
    breeds from `pop` with the draws at `pos`, and `best` is its head's fitness.
  */
  ghost predicate BredFrom<G>(gen: (seq<Individual<G>>, nat) -> Outcome<G>, pop: seq<Individual<G>>, pos: nat,
                              g: Generation<G>, best: real) {
    var o := gen(pop, pos);
    && o.Bred?
    && g.ranked == SortDescending(o.population)
    && g.next == o.next
    && g.ranked != []
    && best == g.ranked[0].fitness
  }

  /**
    The generations run `r` recorded after its first `k` follow one another:
    the first is bred from `pop` at draw `pos`, each later one from the ranking
    and draw position before it, each best fitness is its generation's, and a
    run that did not abort ends on the last of them.
  */
  ghost predicate Chained<G>(gen: (seq<Individual<G>>, nat) -> Outcome<G>, r: Run<G>, pop: seq<Individual<G>>,
                             pos: nat, k: nat) {
    && k <= |r.history| == |r.bests|
    && (k < |r.history| ==> BredFrom(gen, pop, pos, r.history[k], r.bests[k]))
    && (forall i :: k < i < |r.history| ==>
          BredFrom(gen, r.history[i - 1].ranked, r.history[i - 1].next, r.history[i], r.bests[i]))
    && (!r.status.Aborted? ==>
          if k == |r.history| then r.population == pop && r.next == pos
          else r.population == r.history[|r.history| - 1].ranked && r.next == r.history[|r.history| - 1].next)
  }

  /** Every run records its generations as a chain, after the ones it was entered with. */
  lemma {:induction false} EvolutionChained<G>(gen: (seq<Individual<G>>, nat) -> Outcome<G>, pop: seq<Individual<G>>,
                                               budget: nat, threshold: Option<real>, pos: nat, bests: seq<real>,
                                               history: seq<Generation<G>>)
    requires |bests| == |history|
    ensures var r := Evolution(gen, pop, budget, threshold, pos, bests, history);
      && Chained(gen, r, pop, pos, |history|)
      && r.history[..|history|] == history
      && r.bests[..|bests|] == bests
    decreases budget
  {
    var g := gen(pop, pos);
    if budget > 0 && g.Bred? {
      var ranked := SortDescending(g.population);
      if ranked != [] && threshold != Some(ranked[0].fitness) {
        var k := |history|;
        var best := ranked[0].fitness;
        var h := history + [Generation(ranked, g.next)];
        EvolutionMiss(gen, pop, budget, threshold, pos, bests, history, ranked, g.next);
        EvolutionChained(gen, ranked, budget - 1, threshold, g.next, bests + [best], h);
        var r := Evolution(gen, ranked, budget - 1, threshold, g.next, bests + [best], h);
        assert r.history[..k] == r.history[..k + 1][..k];
        assert r.bests[..k] == r.bests[..k + 1][..k];
        assert r.history[k] == Generation(ranked, g.next) && r.bests[k] == best;
      }
    }
  }

  /**
    What a run of evolve_until from the start records: after each generation
    the population get_best_individual ranked, descending, whose head's fitness
    is the recorded best, each one the generation evolve_for_one_generation
    breeds from the one before.
  */
  lemma EvolveUntilTrace<G(!new)>(c: Config<G>, pop: seq<Individual<G>>, budget: nat, threshold: Option<real>,
                                  draws: seq<Draw>, start: nat)
    ensures var r := Evolution(Step(c, draws), pop, budget, threshold, start, [], []);
      && Chained(Step(c, draws), r, pop, start, 0)
      && forall i :: 0 <= i < |r.history| ==> Descending(r.history[i].ranked)
  {
    var gen := Step(c, draws);
    EvolutionChained(gen, pop, budget, threshold, start, [], []);
    var r := Evolution(gen, pop, budget, threshold, start, [], []);
    forall i | 0 <= i < |r.history|
      ensures Descending(r.history[i].ranked)
    {
      if i == 0 {
        assert BredFrom(gen, pop, start, r.history[i], r.bests[i]);
        SortSorts(gen(pop, start).population);
      } else {
        assert BredFrom(gen, r.history[i - 1].ranked, r.history[i - 1].next, r.history[i], r.bests[i]);
        SortSorts(gen(r.history[i - 1].ranked, r.history[i - 1].next).population);
      }
    }
  }

  /** What every run of evolve_until from the start guarantees (RunOk with no earlier generations). */
  lemma EvolveUntilGuarantees<G(!new)>(c: Config<G>, pop: seq<Individual<G>>, budget: nat, threshold: Option<real>,
                                       draws: seq<Draw>, start: nat)
    ensures var r := Evolution(Step(c, draws), pop, budget, threshold, start, [], []);
      && |r.bests| <= budget
      && (r.status == BudgetExhausted ==> |r.bests| == budget)
      && (forall i :: 0 <= i < |r.bests| - 1 ==> threshold != Some(r.bests[i]))
      && (r.status == ThresholdReached <==> r.bests != [] && threshold == Some(r.bests[|r.bests| - 1]))
      && (r.status == ThresholdReached ==>
            && r.population != []
            && r.population[0].fitness == r.bests[|r.bests| - 1]
            && forall x :: x in r.population ==> x.fitness <= r.population[0].fitness)
      && (!r.status.Aborted? ==> |r.population| == |pop|)
  {
    StepKeepsSize(c, draws);
    EvolutionInvariant(Step(c, draws), pop, budget, threshold, start, [], []);
  }

  /** Without a threshold a run that does not abort runs every generation of its budget. */
  lemma NoThresholdRunsAll<G(!new)>(c: Config<G>, pop: seq<Individual<G>>, budget: nat, draws: seq<Draw>, start: nat)
    ensures var r := Evolution(Step(c, draws), pop, budget, None, start, [], []);
      && r.status != ThresholdReached
      && (!r.status.Aborted? ==> r.status == BudgetExhausted && |r.bests| == budget && |r.population| == |pop|)
  {
    EvolveUntilGuarantees(c, pop, budget, None, draws, start);
  }

  // ---------------------------------------------------------------------
  // The solver object
  // ---------------------------------------------------------------------

  /**
    GASolver: the problem and the two rates are fixed at construction; the
    population is the state its methods update.
  */
  class GASolver<G(!new)> {
    const config: Config<G>
    var population: seq<Individual<G>>

    /** A solver for `config` starts with an empty population. */
    constructor(config: Config<G>)
      ensures this.config == config && population == []
    {
      this.config := config;
      population := [];
    }

    /**
      reset_population: appends one individual per generated chromosome, in
      order, each evaluated by the problem's fitness; existing members stay.
    */
    method ResetPopulation(chromosomes: seq<seq<G>>)
      modifies this
      ensures population == old(population) + Born(config.problem, chromosomes)
    {
      for i := 0 to |chromosomes|
        invariant population == old(population) + Born(config.problem, chromosomes[..i])
      {
        var chromosome := chromosomes[i];
        var fitness := config.problem.fitness(chromosome);
        population := population + [Individual(chromosome, fitness)];
        assert chromosomes[..i + 1][..i] == chromosomes[..i];
      }
      assert chromosomes[..|chromosomes|] == chromosomes;
    }

    /**
      evolve_for_one_generation with the draws from position `start`: the
      population becomes the generation NextGeneration describes; when that
      fails the population is left ranked and no draw position is returned
      beyond `start`.
    */
    method EvolveForOneGeneration(draws: seq<Draw>, start: nat) returns (failure: Option<Failure>, next: nat)
      requires start <= |draws|
      modifies this
      ensures var g := NextGeneration(config, old(population), draws, start);
        && (g.Bred? ==> failure == None && population == g.population && next == g.next)
        && (g.Failed? ==> failure == Some(g.failure) && population == SortDescending(old(population)) && next == start)
    {
      population := SortDescending(population);
      var n := |population|;
      var selected := population[..SurvivorCount(n, config.selectionRate)];
      var bred;
      bred, failure, next := Breed(selected, n, draws, start);
      if failure == None {
        population := bred;
      } else {
        next := start;
      }
    }

    /**
      The breeding loop of evolve_for_one_generation: grows `selected` to `n`
      individuals with the draws from position `start`, as Refill describes.
    */
    method Breed(selected: seq<Individual<G>>, n: nat, draws: seq<Draw>, start: nat)
      returns (bred: seq<Individual<G>>, failure: Option<Failure>, next: nat)
      requires start <= |draws|
      ensures var g := Refill(config, selected, [], n, draws, start);
        && (g.Bred? ==> failure == None && bred == g.population && next == g.next)
        && (g.Failed? ==> failure == Some(g.failure))
    {
      bred := selected;
      ghost var births: seq<Birth<G>> := [];
      var pos: nat := start;
      while |bred| < n
        invariant pos <= |draws|
        invariant Refill(config, bred, births, n, draws, pos) == Refill(config, selected, [], n, draws, start)
        decreases |draws| - pos
      {
        if |bred| == 0 {
          return bred, Some(EmptyPool), pos;
        }
        if pos == |draws| {
          return bred, Some(DrawsExhausted), pos;
        }
        var d := draws[pos];
        pos := pos + 1;
        var i, j := Choice(d.a, |bred|), Choice(d.b, |bred|);
        if i == j {
          RefillSkip(config, bred, births, n, draws, pos - 1);
          continue;
        }
        RefillBirth(config, bred, births, n, draws, pos - 1);
        var a, b := bred[i], bred[j];
        var newChrom := config.problem.reproduction(a, b);
        var number := d.number;
        if number < config.mutationRate {
          newChrom := config.problem.mutation(newChrom, |a.chromosome|);
        }
        var fitness := config.problem.fitness(newChrom);
        var child := Individual(newChrom, fitness);
        var birth := Birth(child, i, j, number < config.mutationRate, pos - 1);
        assert Offspring(config, bred, d, pos - 1) == Some(birth);
        births := births + [birth];
        bred := bred + [child];
      }
      return bred, None, pos;
    }

    /**
      get_best_individual: ranks the population in place and returns its
      head, the individual BestIndividual names; IndexError when empty.
    */
    method GetBestIndividual() returns (best: Result<Individual<G>>)
      modifies this
      ensures population == SortDescending(old(population))
      ensures multiset(population) == multiset(old(population))
      ensures best.Err? <==> old(population) == []
      ensures best.Err? ==> best.error == IndexError
      ensures best.Ok? ==> BestIndividual(old(population)) == Some(best.value)
    {
      SortPermutes(population);
      population := SortDescending(population);
      if population == [] {
        return Err(IndexError);
      }
      return Ok(population[0]);
    }

    /**
      evolve_until with at most `maxGenerations` generations and the draws
      from position `start`: the run Evolution describes, whose properties
      EvolveUntilGuarantees states.
    */
    method EvolveUntil(maxGenerations: nat, threshold: Option<real>, draws: seq<Draw>, start: nat)
      returns (status: RunStatus, next: nat)
      requires start <= |draws|
      modifies this
      ensures var r := Evolution(Step(config, draws), old(population), maxGenerations, threshold, start, [], []);
        status == r.status && population == r.population && next == r.next
    {
      status, next := EvolveWith(Step(config, draws), maxGenerations, threshold, draws, start);
    }

    /** evolve_for_one_generation, seen as the step `gen` of a run. */
    method GenerationStep(ghost gen: (seq<Individual<G>>, nat) -> Outcome<G>, draws: seq<Draw>, start: nat)
      returns (failure: Option<Failure>, next: nat)
      requires start <= |draws|
      requires forall pop: seq<Individual<G>>, pos: nat {:trigger NextGeneration(config, pop, draws, pos)} ::
        pos <= |draws| ==> gen(pop, pos) == NextGeneration(config, pop, draws, pos)
      modifies this
      ensures var g := gen(old(population), start);
        && (g.Bred? ==> failure == None && population == g.population && next == g.next)
        && (g.Failed? ==> failure == Some(g.failure) && population == SortDescending(old(population)) && next == start)
      ensures start <= next <= |draws|
    {
      failure, next := EvolveForOneGeneration(draws, start);
    }

    /**
      The loop of evolve_until, for a step `gen` that is the generation
      NextGeneration describes wherever draws remain.
    */
    method EvolveWith(ghost gen: (seq<Individual<G>>, nat) -> Outcome<G>, maxGenerations: nat, threshold: Option<real>,
                      draws: seq<Draw>, start: nat)
      returns (status: RunStatus, next: nat)
      requires start <= |draws|
      requires forall pop: seq<Individual<G>>, pos: nat {:trigger NextGeneration(config, pop, draws, pos)} ::
        pos <= |draws| ==> gen(pop, pos) == NextGeneration(config, pop, draws, pos)
      modifies this
      ensures var r := Evolution(gen, old(population), maxGenerations, threshold, start, [], []);
        status == r.status && population == r.population && next == r.next
    {
      ghost var target := Evolution(gen, population, maxGenerations, threshold, start, [], []);
      ghost var bests: seq<real> := [];
      ghost var history: seq<Generation<G>> := [];
      ghost var left: nat := maxGenerations;
      var pos: nat := start;
      for i := 0 to maxGenerations
        invariant pos <= |draws| && left == maxGenerations - i
        invariant Evolution(gen, population, left, threshold, pos, bests, history) == target
      {
        ghost var before := population;
        var failure, after := GenerationStep(gen, draws, pos);
        if failure.Some? {
          return Aborted(failure.value), pos;
        }
        var best := GetBestIndividual();
        if best.Err? {
          return Aborted(EmptyPopulation), after;
        }
        if threshold == Some(best.value.fitness) {
          return ThresholdReached, after;
        }
        assert best.value == population[0];
        EvolutionMiss(gen, before, left, threshold, pos, bests, history, population, after);
        pos := after;
        bests := bests + [best.value.fitness];
        history := history + [Generation(population, after)];
        left := left - 1;
      }
      return BudgetExhausted, pos;
    }
  }
}

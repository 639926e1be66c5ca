/**
  The travelling-salesperson plug-in of the solver (TSProblem): a chromosome
  is a tour, a list of city names. Reproduction keeps the first half of one
  parent and repairs the rest so that no city repeats; mutation swaps two
  positions of the tour in place.

  Chromosomes are arrays, as the Python lists they stand for are mutable, and
  the random positions of mutation are parameters.
*/
module TspProblem {
  import opened Wrappers
  import opened PySlices

  /** A city, known by its name. */
  type City = string

  /** No city occurs twice. */
  ghost predicate NoDup(s: seq<City>) {
    forall i, j :: 0 <= i < j < |s| ==> s[i] != s[j]
  }

  /** `s` visits exactly the cities of `cities`, each as often. */
  ghost predicate IsPermutationOf(s: seq<City>, cities: seq<City>) {
    multiset(s) == multiset(cities)
  }

  /** `d` is `xs` with some of its elements left out, the rest in their order. */
  ghost predicate IsSubsequence(d: seq<City>, xs: seq<City>)
    decreases |xs|
  {
    if d == [] then true
    else if xs == [] then false
    else (d[0] == xs[0] && IsSubsequence(d[1..], xs[1..])) || IsSubsequence(d, xs[1..])
  }

  // ---------------------------------------------------------------------
  // Reproduction
  // ---------------------------------------------------------------------

  /**
    The list `acc` after appending, in order, every element of `xs` that is
    not yet in the list (the check is made against the growing list).
  */
  function AppendNew(acc: seq<City>, xs: seq<City>): (r: seq<City>)
    decreases |xs|
  {
    if xs == [] then acc
    else AppendNew(if xs[0] in acc then acc else acc + [xs[0]], xs[1..])
  }

  /**
    The chromosome `reproduction` builds from tours `a` and `b`: the first
    `len(a) // 2` cities of `a`, then the cities of `b` from that position
    on that are not yet present, then, if the result is still shorter than
    `a`, every city of `cities` not yet present.
  */
  function Crossover(a: seq<City>, b: seq<City>, cities: seq<City>): seq<City> {
    var h := AppendNew(a[..|a| / 2], Drop(b, |a| / 2));
    if |h| < |a| then AppendNew(h, cities) else h
  }

  /**
    TSProblem.reproduction: builds the new chromosome by appending to a copy
    of the first half of `a`; neither parent is modified.
  */
  method Reproduction(a: array<City>, b: array<City>, possibleCities: seq<City>) returns (newChrom: seq<City>)
    ensures newChrom == Crossover(a[..], b[..], possibleCities)
  {
    ghost var parentB := b[..];
    var xPoint := a.Length / 2;
    newChrom := a[..xPoint];
    ghost var half := newChrom;
    if xPoint < b.Length {
      for city := xPoint to b.Length
        invariant newChrom == AppendNew(half, parentB[xPoint..city])
      {
        assert parentB[xPoint..city + 1] == parentB[xPoint..city] + [b[city]];
        AppendNewSnoc(half, parentB[xPoint..city], b[city]);
        if b[city] !in newChrom {
          newChrom := newChrom + [b[city]];
        }
      }
      assert parentB[xPoint..b.Length] == Drop(parentB, xPoint);
    } else {
      assert Drop(parentB, xPoint) == [];
    }
    ghost var crossed := newChrom;
    if |newChrom| < a.Length {
      for i := 0 to |possibleCities|
        invariant newChrom == AppendNew(crossed, possibleCities[..i])
      {
        assert possibleCities[..i + 1] == possibleCities[..i] + [possibleCities[i]];
        AppendNewSnoc(crossed, possibleCities[..i], possibleCities[i]);
        if possibleCities[i] !in newChrom {
          newChrom := newChrom + [possibleCities[i]];
        }
      }
      assert possibleCities[..|possibleCities|] == possibleCities;
    }
    CrossoverParts(a[..], parentB, possibleCities, half, crossed, newChrom);
  }

  /** Crossover assembled from its two stages. */
  lemma CrossoverParts(a: seq<City>, b: seq<City>, cities: seq<City>, half: seq<City>, crossed: seq<City>, r: seq<City>)
    requires half == a[..|a| / 2] && crossed == AppendNew(half, Drop(b, |a| / 2))
    requires r == if |crossed| < |a| then AppendNew(crossed, cities) else crossed
    ensures r == Crossover(a, b, cities)
  {
  }

  /** Appending one more candidate appends it to the result of AppendNew unless it is already there. */
  lemma {:induction false} AppendNewSnoc(acc: seq<City>, xs: seq<City>, x: City)
    ensures AppendNew(acc, xs + [x]) == var r := AppendNew(acc, xs); if x in r then r else r + [x]
    decreases |xs|
  {
    if xs == [] {
      assert [x][1..] == [];
    } else {
      var next := if xs[0] in acc then acc else acc + [xs[0]];
      assert (xs + [x])[1..] == xs[1..] + [x];
      AppendNewSnoc(next, xs[1..], x);
    }
  }

  /** AppendNew only appends: the list it starts from is a prefix of its result. */
  lemma {:induction false} AppendNewExtends(acc: seq<City>, xs: seq<City>)
    ensures acc <= AppendNew(acc, xs)
    decreases |xs|
  {
    if xs != [] {
      var next := if xs[0] in acc then acc else acc + [xs[0]];
      AppendNewExtends(next, xs[1..]);
    }
  }

  /** A city is in `AppendNew(acc, xs)` exactly when it is in `acc` or in `xs`. */
  lemma {:induction false} AppendNewMembers(acc: seq<City>, xs: seq<City>)
    ensures forall x :: x in AppendNew(acc, xs) <==> x in acc || x in xs
    decreases |xs|
  {
    if xs != [] {
      var next := if xs[0] in acc then acc else acc + [xs[0]];
      AppendNewMembers(next, xs[1..]);
      assert xs == [xs[0]] + xs[1..];
    }
  }

  /** A city cannot be appended twice: appending to a list without repeats gives a list without repeats. */
  lemma {:induction false} AppendNewNoDup(acc: seq<City>, xs: seq<City>)
    requires NoDup(acc)
    ensures NoDup(AppendNew(acc, xs))
    decreases |xs|
  {
    if xs != [] {
      var next := if xs[0] in acc then acc else acc + [xs[0]];
      assert NoDup(next) by {
        if xs[0] !in acc {
          forall i, j | 0 <= i < j < |next|
            ensures next[i] != next[j]
          {
            if j == |acc| {
              assert next[i] == acc[i];
            }
          }
        }
      }
      AppendNewNoDup(next, xs[1..]);
    }
  }

  /** What AppendNew adds to `acc` comes from `xs`, in the order of `xs`. */
  lemma {:induction false} AppendNewOrder(acc: seq<City>, xs: seq<City>)
    ensures acc <= AppendNew(acc, xs) && IsSubsequence(AppendNew(acc, xs)[|acc|..], xs)
    decreases |xs|
  {
    AppendNewExtends(acc, xs);
    var r := AppendNew(acc, xs);
    if xs == [] {
      assert r[|acc|..] == [];
    } else if xs[0] in acc {
      AppendNewOrder(acc, xs[1..]);
      SubsequenceSkip(r[|acc|..], xs);
    } else {
      var next := acc + [xs[0]];
      AppendNewOrder(next, xs[1..]);
      assert r[|acc|..][0] == xs[0];
      assert r[|acc|..][1..] == r[|next|..];
    }
  }

  /** A subsequence of the tail of `xs` is a subsequence of `xs`. */
  lemma SubsequenceSkip(d: seq<City>, xs: seq<City>)
    requires xs != [] && IsSubsequence(d, xs[1..])
    ensures IsSubsequence(d, xs)
  {
  }

  /** The offspring begins with the first half of `a`, unchanged. */
  lemma CrossoverKeepsFirstHalf(a: seq<City>, b: seq<City>, cities: seq<City>)
    ensures |Crossover(a, b, cities)| >= |a| / 2
    ensures Crossover(a, b, cities)[..|a| / 2] == a[..|a| / 2]
  {
    var p := a[..|a| / 2];
    var h := AppendNew(p, Drop(b, |a| / 2));
    AppendNewExtends(p, Drop(b, |a| / 2));
    AppendNewExtends(h, cities);
  }

  /**
    After the first half of `a` come cities of `b`'s second half in `b`'s
    order, then cities in the order of `cities`; the second part is present
    only when the first two leave the offspring shorter than `a`.
  */
  lemma CrossoverOrder(a: seq<City>, b: seq<City>, cities: seq<City>)
    ensures var p := a[..|a| / 2];
      var h := AppendNew(p, Drop(b, |a| / 2));
      var r := Crossover(a, b, cities);
      && p <= h <= r
      && IsSubsequence(h[|p|..], Drop(b, |a| / 2))
      && IsSubsequence(r[|h|..], cities)
      && (|h| >= |a| ==> r == h)
  {
    var p := a[..|a| / 2];
    var h := AppendNew(p, Drop(b, |a| / 2));
    AppendNewOrder(p, Drop(b, |a| / 2));
    if |h| < |a| {
      AppendNewOrder(h, cities);
    } else {
      assert Crossover(a, b, cities)[|h|..] == [];
    }
  }

  /**
    Every city of the offspring comes from `a`'s first half, `b`'s second
    half or `cities`, and no city occurs twice when `a`'s first half has no
    repeats.
  */
  lemma CrossoverNoDup(a: seq<City>, b: seq<City>, cities: seq<City>)
    ensures var r := Crossover(a, b, cities);
      && (forall x :: x in r ==> x in a[..|a| / 2] || x in Drop(b, |a| / 2) || x in cities)
      && (NoDup(a[..|a| / 2]) ==> NoDup(r))
  {
    var p := a[..|a| / 2];
    var h := AppendNew(p, Drop(b, |a| / 2));
    AppendNewMembers(p, Drop(b, |a| / 2));
    AppendNewMembers(h, cities);
    if NoDup(p) {
      AppendNewNoDup(p, Drop(b, |a| / 2));
      AppendNewNoDup(h, cities);
    }
  }

  /**
    When both parents are permutations of the city list, which has no
    repeats, so is the offspring.
  */
  lemma CrossoverPermutes(a: seq<City>, b: seq<City>, cities: seq<City>)
    requires NoDup(cities) && IsPermutationOf(a, cities) && IsPermutationOf(b, cities)
    ensures IsPermutationOf(Crossover(a, b, cities), cities)
  {
    var p := a[..|a| / 2];
    var tail := Drop(b, |a| / 2);
    var h := AppendNew(p, tail);
    var r := Crossover(a, b, cities);
    PermutationNoDup(a, cities);
    assert NoDup(p);
    AppendNewNoDup(p, tail);
    AppendNewMembers(p, tail);
    forall x | x in h
      ensures x in cities
    {
      if x in p {
        assert x in multiset(a);
      } else {
        assert x in b;
        assert x in multiset(b);
      }
    }
    assert |multiset(a)| == |multiset(cities)|;
    if |h| < |a| {
      AppendNewNoDup(h, cities);
      AppendNewMembers(h, cities);
    } else {
      Pigeonhole(h, cities);
    }
    SameMembers(r, cities);
  }

  // ---------------------------------------------------------------------
  // Facts about lists without repeats
  // ---------------------------------------------------------------------

  /** In a list without repeats every member occurs once. */
  lemma {:induction false} NoDupCount(s: seq<City>)
    requires NoDup(s)
    ensures forall x :: multiset(s)[x] == if x in s then 1 else 0
  {
    if s != [] {
      assert s == [s[0]] + s[1..];
      assert NoDup(s[1..]) by {
        forall i, j | 0 <= i < j < |s| - 1
          ensures s[1..][i] != s[1..][j]
        {
          assert s[1..][i] == s[i + 1] && s[1..][j] == s[j + 1];
        }
      }
      NoDupCount(s[1..]);
    }
  }

  /** A list whose two positions hold the same city counts that city at least twice. */
  lemma CountTwo(s: seq<City>, i: nat, j: nat)
    requires i < j < |s| && s[i] == s[j]
    ensures multiset(s)[s[i]] >= 2
  {
    assert s == s[..j] + s[j..];
    assert s[i] in s[..j];
    assert s[j] in s[j..];
  }

  /** A permutation of a list without repeats has no repeats. */
  lemma PermutationNoDup(s: seq<City>, t: seq<City>)
    requires NoDup(t) && IsPermutationOf(s, t)
    ensures NoDup(s)
  {
    NoDupCount(t);
    forall i, j | 0 <= i < j < |s|
      ensures s[i] != s[j]
    {
      if s[i] == s[j] {
        CountTwo(s, i, j);
      }
    }
  }

  /** Two lists without repeats and with the same members are permutations of each other. */
  lemma SameMembers(s: seq<City>, t: seq<City>)
    requires NoDup(s) && NoDup(t)
    requires forall x :: x in s <==> x in t
    ensures IsPermutationOf(s, t)
  {
    NoDupCount(s);
    NoDupCount(t);
    assert forall x :: multiset(s)[x] == multiset(t)[x];
  }

  /** The members of a list without repeats form a set of its length. */
  lemma {:induction false} NoDupCard(s: seq<City>)
    requires NoDup(s)
    ensures |set x | x in s| == |s|
  {
    if s != [] {
      assert NoDup(s[1..]) by {
        forall i, j | 0 <= i < j < |s| - 1
          ensures s[1..][i] != s[1..][j]
        {
          assert s[1..][i] == s[i + 1] && s[1..][j] == s[j + 1];
        }
      }
      NoDupCard(s[1..]);
      assert (set x | x in s) == {s[0]} + (set x | x in s[1..]);
    }
  }

  /** A subset at least as large as its superset is all of it. */
  lemma SubsetFull(small: set<City>, big: set<City>)
    requires small <= big && |small| >= |big|
    ensures big <= small
  {
    assert big == small + (big - small);
    assert small * (big - small) == {};
  }

  /**
    A list without repeats drawn from a list without repeats, at least as
    long as it, contains every one of its cities.
  */
  lemma Pigeonhole(h: seq<City>, cities: seq<City>)
    requires NoDup(h) && NoDup(cities) && |h| >= |cities|
    requires forall x :: x in h ==> x in cities
    ensures forall x :: x in cities ==> x in h
  {
    NoDupCard(h);
    NoDupCard(cities);
    var inH, inCities := set x | x in h, set x | x in cities;
    SubsetFull(inH, inCities);
    forall x | x in cities
      ensures x in h
    {
      assert x in inCities;
      assert x in inH;
    }
  }

  // ---------------------------------------------------------------------
  // Mutation
  // ---------------------------------------------------------------------

  /** `s` with the entries at `i` and `j` exchanged. */
  function Swap(s: seq<City>, i: nat, j: nat): (r: seq<City>)
    requires i < |s| && j < |s|
    ensures |r| == |s|
  {
    s[i := s[j]][j := s[i]]
  }

  /**
    Swapping exchanges the two entries and leaves every other position
    alone; swapping a position with itself changes nothing, and swapping
    twice restores the list.
  */
  lemma SwapExchanges(s: seq<City>, i: nat, j: nat)
    requires i < |s| && j < |s|
    ensures Swap(s, i, j)[i] == s[j] && Swap(s, i, j)[j] == s[i]
    ensures forall k :: 0 <= k < |s| && k != i && k != j ==> Swap(s, i, j)[k] == s[k]
    ensures i == j ==> Swap(s, i, j) == s
    ensures Swap(Swap(s, i, j), i, j) == s
  {
  }

  /** Swapping keeps a tour a permutation of the same cities. */
  lemma SwapPermutes(s: seq<City>, i: nat, j: nat, cities: seq<City>)
    requires i < |s| && j < |s|
    ensures multiset(Swap(s, i, j)) == multiset(s)
    ensures IsPermutationOf(s, cities) ==> IsPermutationOf(Swap(s, i, j), cities)
  {
  }

  /**
    TSProblem.mutation with the two `random.randrange(0, len_chromosome)`
    positions `posA` and `posB`: an empty range raises ValueError, a position
    past the end of the tour raises IndexError, and either error leaves the
    tour alone; otherwise the two cities are swapped in place and the same
    array is returned.
  */
  method Mutation(newChrom: array<City>, lenChromosome: int, posA: int, posB: int) returns (r: Result<array<City>>)
    requires lenChromosome > 0 ==> 0 <= posA < lenChromosome && 0 <= posB < lenChromosome
    modifies newChrom
    ensures lenChromosome <= 0 ==> r == Err(ValueError)
    ensures lenChromosome > 0 && (posA >= newChrom.Length || posB >= newChrom.Length) ==> r == Err(IndexError)
    ensures r.Err? ==> newChrom[..] == old(newChrom[..])
    ensures r.Ok? <==> lenChromosome > 0 && 0 <= posA < newChrom.Length && 0 <= posB < newChrom.Length
    ensures r.Ok? ==> r.value == newChrom && newChrom[..] == Swap(old(newChrom[..]), posA, posB)
  {
    if lenChromosome <= 0 {
      return Err(ValueError);
    }
    if posA >= newChrom.Length || posB >= newChrom.Length {
      return Err(IndexError);
    }
    var atB, atA := newChrom[posB], newChrom[posA];
    newChrom[posA] := atB;
    newChrom[posB] := atA;
    return Ok(newChrom);
  }
}

/**
  An Individual of the genetic algorithm (a chromosome with its fitness) and
  the ranking of a population: `list.sort(reverse=True)` under `Individual.__lt__`.
*/
module Individuals {

  /** A candidate solution: a chromosome of genes of type G and its fitness (higher is better). */
  datatype Individual<G> = Individual(chromosome: seq<G>, fitness: real)

  /** `Individual.__lt__`: individuals are compared by fitness alone. */
  predicate Less<G>(x: Individual<G>, y: Individual<G>) {
    x.fitness < y.fitness
  }

  /** `Less` is a strict weak order: irreflexive, transitive, and incomparability is equal fitness. */
  lemma LessIsStrictWeakOrder<G>(x: Individual<G>, y: Individual<G>, z: Individual<G>)
    ensures !Less(x, x)
    ensures Less(x, y) && Less(y, z) ==> Less(x, z)
    ensures !Less(x, y) && !Less(y, x) <==> x.fitness == y.fitness
  {
  }

  /** The order `sort(reverse=True)` produces: no individual is less fit than a later one. */
  ghost predicate Descending<G>(s: seq<Individual<G>>) {
    forall i, j :: 0 <= i < j < |s| ==> !Less(s[i], s[j])
  }

  /**
    Inserts `x` in front of the first individual that is not fitter than it, so
    that among equally fit individuals the one inserted first stays in front.
  */
  function Insert<G>(x: Individual<G>, s: seq<Individual<G>>): (r: seq<Individual<G>>)
    ensures |r| == |s| + 1
  {
    if s == [] || !Less(x, s[0]) then [x] + s
    else [s[0]] + Insert(x, s[1..])
  }

  /** Insert adds exactly `x`. */
  lemma {:induction false} InsertPermutes<G>(x: Individual<G>, s: seq<Individual<G>>)
    ensures multiset(Insert(x, s)) == multiset(s) + multiset{x}
  {
    if s != [] && Less(x, s[0]) {
      InsertPermutes(x, s[1..]);
      assert s == [s[0]] + s[1..];
    }
  }

  /** The tail of a descending list is descending. */
  lemma DescendingTail<G>(s: seq<Individual<G>>)
    requires Descending(s) && s != []
    ensures Descending(s[1..])
  {
    forall i, j | 0 <= i < j < |s| - 1
      ensures !Less(s[1..][i], s[1..][j])
    {
      assert s[1..][i] == s[i + 1] && s[1..][j] == s[j + 1];
    }
  }

  /** A head at least as fit as every member of a descending list leads a descending list. */
  lemma DescendingCons<G>(h: Individual<G>, t: seq<Individual<G>>)
    requires Descending(t) && forall k :: 0 <= k < |t| ==> !Less(h, t[k])
    ensures Descending([h] + t)
  {
    var r := [h] + t;
    forall i, j | 0 <= i < j < |r|
      ensures !Less(r[i], r[j])
    {
      assert r[j] == t[j - 1];
      if i > 0 {
        assert r[i] == t[i - 1];
      }
    }
  }

  /** When `h` leads a descending list and is fitter than `x`, it may lead that list with `x` inserted. */
  lemma InsertBelow<G>(x: Individual<G>, h: Individual<G>, s: seq<Individual<G>>, t: seq<Individual<G>>)
    requires Less(x, h) && Descending([h] + s)
    requires multiset(t) == multiset(s) + multiset{x}
    ensures forall k :: 0 <= k < |t| ==> !Less(h, t[k])
  {
    forall k | 0 <= k < |t|
      ensures !Less(h, t[k])
    {
      var y := t[k];
      assert y in multiset(t);
      if y != x {
        assert multiset(s)[y] == multiset(t)[y];
        assert y in s;
        var j :| 0 <= j < |s| && s[j] == y;
        assert ([h] + s)[0] == h && ([h] + s)[j + 1] == y;
      }
    }
  }

  /** Insert keeps a descending list descending. */
  lemma {:induction false} InsertKeepsDescending<G>(x: Individual<G>, s: seq<Individual<G>>)
    requires Descending(s)
    ensures Descending(Insert(x, s))
  {
    if s == [] || !Less(x, s[0]) {
      forall k | 0 <= k < |s|
        ensures !Less(x, s[k])
      {
        assert k == 0 || !Less(s[0], s[k]);
      }
      DescendingCons(x, s);
    } else {
      var t := Insert(x, s[1..]);
      DescendingTail(s);
      InsertKeepsDescending(x, s[1..]);
      InsertPermutes(x, s[1..]);
      assert s == [s[0]] + s[1..];
      InsertBelow(x, s[0], s[1..], t);
      DescendingCons(s[0], t);
    }
  }

  /**
    The population in the order `list.sort(reverse=True)` leaves it in: fittest
    first, equally fit individuals in their original order (an insertion sort).
  */
  function SortDescending<G>(s: seq<Individual<G>>): (r: seq<Individual<G>>)
    ensures |r| == |s|
  {
    if s == [] then [] else Insert(s[0], SortDescending(s[1..]))
  }

  /** Sorting permutes the population. */
  lemma {:induction false} SortPermutes<G>(s: seq<Individual<G>>)
    ensures multiset(SortDescending(s)) == multiset(s)
  {
    if s != [] {
      SortPermutes(s[1..]);
      InsertPermutes(s[0], SortDescending(s[1..]));
      assert s == [s[0]] + s[1..];
    }
  }

  /** Sorting leaves the population descending. */
  lemma {:induction false} SortSorts<G>(s: seq<Individual<G>>)
    ensures Descending(SortDescending(s))
  {
    if s != [] {
      SortSorts(s[1..]);
      InsertKeepsDescending(s[0], SortDescending(s[1..]));
    }
  }

  /** Sorting an already sorted population changes nothing. */
  lemma {:induction false} SortSorted<G>(s: seq<Individual<G>>)
    requires Descending(s)
    ensures SortDescending(s) == s
  {
    if s != [] {
      DescendingTail(s);
      SortSorted(s[1..]);
      assert s == [s[0]] + s[1..];
      assert s[1..] == [] || !Less(s[0], s[1..][0]);
    }
  }

  /** Sorting twice is sorting once. */
  lemma SortIdempotent<G>(s: seq<Individual<G>>)
    ensures SortDescending(SortDescending(s)) == SortDescending(s)
  {
    SortSorts(s);
    SortSorted(SortDescending(s));
  }

  /** The members of `s` whose fitness is `f`, in their order in `s`. */
  function OfFitness<G>(s: seq<Individual<G>>, f: real): seq<Individual<G>> {
    if s == [] then [] else (if s[0].fitness == f then [s[0]] else []) + OfFitness(s[1..], f)
  }

  /** Insert puts `x` in front of every individual as fit as it, and keeps the order of the others. */
  lemma {:induction false} InsertOfFitness<G>(x: Individual<G>, s: seq<Individual<G>>, f: real)
    ensures OfFitness(Insert(x, s), f) == (if x.fitness == f then [x] else []) + OfFitness(s, f)
  {
    if s == [] || !Less(x, s[0]) {
      assert ([x] + s)[1..] == s;
    } else {
      InsertOfFitness(x, s[1..], f);
      assert ([s[0]] + Insert(x, s[1..]))[1..] == Insert(x, s[1..]);
    }
  }

  /** Sorting is stable: equally fit individuals keep their relative order. */
  lemma {:induction false} SortStable<G>(s: seq<Individual<G>>, f: real)
    ensures OfFitness(SortDescending(s), f) == OfFitness(s, f)
  {
    if s != [] {
      SortStable(s[1..], f);
      InsertOfFitness(s[0], SortDescending(s[1..]), f);
    }
  }

  /** The head of a descending population is at least as fit as each of its members. */
  lemma HeadIsFittest<G>(s: seq<Individual<G>>)
    requires Descending(s) && s != []
    ensures forall x :: x in s ==> !Less(s[0], x)
  {
    forall x | x in s
      ensures !Less(s[0], x)
    {
      var j :| 0 <= j < |s| && s[j] == x;
      assert j == 0 || !Less(s[0], s[j]);
    }
  }
}

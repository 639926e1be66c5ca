/**
  The Mastermind plug-in of the solver (MastermindProblem): a chromosome is a
  guess, a list of colours. Reproduction is a one-point crossover at an
  interior cut point; mutation replaces one gene by a colour of the palette.

  The random cut point, colour and position are parameters, constrained to
  the ranges `random.randrange` and `random.choice` draw from.
*/
module MastermindProblem {
  import opened Wrappers
  import opened PySlices

  /** Every gene of `s` is a colour of the palette. */
  ghost predicate AllValid<C>(s: seq<C>, validColors: seq<C>) {
    forall i :: 0 <= i < |s| ==> s[i] in validColors
  }

  /**
    MastermindProblem.reproduction with the cut point `xPoint` that
    `random.randrange(1, len(a) - 1)` draws: `a[0:x] + b[x:]`. The range is
    empty, and randrange raises ValueError, unless `a` has at least three
    genes. Genes before the cut come from `a`, the rest from `b`, so the
    offspring is as long as `b` (or as the cut, if `b` is shorter).
  */
  function Reproduction<C>(a: seq<C>, b: seq<C>, xPoint: int): (r: Result<seq<C>>)
    requires |a| >= 3 ==> 1 <= xPoint <= |a| - 2
    ensures r.Err? <==> |a| < 3
    ensures r.Err? ==> r.error == ValueError
    ensures r.Ok? ==> |r.value| == if xPoint <= |b| then |b| else xPoint
    ensures r.Ok? ==> forall i :: 0 <= i < xPoint ==> r.value[i] == a[i]
    ensures r.Ok? ==> forall i :: xPoint <= i < |r.value| ==> r.value[i] == b[i]
  {
    if |a| < 3 then Err(ValueError)
    else Ok(Take(a, xPoint) + Drop(b, xPoint))
  }

  /**
    With parents of equal length the cut is interior: the offspring has the
    parents' length, starts with `a`'s first gene and ends with `b`'s last.
  */
  lemma ReproductionMixesParents<C>(a: seq<C>, b: seq<C>, xPoint: int)
    requires |a| >= 3 && 1 <= xPoint <= |a| - 2 && |b| == |a|
    ensures Reproduction(a, b, xPoint).Ok?
    ensures var child := Reproduction(a, b, xPoint).value;
      |child| == |a| && child[0] == a[0] && child[|a| - 1] == b[|a| - 1]
  {
  }

  /** Crossing two guesses made of palette colours gives a guess made of palette colours. */
  lemma ReproductionKeepsValid<C>(a: seq<C>, b: seq<C>, xPoint: int, validColors: seq<C>)
    requires |a| >= 3 ==> 1 <= xPoint <= |a| - 2
    requires AllValid(a, validColors) && AllValid(b, validColors)
    ensures Reproduction(a, b, xPoint).Ok? ==> AllValid(Reproduction(a, b, xPoint).value, validColors)
  {
    var r := Reproduction(a, b, xPoint);
    if r.Ok? {
      forall i | 0 <= i < |r.value|
        ensures r.value[i] in validColors
      {
        if i < xPoint {
          assert r.value[i] == a[i];
        } else {
          assert r.value[i] == b[i];
        }
      }
    }
  }

  /**
    MastermindProblem.mutation with the colour `validColors[colorIndex]`
    that `random.choice` draws and the position `pos` that
    `random.randrange(0, len_chromosome)` draws: `c[0:pos] + [gene] + c[pos+1:]`.
    An empty palette raises IndexError, an empty range ValueError. The gene
    at `pos` becomes the new colour and every other gene is kept; a position
    past the end appends the colour.
  */
  function Mutation<C>(validColors: seq<C>, newChrom: seq<C>, lenChromosome: int, colorIndex: int, pos: int): (r: Result<seq<C>>)
    requires validColors != [] ==> 0 <= colorIndex < |validColors|
    requires lenChromosome > 0 ==> 0 <= pos < lenChromosome
    ensures r.Err? <==> validColors == [] || lenChromosome <= 0
    ensures validColors == [] ==> r == Err(IndexError)
    ensures validColors != [] && lenChromosome <= 0 ==> r == Err(ValueError)
    ensures r.Ok? && pos < |newChrom| ==>
      && |r.value| == |newChrom|
      && r.value[pos] == validColors[colorIndex]
      && forall i :: 0 <= i < |newChrom| && i != pos ==> r.value[i] == newChrom[i]
    ensures r.Ok? && pos >= |newChrom| ==> r.value == newChrom + [validColors[colorIndex]]
  {
    if validColors == [] then Err(IndexError)
    else if lenChromosome <= 0 then Err(ValueError)
    else Ok(Take(newChrom, pos) + [validColors[colorIndex]] + Drop(newChrom, pos + 1))
  }

  /** Mutating a guess made of palette colours gives a guess made of palette colours. */
  lemma MutationKeepsValid<C>(validColors: seq<C>, newChrom: seq<C>, lenChromosome: int, colorIndex: int, pos: int)
    requires validColors != [] ==> 0 <= colorIndex < |validColors|
    requires lenChromosome > 0 ==> 0 <= pos < lenChromosome
    requires AllValid(newChrom, validColors)
    ensures var r := Mutation(validColors, newChrom, lenChromosome, colorIndex, pos);
      r.Ok? ==> AllValid(r.value, validColors)
  {
    var r := Mutation(validColors, newChrom, lenChromosome, colorIndex, pos);
    if r.Ok? {
      forall i | 0 <= i < |r.value|
        ensures r.value[i] in validColors
      {
        if i == pos || i >= |newChrom| {
          assert r.value[i] == validColors[colorIndex];
        } else {
          assert r.value[i] == newChrom[i];
        }
      }
    }
  }
}

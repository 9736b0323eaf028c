/**
 * The run of the search: a population that one generation after another
 * replaces by its offspring. `Step` is the body of the generation loop,
 * done in place on an offspring array; `Run` is the loop itself.
 */
module Evolution {
  import opened Wrappers
  import opened Chemistry
  import opened Variation
  import opened Generation

  /** The starter strings the initial population is drawn from. */
  const Seeds: seq<string> := ["CCCO", "CCCC", "CC(=O)", "C=C(C)", "CCN(C)"]

  /** The number of generations of a run. */
  const Generations: nat := 100

  /** Every encoding the search handles has at least this many characters, so a split point always exists. */
  const MinLength: nat := 2

  lemma SeedsAreLongEnough(s: string)
    requires s in Seeds
    ensures 4 <= |s|
  {
  }

  /** The draws of `ds` fit, generation after generation, starting from `pop`. */
  predicate Feasible(parse: Parser, pop: seq<Individual>, ds: seq<Draws>)
    decreases |ds|
  {
    |ds| == 0 || (DrawsFit(pop, ds[0]) && Feasible(parse, NextGeneration(parse, pop, ds[0]), ds[1..]))
  }

  /** The population after one generation per element of `ds`. */
  function Evolve(parse: Parser, pop: seq<Individual>, ds: seq<Draws>): (last: seq<Individual>)
    requires Feasible(parse, pop, ds)
    ensures |last| == |pop|
    decreases |ds|
  {
    if |ds| == 0 then pop else Evolve(parse, NextGeneration(parse, pop, ds[0]), ds[1..])
  }

  /** Feasible draws fit their first generation, and the rest of a run continues from its result. */
  lemma EvolveStep(parse: Parser, pop: seq<Individual>, ds: seq<Draws>)
    requires |ds| > 0 && Feasible(parse, pop, ds)
    ensures DrawsFit(pop, ds[0]) && Feasible(parse, NextGeneration(parse, pop, ds[0]), ds[1..])
    ensures Evolve(parse, NextGeneration(parse, pop, ds[0]), ds[1..]) == Evolve(parse, pop, ds)
  {
  }

  /** Over any number of generations, members never get shorter than a bound they all met at the start. */
  lemma {:induction false} EvolveKeepsLength(parse: Parser, pop: seq<Individual>, ds: seq<Draws>, m: nat)
    requires Feasible(parse, pop, ds) && AllAtLeast(pop, m)
    ensures AllAtLeast(Evolve(parse, pop, ds), m)
    decreases |ds|
  {
    if |ds| > 0 {
      NextGenerationKeepsLength(parse, pop, ds[0], m);
      EvolveKeepsLength(parse, NextGeneration(parse, pop, ds[0]), ds[1..], m);
    }
  }

  /** From a consistent start, every generation ends with each member decoding and carrying its own score. */
  lemma {:induction false} EvolveScoresAll(parse: Parser, pop: seq<Individual>, ds: seq<Draws>)
    requires Feasible(parse, pop, ds) && Consistent(parse, pop) && |ds| > 0
    ensures FullyScored(parse, Evolve(parse, pop, ds))
    decreases |ds|
  {
    NextGenerationScoresAll(parse, pop, ds[0]);
    var next := NextGeneration(parse, pop, ds[0]);
    if |ds| > 1 {
      EvolveScoresAll(parse, next, ds[1..]);
    }
  }

  /** The population of a run and the parser it is scored with. */
  class Population {
    const parse: Parser
    var members: seq<Individual>

    ghost predicate Valid()
      reads this
    {
      AllAtLeast(members, MinLength)
    }

    /** The initial population: one unscored individual per drawn seed string. */
    constructor (parse: Parser, drawn: seq<string>)
      requires forall i :: 0 <= i < |drawn| ==> drawn[i] in Seeds
      ensures Valid() && this.parse == parse
      ensures members == seq(|drawn|, i requires 0 <= i < |drawn| => Individual(drawn[i], None))
    {
      this.parse := parse;
      members := seq(|drawn|, i requires 0 <= i < |drawn| => Individual(drawn[i], None));
      new;
      forall i | 0 <= i < |drawn| ensures MinLength <= |members[i].smiles| {
        SeedsAreLongEnough(drawn[i]);
      }
    }

    /** One generation: the body of the generation loop. */
    method Step(d: Draws)
      requires Valid() && DrawsFit(members, d)
      modifies this
      ensures Valid()
      ensures members == NextGeneration(parse, old(members), d)
      ensures |members| == |old(members)|
      ensures Consistent(parse, old(members)) ==> FullyScored(parse, members)
    {
      var selected := Selected(members, d.picks);
      var n := |selected|;
      var offspring := new Individual[n](i requires 0 <= i < n => selected[i]);
      assert offspring[..] == selected;
      MatePairs(parse, offspring, d);
      MutateEach(parse, offspring, d);
      Reevaluate(parse, offspring);
      NextGenerationKeepsLength(parse, members, d, MinLength);
      if Consistent(parse, members) {
        NextGenerationScoresAll(parse, members, d);
      }
      members := offspring[..];
    }

    /** The generation loop: `Generations` steps, each with its own draws. */
    method Run(draws: seq<Draws>)
      requires Valid() && |draws| == Generations && Feasible(parse, members, draws)
      modifies this
      ensures Valid()
      ensures members == Evolve(parse, old(members), draws)
      ensures |members| == |old(members)|
      ensures Consistent(parse, old(members)) ==> FullyScored(parse, members)
    {
      for g := 0 to |draws|
        invariant Valid()
        invariant Feasible(parse, members, draws[g..])
        invariant Evolve(parse, members, draws[g..]) == Evolve(parse, old(members), draws)
      {
        assert draws[g..][0] == draws[g] && draws[g..][1..] == draws[g + 1..];
        EvolveStep(parse, members, draws[g..]);
        Step(draws[g]);
      }
      assert draws[|draws|..] == [];
      if Consistent(parse, old(members)) {
        EvolveScoresAll(parse, old(members), draws);
      }
    }
  }

  /**
   * The crossover phase, in place: each pair of the snapshot the loop walks
   * over (`zip` of the even and odd slices) whose coin falls under the mating
   * probability is crossed; the children are kept in local variables only,
   * and a child that is the list member itself has its fitness deleted.
   */
  method MatePairs(parse: Parser, offspring: array<Individual>, d: Draws)
    requires MatingDrawsFit(offspring[..], d)
    modifies offspring
    ensures offspring[..] == AfterMating(parse, old(offspring[..]), d)
  {
    var pairs := offspring[..];
    for k := 0 to offspring.Length / 2
      invariant offspring[..] == MatedUpTo(parse, pairs, d, k)
    {
      MatedStep(parse, pairs, d, k);
      ghost var current := offspring[..];
      assert current[2 * k] == pairs[2 * k] && current[2 * k + 1] == pairs[2 * k + 1];
      if d.mateCoins[k] < MatingProbability {
        var children := Crossover(parse, pairs[2 * k].smiles, pairs[2 * k + 1].smiles, d.points[k]);
        offspring[2 * k] := Deleted(offspring[2 * k], children.0);
        offspring[2 * k + 1] := Deleted(offspring[2 * k + 1], children.1);
      }
      assert offspring[..] == current[2 * k := MatedMember(parse, pairs, d, k, true)]
                                     [2 * k + 1 := MatedMember(parse, pairs, d, k, false)];
    }
  }

  /** The mutation phase, in place: each offspring whose coin falls under the mutation probability is replaced by what mutation hands back. */
  method MutateEach(parse: Parser, offspring: array<Individual>, d: Draws)
    requires MutationDrawsFit(offspring[..], d)
    modifies offspring
    ensures offspring[..] == AfterMutation(parse, old(offspring[..]), d)
  {
    ghost var before := offspring[..];
    ghost var mutated := AfterMutation(parse, before, d);
    for i := 0 to offspring.Length
      invariant forall j :: 0 <= j < i ==> offspring[j] == mutated[j]
      invariant forall j :: i <= j < offspring.Length ==> offspring[j] == before[j]
    {
      if d.mutateCoins[i] < MutationProbability {
        var r := Mutate(parse, offspring[i].smiles, d.indices[i], d.symbols[i]);
        offspring[i] := Receive(offspring[i], r);
      }
    }
  }

  /**
   * Re-evaluation, in place: the stale offspring are listed, those that
   * decode are scored, and the scores are written back to the listed
   * offspring pairwise, stopping at the shorter of the two lists.
   */
  method Reevaluate(parse: Parser, offspring: array<Individual>)
    modifies offspring
    ensures offspring[..] == AfterReevaluation(parse, old(offspring[..]))
  {
    ghost var before := offspring[..];
    var stale := StaleIndices(offspring[..]);
    var fits := Fitnesses(parse, offspring[..]);
    ScoredNone(before, fits);
    for k := 0 to |fits|
      invariant offspring[..] == ScoredUpTo(before, fits, k)
    {
      ScoredStep(before, fits, k);
      offspring[stale[k]] := offspring[stale[k]].(fitness := Some(fits[k]));
    }
  }
}

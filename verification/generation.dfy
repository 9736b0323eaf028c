/**
 * One generation of the search, stage by stage, as functions of the
 * population and of the random draws: selection and cloning, the pairwise
 * crossover phase, the per-individual mutation phase, and the re-evaluation
 * of individuals whose fitness is unset. `Evolution.Population.Step` runs
 * these stages in place; the functions here say what it computes.
 */
module Generation {
  import opened Wrappers
  import opened Chemistry
  import opened Variation

  /** A SMILES string with its cached fitness; `None` means unset (stale). */
  datatype Individual = Individual(smiles: string, fitness: Option<real>)

  /** The chance that a pair of offspring is crossed. */
  const MatingProbability: real := 0.5

  /** The chance that an offspring is mutated. */
  const MutationProbability: real := 0.2

  /**
   * Every random value one generation consumes:
   *  - `picks`: the population positions returned by tournament selection;
   *  - `mateCoins`, `points`: per pair, the `random()` coin and the split point;
   *  - `mutateCoins`, `indices`, `symbols`: per offspring, the coin, the position and the symbol.
   */
  datatype Draws = Draws(picks: seq<nat>,
                         mateCoins: seq<real>, points: seq<nat>,
                         mutateCoins: seq<real>, indices: seq<nat>, symbols: seq<string>)

  predicate IsCoin(c: real)
  {
    0.0 <= c < 1.0
  }

  /** The individual an operator's outcome puts in a list cell: the same one, or a new one with unset fitness. */
  function Receive(ind: Individual, r: Returned): (out: Individual)
    ensures out.smiles == r.Encoding(ind.smiles)
    ensures r.Original? ==> out == ind
    ensures r.Created? ==> out.fitness == None
  {
    match r
    case Original => ind
    case Created(s) => Individual(s, None)
  }

  // ---------------------------------------------------------------- selection

  predicate PicksFit(pop: seq<Individual>, picks: seq<nat>)
  {
    |picks| == |pop| && forall i :: 0 <= i < |picks| ==> picks[i] < |pop|
  }

  /** Selection of `len(population)` members followed by cloning: copies of existing members, value and fitness alike. */
  function Selected(pop: seq<Individual>, picks: seq<nat>): (off: seq<Individual>)
    requires PicksFit(pop, picks)
    ensures |off| == |pop|
    ensures forall i :: 0 <= i < |off| ==> off[i] in pop
  {
    seq(|picks|, i requires 0 <= i < |picks| => pop[picks[i]])
  }

  // ----------------------------------------------------------- crossover phase

  /** The draws of the crossover phase are in range for the offspring list `off`. */
  predicate MatingDrawsFit(off: seq<Individual>, d: Draws)
  {
    && |d.mateCoins| == |off| / 2 && |d.points| == |off| / 2
    && (forall k :: 0 <= k < |d.mateCoins| ==> IsCoin(d.mateCoins[k]))
    && (forall k :: 0 <= k < |d.points| ==>
          d.mateCoins[k] < MatingProbability && |off[2 * k].smiles| == |off[2 * k + 1].smiles|
          ==> 1 <= d.points[k] <= |off[2 * k].smiles| - 1)
  }

  /** Whether the `k`th pair (positions 2k and 2k+1) is crossed. */
  predicate Mates(off: seq<Individual>, d: Draws, k: nat)
    requires MatingDrawsFit(off, d)
  {
    k < |off| / 2 && d.mateCoins[k] < MatingProbability
  }

  /**
   * The effect on a list member of `del child.fitness.values`, where `child`
   * is what crossover handed back for it: only a child that is the member
   * itself reaches the list.
   */
  function Deleted(member: Individual, child: Returned): (r: Individual)
    ensures r.smiles == member.smiles
    ensures r == member <==> child.Created? || member.fitness == None
    ensures child.Original? ==> r.fitness == None
  {
    if child.Original? then member.(fitness := None) else member
  }

  /**
   * What the crossover loop makes of the `j`th pair's `first` (or second)
   * member: unchanged when the pair is not crossed, and otherwise the
   * member with its fitness deleted exactly when crossover handed it back
   * itself.
   */
  function MatedMember(parse: Parser, off: seq<Individual>, d: Draws, j: nat, first: bool): (r: Individual)
    requires MatingDrawsFit(off, d) && j < |off| / 2
    ensures r.smiles == (if first then off[2 * j] else off[2 * j + 1]).smiles
    ensures r.fitness == (if first then off[2 * j] else off[2 * j + 1]).fitness || r.fitness == None
  {
    var member := if first then off[2 * j] else off[2 * j + 1];
    if d.mateCoins[j] < MatingProbability then
      var children := Crossover(parse, off[2 * j].smiles, off[2 * j + 1].smiles, d.points[j]);
      Deleted(member, if first then children.0 else children.1)
    else member
  }

  /**
   * The offspring list after the first `k` pairs went through the crossover
   * loop. The children are bound only to loop variables, so the list keeps
   * its individuals and their encodings; the members of the pairs already
   * reached are as `MatedMember` says, the others untouched.
   */
  function MatedUpTo(parse: Parser, off: seq<Individual>, d: Draws, k: nat): (r: seq<Individual>)
    requires MatingDrawsFit(off, d) && k <= |off| / 2
    ensures |r| == |off|
    ensures forall i {:trigger r[i]} :: 0 <= i < |off| ==> r[i].smiles == off[i].smiles
    ensures forall i {:trigger r[i]} :: 0 <= i < |off| ==> r[i].fitness == off[i].fitness || r[i].fitness == None
    ensures forall i {:trigger r[i]} :: 2 * k <= i < |off| ==> r[i] == off[i]
  {
    seq(|off|, i requires 0 <= i < |off| => if i < 2 * k then MatedMember(parse, off, d, i / 2, i % 2 == 0) else off[i])
  }

  /** One iteration of the crossover loop settles the `k`th pair and nothing else. */
  lemma MatedStep(parse: Parser, off: seq<Individual>, d: Draws, k: nat)
    requires MatingDrawsFit(off, d) && k < |off| / 2
    ensures MatedUpTo(parse, off, d, k + 1)
            == MatedUpTo(parse, off, d, k)[2 * k := MatedMember(parse, off, d, k, true)]
                                          [2 * k + 1 := MatedMember(parse, off, d, k, false)]
  {
    var first, second := 2 * k, 2 * k + 1;
    assert first / 2 == k && second / 2 == k && first % 2 == 0 && second % 2 == 1;
  }

  /** The offspring list after the crossover phase: every pair went through the loop. */
  function AfterMating(parse: Parser, off: seq<Individual>, d: Draws): (r: seq<Individual>)
    requires MatingDrawsFit(off, d)
    ensures |r| == |off|
    ensures forall i :: 0 <= i < |off| ==> r[i].smiles == off[i].smiles
    ensures forall i :: 0 <= i < |off| ==> r[i].fitness == off[i].fitness || r[i].fitness == None
  {
    MatedUpTo(parse, off, d, |off| / 2)
  }

  /**
   * The two members of the `k`th pair after the crossover phase: untouched
   * when the pair is not crossed; otherwise each loses its fitness exactly
   * when crossover handed it back itself.
   */
  lemma MatingOfPair(parse: Parser, off: seq<Individual>, d: Draws, k: nat)
    requires MatingDrawsFit(off, d) && k < |off| / 2
    ensures !Mates(off, d, k) ==>
              var r := AfterMating(parse, off, d);
              r[2 * k] == off[2 * k] && r[2 * k + 1] == off[2 * k + 1]
    ensures Mates(off, d, k) ==>
              var r := AfterMating(parse, off, d);
              var children := Crossover(parse, off[2 * k].smiles, off[2 * k + 1].smiles, d.points[k]);
              r[2 * k] == Deleted(off[2 * k], children.0) && r[2 * k + 1] == Deleted(off[2 * k + 1], children.1)
  {
    var first, second := 2 * k, 2 * k + 1;
    assert first / 2 == k && second / 2 == k && first % 2 == 0 && second % 2 == 1;
    var r := AfterMating(parse, off, d);
    assert r[first] == MatedMember(parse, off, d, k, true);
    assert r[second] == MatedMember(parse, off, d, k, false);
    if Mates(off, d, k) {
      var children := Crossover(parse, off[first].smiles, off[second].smiles, d.points[k]);
      assert MatedMember(parse, off, d, k, true) == Deleted(off[first], children.0);
      assert MatedMember(parse, off, d, k, false) == Deleted(off[second], children.1);
    }
  }

  /** Members outside every pair (the last one of an odd-sized list) pass through the crossover phase untouched. */
  lemma UnpairedMemberUntouched(parse: Parser, off: seq<Individual>, d: Draws, i: nat)
    requires MatingDrawsFit(off, d) && 2 * (|off| / 2) <= i < |off|
    ensures AfterMating(parse, off, d)[i] == off[i]
  {
  }

  /** A crossed pair whose members differ in length loses both fitness values. */
  lemma MismatchedPairLosesFitness(parse: Parser, off: seq<Individual>, d: Draws, k: nat)
    requires MatingDrawsFit(off, d) && Mates(off, d, k)
    requires |off[2 * k].smiles| != |off[2 * k + 1].smiles|
    ensures AfterMating(parse, off, d)[2 * k].fitness == None
    ensures AfterMating(parse, off, d)[2 * k + 1].fitness == None
  {
    MatingOfPair(parse, off, d, k);
  }

  /**
   * In a crossed pair of equal length, a member's fitness survives exactly
   * when its splice decodes: a valid child is discarded, an invalid one
   * reverts to the member and clears its fitness.
   */
  lemma MatedFitnessSurvivesIffSpliceDecodes(parse: Parser, off: seq<Individual>, d: Draws, k: nat)
    requires MatingDrawsFit(off, d) && Mates(off, d, k)
    requires |off[2 * k].smiles| == |off[2 * k + 1].smiles|
    ensures var r := AfterMating(parse, off, d);
            var a, b, p := off[2 * k].smiles, off[2 * k + 1].smiles, d.points[k];
            && (r[2 * k] == off[2 * k] <==> Parses(parse, Splice(a, b, p)) || off[2 * k].fitness == None)
            && (r[2 * k + 1] == off[2 * k + 1] <==> Parses(parse, Splice(b, a, p)) || off[2 * k + 1].fitness == None)
  {
    MatingOfPair(parse, off, d, k);
  }

  // ------------------------------------------------------------ mutation phase

  /** The draws of the mutation phase are in range for the offspring list `off`. */
  predicate MutationDrawsFit(off: seq<Individual>, d: Draws)
  {
    && |d.mutateCoins| == |off| && |d.indices| == |off| && |d.symbols| == |off|
    && (forall i :: 0 <= i < |d.mutateCoins| ==> IsCoin(d.mutateCoins[i]))
    && (forall i :: 0 <= i < |d.indices| ==>
          d.mutateCoins[i] < MutationProbability ==> d.indices[i] < |off[i].smiles| && d.symbols[i] in Symbols)
  }

  /**
   * The offspring at position `i` after the mutation phase: unchanged when
   * its coin misses; otherwise its mutant with unset fitness when that
   * decodes, and unchanged when it does not.
   */
  function MutatedAt(parse: Parser, off: seq<Individual>, d: Draws, i: nat): (r: Individual)
    requires MutationDrawsFit(off, d) && i < |off|
    ensures d.mutateCoins[i] >= MutationProbability ==> r == off[i]
    ensures d.mutateCoins[i] < MutationProbability ==>
              var mutant := Substitute(off[i].smiles, d.indices[i], d.symbols[i]);
              && (Parses(parse, mutant) ==> r == Individual(mutant, None))
              && (!Parses(parse, mutant) ==> r == off[i])
  {
    if d.mutateCoins[i] < MutationProbability then
      Receive(off[i], Mutate(parse, off[i].smiles, d.indices[i], d.symbols[i]))
    else off[i]
  }

  /**
   * The offspring list after the mutation phase: a member whose coin misses
   * stays as it was; otherwise it is replaced by its mutant, with unset
   * fitness, exactly when that mutant decodes, and stays as it was when the
   * mutant does not. Either way it is at most one character longer.
   */
  function AfterMutation(parse: Parser, off: seq<Individual>, d: Draws): (r: seq<Individual>)
    requires MutationDrawsFit(off, d)
    ensures |r| == |off|
    ensures forall i :: 0 <= i < |off| && d.mutateCoins[i] >= MutationProbability ==> r[i] == off[i]
    ensures forall i :: 0 <= i < |off| && d.mutateCoins[i] < MutationProbability ==>
              var mutant := Substitute(off[i].smiles, d.indices[i], d.symbols[i]);
              && (Parses(parse, mutant) ==> r[i] == Individual(mutant, None))
              && (!Parses(parse, mutant) ==> r[i] == off[i])
    ensures forall i :: 0 <= i < |off| ==>
              || r[i] == off[i]
              || (r[i].fitness == None && Parses(parse, r[i].smiles))
    ensures forall i :: 0 <= i < |off| ==> |off[i].smiles| <= |r[i].smiles| <= |off[i].smiles| + 1
  {
    seq(|off|, i requires 0 <= i < |off| => MutatedAt(parse, off, d, i))
  }

  // -------------------------------------------------------- re-evaluation phase

  /** The positions of the offspring whose fitness is unset, in list order. */
  function StaleIndices(off: seq<Individual>): (idx: seq<nat>)
    ensures |idx| <= |off|
    ensures forall k :: 0 <= k < |idx| ==> idx[k] < |off| && off[idx[k]].fitness == None
    ensures forall k, l :: 0 <= k < l < |idx| ==> idx[k] < idx[l]
    ensures forall i :: 0 <= i < |off| && off[i].fitness == None ==> i in idx
  {
    if |off| == 0 then []
    else
      var last := |off| - 1;
      StaleIndices(off[..last]) + (if off[last].fitness == None then [last] else [])
  }

  /** The SMILES strings of the stale offspring, in list order. */
  function StaleSmiles(off: seq<Individual>): (ss: seq<string>)
    ensures |ss| == |StaleIndices(off)|
    ensures forall k :: 0 <= k < |ss| ==> ss[k] == off[StaleIndices(off)[k]].smiles
  {
    var idx := StaleIndices(off);
    seq(|idx|, k requires 0 <= k < |idx| => off[idx[k]].smiles)
  }

  /**
   * The strings of `ss` that decode, in order: every kept string decodes,
   * and all are kept when all decode. `DecodingKeepsEveryDecoding`,
   * `DecodingAppend`, `DecodedPlace` and `DecodingDropsFailure` say the rest.
   */
  function Decoding(parse: Parser, ss: seq<string>): (r: seq<string>)
    ensures |r| <= |ss|
    ensures forall k :: 0 <= k < |r| ==> Parses(parse, r[k])
    ensures (forall k :: 0 <= k < |ss| ==> Parses(parse, ss[k])) ==> r == ss
  {
    if |ss| == 0 then []
    else (if Parses(parse, ss[0]) then [ss[0]] else []) + Decoding(parse, ss[1..])
  }

  /** No decoding string is filtered out. */
  lemma {:induction false} DecodingKeepsEveryDecoding(parse: Parser, ss: seq<string>)
    ensures forall s :: s in ss && Parses(parse, s) ==> s in Decoding(parse, ss)
  {
    if |ss| > 0 {
      DecodingKeepsEveryDecoding(parse, ss[1..]);
      forall s | s in ss && Parses(parse, s) ensures s in Decoding(parse, ss) {
        if s != ss[0] {
          assert s in ss[1..];
        }
      }
    }
  }

  /** The filter works string by string and keeps input order: filtering a concatenation concatenates the results. */
  lemma {:induction false} DecodingAppend(parse: Parser, a: seq<string>, b: seq<string>)
    ensures Decoding(parse, a + b) == Decoding(parse, a) + Decoding(parse, b)
  {
    if |a| > 0 {
      DecodingAppend(parse, a[1..], b);
      assert (a + b)[1..] == a[1..] + b;
    } else {
      assert a + b == b;
    }
  }

  /**
   * The place in `ss` of the `k`th kept string: the decoding string with
   * exactly `k` decoding strings before it, so at place `k` or later.
   */
  lemma {:induction false} DecodedPlace(parse: Parser, ss: seq<string>, k: nat) returns (j: nat)
    requires k < |Decoding(parse, ss)|
    ensures k <= j < |ss| && ss[j] == Decoding(parse, ss)[k] && Parses(parse, ss[j])
    ensures |Decoding(parse, ss[..j])| == k
  {
    if Parses(parse, ss[0]) && k == 0 {
      j := 0;
      assert ss[..0] == [];
    } else {
      var m := if Parses(parse, ss[0]) then k - 1 else k;
      var tail := ss[1..];
      assert Decoding(parse, ss)[k] == Decoding(parse, tail)[m];
      var i := DecodedPlace(parse, tail, m);
      j := i + 1;
      assert ss[..j][1..] == tail[..i];
    }
  }

  /** A string that does not decode makes the result shorter than its input. */
  lemma {:induction false} DecodingDropsFailure(parse: Parser, ss: seq<string>, k: nat)
    requires k < |ss| && !Parses(parse, ss[k])
    ensures |Decoding(parse, ss)| < |ss|
  {
    if k > 0 {
      DecodingDropsFailure(parse, ss[1..], k - 1);
    }
  }

  /**
   * The scores of the stale offspring that decode, in order: the `k`th score
   * belongs to the `k`th stale offspring or a later one that decodes; when
   * every stale offspring decodes the `k`th score is the `k`th one's own, and
   * otherwise there are fewer scores than stale offspring.
   */
  function Fitnesses(parse: Parser, off: seq<Individual>): (fits: seq<real>)
    ensures |fits| <= |StaleIndices(off)|
    ensures (forall k :: 0 <= k < |StaleIndices(off)| ==> Parses(parse, off[StaleIndices(off)[k]].smiles)) ==>
              && |fits| == |StaleIndices(off)|
              && forall k :: 0 <= k < |fits| ==> fits[k] == Tabletability(parse, off[StaleIndices(off)[k]].smiles)
  {
    var kept := Decoding(parse, StaleSmiles(off));
    seq(|kept|, k requires 0 <= k < |kept| => Tabletability(parse, kept[k]))
  }

  /** How many of the first `j` stale offspring decode. */
  function DecodingBefore(parse: Parser, off: seq<Individual>, j: nat): nat
    requires j <= |StaleIndices(off)|
  {
    |Decoding(parse, StaleSmiles(off)[..j])|
  }

  /** A stale offspring that does not decode leaves fewer scores than stale offspring. */
  lemma FitnessesFewer(parse: Parser, off: seq<Individual>, k: nat)
    requires k < |StaleIndices(off)| && !Parses(parse, off[StaleIndices(off)[k]].smiles)
    ensures |Fitnesses(parse, off)| < |StaleIndices(off)|
  {
    DecodingDropsFailure(parse, StaleSmiles(off), k);
  }

  /**
   * The `k`th score belongs to the decoding stale offspring that has exactly
   * `k` decoding stale offspring before it, which stands at place `k` or later.
   */
  lemma FitnessOfLaterStale(parse: Parser, off: seq<Individual>, k: nat)
    requires k < |Fitnesses(parse, off)|
    ensures exists j :: k <= j < |StaleIndices(off)| && Parses(parse, off[StaleIndices(off)[j]].smiles)
                        && DecodingBefore(parse, off, j) == k
                        && Fitnesses(parse, off)[k] == Tabletability(parse, off[StaleIndices(off)[j]].smiles)
  {
    var ss := StaleSmiles(off);
    assert k < |Decoding(parse, ss)| && Fitnesses(parse, off)[k] == Tabletability(parse, Decoding(parse, ss)[k]);
    var j := DecodedPlace(parse, ss, k);
    assert ss[j] == off[StaleIndices(off)[j]].smiles;
  }

  /** The place of position `i` among the stale positions: how many stale offspring precede it. */
  function Rank(off: seq<Individual>, i: nat): nat
    requires i <= |off|
  {
    |StaleIndices(off[..i])|
  }

  /**
   * The offspring list after re-evaluation. The scores are paired with the
   * stale offspring by position, as `zip` does: the `k`th score goes to the
   * `k`th stale offspring, and stale offspring beyond the number of scores
   * stay unset.
   */
  function AfterReevaluation(parse: Parser, off: seq<Individual>): (r: seq<Individual>)
    ensures |r| == |off|
    ensures forall i :: 0 <= i < |off| ==> r[i].smiles == off[i].smiles
    ensures forall i :: 0 <= i < |off| && off[i].fitness != None ==> r[i] == off[i]
  {
    var fits := Fitnesses(parse, off);
    ScoredUpTo(off, fits, |fits|)
  }

  lemma {:induction false} StaleIndicesPrefix(off: seq<Individual>, j: nat)
    requires j <= |off|
    ensures StaleIndices(off[..j]) <= StaleIndices(off)
    decreases |off| - j
  {
    if j < |off| {
      StaleIndicesPrefix(off, j + 1);
      assert off[..j + 1][..j] == off[..j];
    } else {
      assert off[..j] == off;
    }
  }

  /** The rank of a stale position is where the stale positions list it. */
  lemma RankLocates(off: seq<Individual>, i: nat)
    requires i < |off| && off[i].fitness == None
    ensures Rank(off, i) < |StaleIndices(off)| && StaleIndices(off)[Rank(off, i)] == i
  {
    assert off[..i + 1][..i] == off[..i];
    assert StaleIndices(off[..i + 1]) == StaleIndices(off[..i]) + [i];
    StaleIndicesPrefix(off, i + 1);
  }

  /** The `k`th stale position has rank `k`. */
  lemma RankOfStale(off: seq<Individual>, k: nat)
    requires k < |StaleIndices(off)|
    ensures Rank(off, StaleIndices(off)[k]) == k
  {
    RankLocates(off, StaleIndices(off)[k]);
  }

  /** The offspring list after the first `k` iterations of the `zip` loop that writes `fits` back to the stale offspring. */
  function ScoredUpTo(off: seq<Individual>, fits: seq<real>, k: nat): (r: seq<Individual>)
    requires k <= |fits|
    ensures |r| == |off|
    ensures forall i :: 0 <= i < |off| ==> r[i].smiles == off[i].smiles
    ensures forall i :: 0 <= i < |off| && (off[i].fitness != None || k <= Rank(off, i)) ==> r[i] == off[i]
    ensures forall i :: 0 <= i < |off| && off[i].fitness == None && Rank(off, i) < k ==>
              r[i].fitness == Some(fits[Rank(off, i)])
  {
    seq(|off|, i requires 0 <= i < |off| =>
      if off[i].fitness == None && Rank(off, i) < k then off[i].(fitness := Some(fits[Rank(off, i)])) else off[i])
  }

  /** One iteration of the `zip` loop writes the `k`th score to the `k`th stale offspring and changes nothing else. */
  lemma ScoredStep(off: seq<Individual>, fits: seq<real>, k: nat)
    requires k < |fits| && k < |StaleIndices(off)|
    ensures var j := StaleIndices(off)[k];
            ScoredUpTo(off, fits, k + 1) == ScoredUpTo(off, fits, k)[j := off[j].(fitness := Some(fits[k]))]
  {
    var idx := StaleIndices(off);
    RankOfStale(off, k);
    forall i | 0 <= i < |off| && off[i].fitness == None && Rank(off, i) == k
      ensures i == idx[k]
    {
      RankLocates(off, i);
    }
  }

  /** Before the first iteration of the `zip` loop the list is as it was. */
  lemma ScoredNone(off: seq<Individual>, fits: seq<real>)
    ensures ScoredUpTo(off, fits, 0) == off
  {
  }

  /**
   * When every stale offspring decodes, re-evaluation gives each of them its
   * own score, and afterwards no offspring has an unset fitness.
   */
  lemma ReevaluationScoresStale(parse: Parser, off: seq<Individual>)
    requires forall i :: 0 <= i < |off| && off[i].fitness == None ==> Parses(parse, off[i].smiles)
    ensures forall i :: 0 <= i < |off| && off[i].fitness == None ==>
              AfterReevaluation(parse, off)[i].fitness == Some(Tabletability(parse, off[i].smiles))
    ensures forall i :: 0 <= i < |off| ==> AfterReevaluation(parse, off)[i].fitness != None
  {
    var ss := StaleSmiles(off);
    forall k | 0 <= k < |ss| ensures Parses(parse, ss[k]) {
      assert ss[k] == off[StaleIndices(off)[k]].smiles;
    }
    assert Decoding(parse, ss) == ss;
    forall i | 0 <= i < |off| && off[i].fitness == None
      ensures AfterReevaluation(parse, off)[i].fitness == Some(Tabletability(parse, off[i].smiles))
    {
      RankLocates(off, i);
    }
  }

  /**
   * Re-evaluation pairs scores with stale offspring by place, as `zip` does:
   * the `k`th stale offspring receives the `k`th score, and stays unset when
   * there is none.
   */
  lemma ReevaluationByPlace(parse: Parser, off: seq<Individual>, k: nat)
    requires k < |StaleIndices(off)|
    ensures var fits := Fitnesses(parse, off);
            k < |fits| ==> AfterReevaluation(parse, off)[StaleIndices(off)[k]].fitness == Some(fits[k])
    ensures |Fitnesses(parse, off)| <= k ==> AfterReevaluation(parse, off)[StaleIndices(off)[k]].fitness == None
  {
    RankOfStale(off, k);
  }

  /**
   * A stale offspring either stays unset or receives the score of the
   * decoding stale offspring with as many decoding ones before it as it has
   * places before it among the stale ones: scores move towards the front,
   * never back, and keep their order.
   */
  lemma ReevaluationScoresFromLater(parse: Parser, off: seq<Individual>, k: nat)
    requires k < |StaleIndices(off)|
    ensures var idx, r := StaleIndices(off), AfterReevaluation(parse, off);
            || r[idx[k]].fitness == None
            || exists j :: k <= j < |idx| && Parses(parse, off[idx[j]].smiles) && DecodingBefore(parse, off, j) == k
                           && r[idx[k]].fitness == Some(Tabletability(parse, off[idx[j]].smiles))
  {
    ReevaluationByPlace(parse, off, k);
    if k < |Fitnesses(parse, off)| {
      FitnessOfLaterStale(parse, off, k);
    }
  }

  /**
   * The stale offspring left unset are exactly the tail beyond the number of
   * stale offspring that decode: as many as there are non-decoding ones.
   */
  lemma ReevaluationUnsetTail(parse: Parser, off: seq<Individual>, k: nat)
    requires k < |StaleIndices(off)|
    ensures AfterReevaluation(parse, off)[StaleIndices(off)[k]].fitness == None
            <==> DecodingBefore(parse, off, |StaleIndices(off)|) <= k
  {
    var ss := StaleSmiles(off);
    assert ss[..|StaleIndices(off)|] == ss;
    ReevaluationByPlace(parse, off, k);
  }

  /**
   * When the `k`th stale offspring does not decode, the last stale offspring
   * (the one at place `last` among them) is left with an unset fitness.
   */
  lemma ReevaluationLeavesLastUnset(parse: Parser, off: seq<Individual>, k: nat, last: nat)
    requires k < |StaleIndices(off)| && !Parses(parse, off[StaleIndices(off)[k]].smiles)
    requires last == |StaleIndices(off)| - 1
    ensures AfterReevaluation(parse, off)[StaleIndices(off)[last]].fitness == None
  {
    FitnessesFewer(parse, off, k);
    ReevaluationByPlace(parse, off, last);
  }

  /**
   * When a stale offspring does not decode, the scores shift: with a
   * non-decoding stale offspring followed by a decoding one, the first
   * receives the second's score and the second stays unset.
   */
  lemma ReevaluationMisaligns(parse: Parser, a: string, b: string)
    requires !Parses(parse, a) && Parses(parse, b)
    ensures var r := AfterReevaluation(parse, [Individual(a, None), Individual(b, None)]);
            r[0].fitness == Some(Tabletability(parse, b)) && r[1].fitness == None
  {
    var off := [Individual(a, None), Individual(b, None)];
    assert off[..1] == [Individual(a, None)] && off[..1][..0] == [];
    assert StaleIndices(off) == [0, 1];
    assert StaleSmiles(off) == [a, b];
    assert Decoding(parse, [a, b]) == [b];
    assert off[..0] == [];
  }

  // ---------------------------------------------------------- whole generation

  /** The draws are in range for one generation of `pop`. */
  predicate DrawsFit(pop: seq<Individual>, d: Draws)
  {
    && PicksFit(pop, d.picks)
    && MatingDrawsFit(Selected(pop, d.picks), d)
    && MutationDrawsFit(Selected(pop, d.picks), d)
  }

  /** The draws that take the selection `picks`, always cross at point 1 and always mutate position 0 into `C`. */
  function LowestDraws(pop: seq<Individual>, picks: seq<nat>): Draws
  {
    Draws(picks,
          seq(|pop| / 2, k => 0.0), seq(|pop| / 2, k => 1),
          seq(|pop|, i => 0.0), seq(|pop|, i => 0), seq(|pop|, i => "C"))
  }

  /**
   * When every member has at least two characters, no random range of a
   * generation is empty, whatever the selection: the lowest value of each
   * range fits, with every pair crossed and every offspring mutated.
   */
  lemma DrawRangesNonEmpty(pop: seq<Individual>, picks: seq<nat>)
    requires AllAtLeast(pop, 2) && PicksFit(pop, picks)
    ensures DrawsFit(pop, LowestDraws(pop, picks))
  {
    var d := LowestDraws(pop, picks);
    var off := Selected(pop, d.picks);
    forall i | 0 <= i < |off| ensures 2 <= |off[i].smiles| {
      assert off[i] in pop;
    }
  }

  /** One generation: select and clone, cross pairs, mutate, re-evaluate; the result replaces the population. */
  function NextGeneration(parse: Parser, pop: seq<Individual>, d: Draws): (next: seq<Individual>)
    requires DrawsFit(pop, d)
    ensures |next| == |pop|
  {
    var off := Selected(pop, d.picks);
    var mated := AfterMating(parse, off, d);
    AfterReevaluation(parse, AfterMutation(parse, mated, d))
  }

  /** Every member has at least `m` characters. */
  predicate AllAtLeast(pop: seq<Individual>, m: nat)
  {
    forall i :: 0 <= i < |pop| ==> m <= |pop[i].smiles|
  }

  /** Every member decodes, and every fitness that is set is the member's own score. */
  predicate Consistent(parse: Parser, pop: seq<Individual>)
  {
    forall i :: 0 <= i < |pop| ==>
      && Parses(parse, pop[i].smiles)
      && (pop[i].fitness == None || pop[i].fitness == Some(Tabletability(parse, pop[i].smiles)))
  }

  /** Every member decodes and carries its own score. */
  predicate FullyScored(parse: Parser, pop: seq<Individual>)
  {
    forall i :: 0 <= i < |pop| ==>
      Parses(parse, pop[i].smiles) && pop[i].fitness == Some(Tabletability(parse, pop[i].smiles))
  }

  /** Encodings never get shorter: a generation keeps every lower bound on the members' lengths. */
  lemma NextGenerationKeepsLength(parse: Parser, pop: seq<Individual>, d: Draws, m: nat)
    requires DrawsFit(pop, d) && AllAtLeast(pop, m)
    ensures AllAtLeast(NextGeneration(parse, pop, d), m)
  {
    var off := Selected(pop, d.picks);
    var mated := AfterMating(parse, off, d);
    var mutated := AfterMutation(parse, mated, d);
    forall i | 0 <= i < |off| ensures m <= |mutated[i].smiles| {
      assert off[i] in pop;
    }
  }

  /**
   * Starting from a population whose members all decode and whose set
   * fitness values are right, one generation yields a population in which
   * every member decodes and carries its own score, so the next selection
   * sees no unset fitness.
   */
  lemma NextGenerationScoresAll(parse: Parser, pop: seq<Individual>, d: Draws)
    requires DrawsFit(pop, d) && Consistent(parse, pop)
    ensures FullyScored(parse, NextGeneration(parse, pop, d))
  {
    var off := Selected(pop, d.picks);
    var mated := AfterMating(parse, off, d);
    var mutated := AfterMutation(parse, mated, d);
    forall i | 0 <= i < |mutated|
      ensures Parses(parse, mutated[i].smiles)
      ensures mutated[i].fitness == None || mutated[i].fitness == Some(Tabletability(parse, mutated[i].smiles))
    {
      var j :| 0 <= j < |pop| && pop[j] == off[i];
    }
    ReevaluationScoresStale(parse, mutated);
  }
}

# evo-cocrystals: a Dafny model of the evolutionary search

The repository runs a genetic algorithm over SMILES strings (text encodings
of small molecules) to maximise a "tabletability" score: the QED drug-likeness
estimate plus a bonus that is largest when the Crippen logP equals 2.5. Each
generation selects parents by tournament, clones them, crosses consecutive
pairs by a single-point suffix swap, mutates single characters, re-scores the
offspring whose fitness is unset and replaces the population wholesale. Both
variation operators fall back to their argument when the edited string does
not decode to a molecule.

The model, one module per component of `main.py`:

- `Wrappers` — the `Option` type used for a parse result and a cached fitness.
- `Chemistry` — the chemistry back-end as a value `parse: string -> Option<Mol>`
  (a `Mol` carries the two descriptors), the validity predicate `Parses`, and
  the fitness `Tabletability` over `real`.
- `Variation` — `Crossover` and `Mutate` as functions of the parents and of the
  random draws. Their result type `Returned` records whether the operator
  handed back the very object it was given (`Original`) or a newly created
  individual (`Created`), because the generation loop's behaviour depends on
  that identity.
- `Generation` — an `Individual` (SMILES plus optional fitness), the `Draws`
  one generation consumes, and one function per stage of the loop body:
  `Selected`, `AfterMating` (built pair by pair by `MatedUpTo`),
  `AfterMutation`, `AfterReevaluation`, composed in `NextGeneration`.
- `Evolution` — the class `Population` whose `Step` runs one generation in
  place on an offspring array (`MatePairs`, `MutateEach`, `Reevaluate`, one
  method per loop of the source) and whose `Run` is the 100-generation loop;
  each is proved equal to the stage functions.

What `main.py` does, as modelled:

- In the crossover loop the children are bound only to loop variables, so the
  offspring list never receives a spliced child. Its encodings are unchanged;
  the only visible effect is that `del child.fitness.values` clears the
  fitness of a list member when crossover handed that member back itself (its
  splice did not decode, or the pair differed in length).
- Re-evaluation drops non-decoding stale offspring before pairing scores with
  the stale list by position. A stale offspring that does not decode does not
  get the sentinel score; instead the scores move towards the front onto
  other individuals, keeping their order (`ReevaluationScoresFromLater`), and
  as many stale offspring as fail to decode stay unset at the end of the
  stale list (`ReevaluationUnsetTail`, `ReevaluationLeavesLastUnset`). When every member
  decodes and every score already set is the member's own, which holds for
  the unscored initial population when the seeds decode and which every
  generation then preserves, all fitness values come out right
  (`NextGenerationScoresAll`).
- The sentinel score 0 of a non-decoding string is not the lowest score: a
  molecule whose logP is far from 2.5 scores below it
  (`SentinelOutranksFarLogP`).
- The initial population is never scored before the loop, so the first
  tournament compares unset fitness values and the first re-evaluation
  scores every offspring; full and correct scores are promised from the end
  of the first generation on (`EvolveScoresAll`).
- Encodings never get shorter: crossover keeps lengths and mutation keeps or
  grows them by one. Because every seed string has at least four characters,
  every member keeps at least two (`Population.Valid`), so the split-point
  range `1 .. len-1` and the position range `0 .. len-1` are never empty,
  whichever members selection copies (`DrawRangesNonEmpty`).

## Model

| member | source | states |
|---|---|---|
| `Chemistry.Tabletability` | main.py:9-15 | a string that does not decode scores 0; a decoded molecule scores at most its QED plus 1, with equality exactly when its logP is 2.5 |
| `Chemistry.TabletabilityPrefersTarget` | main.py:13-15 | at equal QED, a logP nearer 2.5 never scores lower, and strictly nearer scores strictly higher |
| `Chemistry.SentinelOutranksFarLogP` | main.py:11-15 | a decoded molecule whose logP is further than QED+1 from 2.5 scores below the sentinel 0 of an undecodable string |
| `Chemistry.TabletabilityExamples` | main.py:15 | QED 0.8 at logP 2.5 scores 1.8; at logP 1.5 it scores 0.8 |
| `Variation.SymbolLengths` | main.py:35 | every mutation symbol is one or two characters long |
| `Variation.Splice` | main.py:23-24 | a splice has the tail parent's length, the head parent's prefix before the point and the tail parent's suffix from it |
| `Variation.Guard` | main.py:26-29 | a candidate is kept exactly when it decodes, otherwise the argument itself is handed back |
| `Variation.Crossover` | main.py:17-31 | parents of different length come back unchanged; otherwise each child is its splice exactly when that splice decodes and its own parent otherwise, independently of the other child; each child keeps its parent's length and is its parent or decodes |
| `Variation.CrossoverConservesCharacters` | main.py:21-24 | when both splices are kept, the two children together hold exactly the characters of the two parents |
| `Variation.Substitute` | main.py:36 | the candidate keeps the prefix before the position, holds the symbol there and continues with the suffix after the replaced character, so its length is the original's minus one plus the symbol's |
| `Variation.Mutate` | main.py:33-40 | the mutant is kept exactly when it decodes, otherwise the original comes back; the result is the original or decodes, and is as long as the original or one longer |
| `Variation.MutantAgreesElsewhere` | main.py:34-36 | the mutant agrees with the original at every other position, shifted by the symbol's extra length after the substituted one |
| `Generation.Receive` | main.py:70 | the list cell gets the same individual when mutation returned its argument, and otherwise the mutant with unset fitness |
| `Generation.Selected` | main.py:59-60 | selection plus cloning yields as many individuals as the population has, each a copy of a member |
| `Generation.Deleted` | main.py:64-66 | deleting a child's fitness keeps the member's encoding, unsets the member's fitness when crossover handed it back, and leaves the member unchanged exactly when the child was a new individual or the fitness was already unset |
| `Generation.MatedMember` | main.py:62-66 | after its pair's iteration a member keeps its encoding and either keeps its fitness or has none |
| `Generation.MatedUpTo` | main.py:62-66 | after any number of loop iterations the list has its length and encodings, fitness values are kept or cleared, and members of pairs not yet reached are untouched |
| `Generation.AfterMating` | main.py:62-66 | the crossover phase keeps the list's length and every encoding, and at most clears fitness values |
| `Generation.MatedStep` | main.py:62-66 | one crossover-loop iteration settles its own pair and leaves every other member of the list as it was |
| `Generation.MatingOfPair` | main.py:62-66 | an uncrossed pair passes unchanged; in a crossed pair each member loses its fitness exactly when crossover handed that member back itself |
| `Generation.UnpairedMemberUntouched` | main.py:62 | the last member of an odd-sized list is never crossed |
| `Generation.MismatchedPairLosesFitness` | main.py:62-66 | a crossed pair of different lengths loses both fitness values |
| `Generation.MatedFitnessSurvivesIffSpliceDecodes` | main.py:62-66 | in a crossed pair of equal length a member keeps its fitness exactly when its splice decodes (or it had none) |
| `Generation.MutatedAt` | main.py:69-70 | one iteration of the mutation loop: a member whose coin is at least 0.2 stays; otherwise it becomes its substitution mutant with unset fitness when that decodes and stays when it does not |
| `Generation.AfterMutation` | main.py:68-70 | a member whose coin is at least 0.2 stays; otherwise it becomes its substitution mutant with unset fitness when that decodes and stays when it does not; lengths stay or grow by one |
| `Generation.StaleIndices` | main.py:72 | the listed positions are exactly the offspring with unset fitness, in increasing order |
| `Generation.StaleSmiles` | main.py:72-73 | the strings of the stale offspring, one per stale position and in the same order |
| `Generation.Decoding` | main.py:73 | the filter keeps only decoding strings, never more than it was given, and all of them when all decode |
| `Generation.DecodingKeepsEveryDecoding` | main.py:73 | every decoding string passes the filter |
| `Generation.DecodingAppend` | main.py:73 | the filter keeps input order: filtering a concatenation gives the filtered parts, concatenated |
| `Generation.DecodedPlace` | main.py:73 | the `k`th kept string is the decoding string with exactly `k` decoding strings before it, at place `k` or later |
| `Generation.DecodingDropsFailure` | main.py:73 | one string that does not decode makes the filtered list shorter than its input |
| `Generation.Fitnesses` | main.py:73 | never more scores than stale offspring; when all stale offspring decode, there is one score per stale offspring and the `k`th is the `k`th one's own score |
| `Generation.FitnessesFewer` | main.py:72-73 | one stale offspring that does not decode leaves fewer scores than stale offspring |
| `Generation.FitnessOfLaterStale` | main.py:72-73 | the `k`th score is the score of the decoding stale offspring with exactly `k` decoding stale offspring before it, which stands at place `k` or later |
| `Generation.ScoredUpTo` | main.py:75-76 | after `k` iterations of the write-back loop the encodings are kept, each stale offspring of rank below `k` holds the score of its rank, and every other offspring is unchanged |
| `Generation.ScoredStep` | main.py:75-76 | one iteration of the write-back loop sets the fitness of the next stale offspring and changes nothing else |
| `Generation.ScoredNone` | main.py:75-76 | before the first iteration of the write-back loop the list is unchanged |
| `Generation.AfterReevaluation` | main.py:72-76 | re-evaluation keeps length and encodings and leaves every offspring with a set fitness unchanged |
| `Generation.ReevaluationScoresStale` | main.py:72-76 | when every stale offspring decodes, each receives its own score and no fitness is left unset |
| `Generation.ReevaluationByPlace` | main.py:75-76 | the `k`th stale offspring receives the `k`th score, and stays unset when there are fewer scores |
| `Generation.ReevaluationScoresFromLater` | main.py:72-76 | the `k`th stale offspring stays unset or receives the score of the decoding stale offspring with exactly `k` decoding ones before it: scores move towards the front, in order |
| `Generation.ReevaluationLeavesLastUnset` | main.py:72-76 | when any stale offspring does not decode, the last stale offspring is left with an unset fitness |
| `Generation.ReevaluationUnsetTail` | main.py:72-76 | a stale offspring is left unset exactly when its place among the stale ones is at least the number of stale offspring that decode |
| `Generation.ReevaluationMisaligns` | main.py:73-76 | a worked instance: a non-decoding stale offspring before a decoding one receives the latter's score, and the latter stays unset |
| `Generation.NextGeneration` | main.py:59-78 | one generation leaves the population size unchanged |
| `Generation.DrawRangesNonEmpty` | main.py:21-35 | when every member has two or more characters, then for every selection the lowest value of every random range fits the generation's draws, with every pair crossed and every offspring mutated |
| `Generation.NextGenerationKeepsLength` | main.py:59-78 | a lower bound on the members' lengths survives a generation |
| `Generation.NextGenerationScoresAll` | main.py:59-78 | from members that all decode and whose set fitness values are their own scores, a generation yields members that all decode and all carry their own score |
| `Evolution.SeedsAreLongEnough` | main.py:46-48 | every seed string has at least four characters |
| `Evolution.Evolve` | main.py:58-78 | any number of generations leaves the population size unchanged |
| `Evolution.EvolveKeepsLength` | main.py:58-78 | a lower bound on the members' lengths holds after any number of generations |
| `Evolution.EvolveScoresAll` | main.py:58-78 | from a consistent start, after one or more generations every member decodes and carries its own score |
| `Evolution.MatePairs` | main.py:62-66 | the in-place crossover loop leaves the offspring array equal to `AfterMating` of its old contents |
| `Evolution.MutateEach` | main.py:68-70 | the in-place mutation loop leaves the offspring array equal to `AfterMutation` of its old contents |
| `Evolution.Reevaluate` | main.py:72-76 | the in-place re-evaluation leaves the offspring array equal to `AfterReevaluation` of its old contents |
| `Evolution.Population.constructor` | main.py:49-56 | the initial population holds one individual per drawn seed, none scored, all at least two characters long |
| `Evolution.Population.Step` | main.py:59-78 | one generation replaces the members by `NextGeneration` of the old ones, keeps the size and the length bound, and from a consistent population leaves every member scored with its own score |
| `Evolution.Population.Run` | main.py:58-78 | 100 generations give `Evolve` of the initial members, keep the size, and from a consistent start leave every member scored |

## Left out

- The chemistry back-end (`Chem.MolFromSmiles`, `QED.qed`, `Crippen.MolLogP`, `RDLogger`) is foreign code: it is the parameter `parse`, deterministic per string, and nothing is assumed about which strings decode.
- Floating-point arithmetic: the score is computed over `real`; IEEE rounding is not modelled.
- DEAP: `creator`, `Toolbox`, `tools.initRepeat`, `tools.selTournament` and `toolbox.clone` are library code. Selection is the draw `picks` (one existing member per population slot); cloning is a value copy of encoding and fitness; a fitness is `Option<real>` rather than a weighted 1-tuple.
- `random`: every draw (selection picks, coins, split points, positions, symbols) is a field of `Draws`, with its range as a precondition.
- Drawing the initial population from the seeds and the final report (`selBest`, `print`, main.py:80-82) are setup and I/O; the constructor takes the drawn seed strings.
- Object identity is kept only where it matters: individuals are values in an offspring array, which is faithful because the clones are distinct objects; the spliced or mutated children that the loop discards are represented only by `Returned`.
- `Evolution.Population.Run`: the draws for all 100 generations are given up front with a precondition (`Feasible`) that they fit the population each generation will have; an interleaved random stream is not modelled.
- `Generation.Selected`: weaker than `tools.selTournament(tournsize=3)` — each pick is any member, because the tournament compares fitness tuples inside library code; the model does not state that a pick beats two other drawn members.

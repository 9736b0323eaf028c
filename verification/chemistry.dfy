/**
 * The chemistry back-end as the evolutionary search sees it: a SMILES parser
 * that either rejects a string or yields a molecule with two descriptors, and
 * the fitness ("tabletability") computed from those descriptors.
 */
module Chemistry {
  import opened Wrappers

  /** The two descriptors of a parsed molecule: the QED drug-likeness estimate and the Crippen logP. */
  datatype Mol = Mol(qed: real, logP: real)

  /** `Chem.MolFromSmiles` followed by the descriptor calls: `None` when the string does not decode. */
  type Parser = string -> Option<Mol>

  /** The validity check used everywhere in the search: the string decodes to a molecule. */
  predicate Parses(parse: Parser, s: string)
  {
    parse(s).Some?
  }

  /** The lipophilicity the score rewards most. */
  const TargetLogP: real := 2.5

  /** The score given to a string that does not decode. */
  const Sentinel: real := 0.0

  function Abs(x: real): (r: real)
    ensures 0.0 <= r && (r == x || r == -x)
  {
    if x < 0.0 then -x else x
  }

  /**
   * The fitness of a candidate: the sentinel when it does not decode, and
   * otherwise its QED plus a bonus of 1 that shrinks with the distance of its
   * logP from the target.
   */
  function Tabletability(parse: Parser, s: string): (score: real)
    ensures !Parses(parse, s) ==> score == Sentinel
    ensures Parses(parse, s) ==> score <= parse(s).value.qed + 1.0
    ensures Parses(parse, s) ==> (score == parse(s).value.qed + 1.0 <==> parse(s).value.logP == TargetLogP)
  {
    match parse(s)
    case None => Sentinel
    case Some(m) => m.qed + (1.0 - Abs(m.logP - TargetLogP))
  }

  /** Between two molecules of equal QED, the one whose logP is nearer the target scores at least as high. */
  lemma TabletabilityPrefersTarget(parse: Parser, s: string, t: string)
    requires Parses(parse, s) && Parses(parse, t)
    requires parse(s).value.qed == parse(t).value.qed
    requires Abs(parse(s).value.logP - TargetLogP) <= Abs(parse(t).value.logP - TargetLogP)
    ensures Tabletability(parse, t) <= Tabletability(parse, s)
    ensures Abs(parse(s).value.logP - TargetLogP) < Abs(parse(t).value.logP - TargetLogP)
            ==> Tabletability(parse, t) < Tabletability(parse, s)
  {
  }

  /**
   * The sentinel is not the lowest score: a molecule whose logP lies further
   * from the target than its QED plus one scores below a string that does
   * not decode at all.
   */
  lemma SentinelOutranksFarLogP(parse: Parser, s: string)
    requires Parses(parse, s)
    requires Abs(parse(s).value.logP - TargetLogP) > parse(s).value.qed + 1.0
    ensures Tabletability(parse, s) < Sentinel
  {
  }

  /** Two worked values of the score: QED 0.8 at logP 2.5 gives 1.8, at logP 1.5 gives 0.8. */
  lemma TabletabilityExamples(parse: Parser, s: string, t: string)
    requires parse(s) == Some(Mol(0.8, 2.5)) && parse(t) == Some(Mol(0.8, 1.5))
    ensures Tabletability(parse, s) == 1.8 && Tabletability(parse, t) == 0.8
  {
  }
}

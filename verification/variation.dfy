/**
 * The two variation operators of the search. Both edit a SMILES string and
 * fall back to the argument they were given when the edited string does not
 * decode. Each random draw (split point, position, symbol) is a parameter
 * whose range is a precondition.
 */
module Variation {
  import opened Chemistry

  /** The replacement alphabet of mutation: atoms and bond/branch syntax. `Cl` and `Br` are two characters long. */
  const Symbols: seq<string> := ["C", "N", "O", "Cl", "Br", "F", "(", ")", "="]

  /**
   * What an operator hands back for one argument: the very object it was
   * given (`Original`), or a newly created individual holding `smiles`.
   * The distinction matters to the caller, which clears the fitness of the
   * object it receives.
   */
  datatype Returned = Original | Created(smiles: string)
  {
    /** The encoding of the returned individual, given the encoding of the argument. */
    function Encoding(argument: string): string
    {
      if Original? then argument else smiles
    }
  }

  lemma SymbolLengths(symbol: string)
    requires symbol in Symbols
    ensures 1 <= |symbol| <= 2
  {
  }

  /** The head of `head` up to `point` followed by the tail of `tail` from `point`. */
  function Splice(head: string, tail: string, point: nat): (s: string)
    requires point <= |head| && point <= |tail|
    ensures |s| == |tail|
    ensures s[..point] == head[..point] && s[point..] == tail[point..]
  {
    head[..point] + tail[point..]
  }

  /** Keeps a candidate that decodes; otherwise hands back the argument itself. */
  function Guard(parse: Parser, candidate: string): (r: Returned)
    ensures r.Original? <==> !Parses(parse, candidate)
    ensures r.Created? ==> r.smiles == candidate
  {
    if Parses(parse, candidate) then Created(candidate) else Original
  }

  /**
   * Single-point crossover. Parents of different lengths are returned as
   * they are. Otherwise the suffixes after `point`, drawn from 1 .. len-1,
   * are swapped, and each child that does not decode reverts to its own
   * parent, independently of the other child.
   */
  function Crossover(parse: Parser, a: string, b: string, point: nat): (r: (Returned, Returned))
    requires |a| == |b| ==> 1 <= point <= |a| - 1
    ensures |a| != |b| ==> r == (Original, Original)
    ensures |a| == |b| ==> (r.0.Original? <==> !Parses(parse, Splice(a, b, point)))
    ensures |a| == |b| ==> (r.1.Original? <==> !Parses(parse, Splice(b, a, point)))
    ensures r.0.Created? ==> |a| == |b| && r.0.smiles == Splice(a, b, point)
    ensures r.1.Created? ==> |a| == |b| && r.1.smiles == Splice(b, a, point)
    ensures |r.0.Encoding(a)| == |a| && |r.1.Encoding(b)| == |b|
    ensures r.0.Encoding(a) == a || Parses(parse, r.0.Encoding(a))
    ensures r.1.Encoding(b) == b || Parses(parse, r.1.Encoding(b))
  {
    if |a| != |b| then (Original, Original)
    else (Guard(parse, Splice(a, b, point)), Guard(parse, Splice(b, a, point)))
  }

  /** When both children are created, crossover neither loses nor invents a character: it only redistributes them. */
  lemma CrossoverConservesCharacters(parse: Parser, a: string, b: string, point: nat)
    requires |a| == |b| ==> 1 <= point <= |a| - 1
    requires Crossover(parse, a, b, point).0.Created? && Crossover(parse, a, b, point).1.Created?
    ensures multiset(Crossover(parse, a, b, point).0.smiles) + multiset(Crossover(parse, a, b, point).1.smiles)
            == multiset(a) + multiset(b)
  {
    assert a == a[..point] + a[point..];
    assert b == b[..point] + b[point..];
    calc {
      multiset(Splice(a, b, point)) + multiset(Splice(b, a, point));
      multiset(a[..point]) + multiset(b[point..]) + (multiset(b[..point]) + multiset(a[point..]));
      (multiset(a[..point]) + multiset(a[point..])) + (multiset(b[..point]) + multiset(b[point..]));
      multiset(a) + multiset(b);
    }
  }

  /** The string `s` with the character at `index` replaced by `symbol`. */
  function Substitute(s: string, index: nat, symbol: string): (c: string)
    requires index < |s|
    ensures |c| == |s| - 1 + |symbol|
    ensures c[..index] == s[..index]
    ensures c[index..index + |symbol|] == symbol
    ensures c[index + |symbol|..] == s[index + 1..]
  {
    s[..index] + symbol + s[index + 1..]
  }

  /**
   * Point mutation: one character, at a position drawn from 0 .. len-1, is
   * replaced by a symbol of the alphabet; a mutant that does not decode is
   * discarded and the argument itself is returned.
   */
  function Mutate(parse: Parser, s: string, index: nat, symbol: string): (r: Returned)
    requires index < |s| && symbol in Symbols
    ensures r.Original? <==> !Parses(parse, Substitute(s, index, symbol))
    ensures r.Created? ==> r.smiles == Substitute(s, index, symbol)
    ensures r.Encoding(s) == s || Parses(parse, r.Encoding(s))
    ensures |s| <= |r.Encoding(s)| <= |s| + 1
  {
    SymbolLengths(symbol);
    Guard(parse, Substitute(s, index, symbol))
  }

  /**
   * The mutant differs from the original only at the substituted position:
   * characters before it keep their place, characters after it shift by the
   * symbol's extra length.
   */
  lemma {:induction false} MutantAgreesElsewhere(s: string, index: nat, symbol: string, j: nat)
    requires index < |s| && symbol in Symbols && j < |s| && j != index
    ensures j < index ==> Substitute(s, index, symbol)[j] == s[j]
    ensures index < j ==> Substitute(s, index, symbol)[j + |symbol| - 1] == s[j]
  {
    var c := Substitute(s, index, symbol);
    SymbolLengths(symbol);
    if j < index {
      assert c[..index][j] == s[..index][j];
    } else {
      assert c[index + |symbol|..][j - index - 1] == s[index + 1..][j - index - 1];
    }
  }
}

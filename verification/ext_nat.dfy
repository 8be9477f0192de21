/**
 * Costs of the A* search. The JavaScript node record starts its G and F
 * scores at `Infinity`; every other value they can take is a natural number,
 * so the model uses the naturals extended with one point at infinity.
 */
module ExtNat {

  /** A non-negative cost, or JavaScript's `Infinity`. */
  datatype ENat = Inf | Fin(n: nat)

  /** JavaScript `+` restricted to these values: `Infinity` absorbs everything. */
  function Add(a: ENat, b: ENat): ENat
  {
    if a.Inf? || b.Inf? then Inf else Fin(a.n + b.n)
  }

  /** JavaScript `<` restricted to these values: `Infinity < Infinity` is false. */
  predicate Less(a: ENat, b: ENat)
  {
    match a
    case Inf => false
    case Fin(m) => b.Inf? || m < b.n
  }

  /** `Less` is a strict total order: the minimum scan relies on all four facts. */
  lemma LessIsStrictTotalOrder(a: ENat, b: ENat, c: ENat)
    ensures !Less(a, a)
    ensures Less(a, b) ==> !Less(b, a)
    ensures Less(a, b) && Less(b, c) ==> Less(a, c)
    ensures a == b || Less(a, b) || Less(b, a)
  {
  }

  /**
   * Adding a finite edge cost to `Infinity` gives `Infinity` again, and
   * `Infinity` is never strictly below anything. This is why a search whose
   * start score is left at `Infinity` never improves a score.
   */
  lemma InfinityAbsorbs(b: ENat)
    ensures Add(Inf, b) == Inf
    ensures !Less(Inf, b)
    ensures Add(b, Fin(1)) == Inf <==> b == Inf
  {
  }
}

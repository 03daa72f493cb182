/** Formats, data and the context shared by every operation. */
module Formats {
  import opened Powers

  /** A fixed-size decimal format: precision and adjusted-exponent range. */
  datatype Format = Format(pmax: nat, emin: int, emax: int) {
    predicate Valid() {
      pmax >= 2 && emin <= emax
    }

    /** The least exponent of any datum (DECQTINY). */
    function Qtiny(): int {
      emin - (pmax - 1)
    }

    /** The greatest exponent of any datum. */
    function Qmax(): int {
      emax - (pmax - 1)
    }

    /** The number of distinct exponents, less one. */
    function Top(): nat
      requires Valid()
    {
      Qmax() - Qtiny()
    }

    /** Units needed to hold a coefficient in base one billion (DECPMAX9). */
    function OpLen(): nat {
      (pmax + 8) / 9
    }
  }

  const SINGLE := Format(7, -95, 96)
  const DOUBLE := Format(16, -383, 384)
  const QUAD := Format(34, -6143, 6144)

  /** What a decFloat denotes once its fields are decoded. */
  datatype DecFloat =
    | Finite(neg: bool, coef: nat, exp: int)
    | Infinite(neg: bool)
    | NaN(neg: bool, signaling: bool, payload: nat)
  {
    predicate Fits(f: Format) {
      match this
      case Finite(_, c, e) => c < Pow10(f.pmax) && f.Qtiny() <= e <= f.Qmax()
      case Infinite(_) => true
      case NaN(_, _, p) => f.pmax > 0 && p < Pow10(f.pmax - 1)
    }

    predicate IsZero() {
      Finite? && coef == 0
    }

    predicate Signaling() {
      NaN? && signaling
    }
  }

  /** The eight rounding modes of a context. */
  datatype Mode = Ceiling | Up | HalfUp | HalfEven | HalfDown | Down | Floor | ReRound05

  datatype Flag =
    | Inexact
    | Underflow
    | Overflow
    | InvalidOperation
    | DivisionByZero
    | DivisionUndefined
    | DivisionImpossible
    | ConversionSyntax

  /** The only parts of a decContext these operations read or write. */
  class Context {
    var round: Mode
    var status: set<Flag>

    constructor (round: Mode)
      ensures this.round == round && status == {}
    {
      this.round := round;
      status := {};
    }
  }
}

/** NaN propagation and the results shared by every invalid operation. */
module Specials {
  import opened Formats

  /** A NaN made quiet; its sign and payload survive. */
  function Quieted(x: DecFloat): DecFloat
    requires x.NaN?
  {
    NaN(x.neg, false, x.payload)
  }

  /** Which operand's NaN an operation returns: the first signaling one, else the first NaN. */
  function Propagated(l: DecFloat, r: DecFloat): DecFloat
    requires l.NaN? || r.NaN?
  {
    if l.Signaling() then Quieted(l)
    else if r.Signaling() then Quieted(r)
    else if l.NaN? then Quieted(l)
    else Quieted(r)
  }

  function NaNFlags(l: DecFloat, r: DecFloat): set<Flag> {
    if l.Signaling() || r.Signaling() then {InvalidOperation} else {}
  }

  const DEFAULT_NAN := NaN(false, false, 0)

  /** Which NaN comes out and what it raises (IEEE 754, section 6.2): a signaling operand, the left one first, comes
      out quiet with its sign and payload and raises Invalid operation; without one the left NaN, else the right one,
      comes out as it is. */
  lemma NaNsPropagate(l: DecFloat, r: DecFloat)
    requires l.NaN? || r.NaN?
    ensures l.NaN? && l.signaling ==> Propagated(l, r) == NaN(l.neg, false, l.payload)
    ensures r.NaN? && r.signaling && !(l.NaN? && l.signaling) ==> Propagated(l, r) == NaN(r.neg, false, r.payload)
    ensures l.NaN? && !l.signaling && !(r.NaN? && r.signaling) ==> Propagated(l, r) == l
    ensures r.NaN? && !r.signaling && !l.NaN? ==> Propagated(l, r) == r
    ensures NaNFlags(l, r) == if (l.NaN? && l.signaling) || (r.NaN? && r.signaling) then {InvalidOperation} else {}
    ensures DEFAULT_NAN == NaN(false, false, 0)
  {
  }

  /** Handles one or two NaN operands (decNaNs); a sole operand is passed twice. */
  method DecNaNs(dfl: DecFloat, dfr: DecFloat, set_: Context) returns (r: DecFloat)
    requires dfl.NaN? || dfr.NaN?
    modifies set_`status
    ensures r == Propagated(dfl, dfr) && set_.status == old(set_.status) + NaNFlags(dfl, dfr)
  {
    var df := dfl;
    if dfr.Signaling() && !dfl.Signaling() {
      df := dfr;
    }
    if df.Signaling() {
      set_.status := set_.status + {InvalidOperation};
      return Quieted(df);
    }
    if !df.NaN? {
      df := dfr;
    }
    r := df;
  }

  /** The result of an invalid operation (decInvalid). */
  method DecInvalid(set_: Context) returns (r: DecFloat)
    modifies set_`status
    ensures r == DEFAULT_NAN && set_.status == old(set_.status) + {InvalidOperation}
  {
    set_.status := set_.status + {InvalidOperation};
    r := DEFAULT_NAN;
  }
}

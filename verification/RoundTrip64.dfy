/** The parser undoes the printer, bit for bit: any 64-bit pattern printed and read back is its canonical form. */
module RoundTrip64 {
  import opened Formats
  import opened Interchange64
  import opened FromString
  import opened ToString
  import opened RoundTrip
  import opened Text64
  import opened Bcd64
  import opened Canonical

  /** Prints two words with decimal64ToString, reads the text with decFloatFromString and stores the datum: the words
      are the canonical ones of the same datum, no flag is raised, and canonical words come back as they were. */
  method PrintAndParse64(lo: nat, hi: nat, set_: Context) returns (lo': nat, hi': nat)
    requires lo < 0x1_0000_0000 && hi < 0x1_0000_0000
    modifies set_`status
    ensures lo' < 0x1_0000_0000 && hi' < 0x1_0000_0000 && Canonical64(lo', hi') && Denoted(lo', hi') == Denoted(lo, hi)
    ensures Canonical64(lo, hi) ==> lo' == lo && hi' == hi
    ensures set_.status == old(set_.status)
  {
    hide *;
    PrintableFormats();
    DoubleReads();
    DocumentedLength(lo, hi);
    DenotedFits(lo, hi);
    ghost var x, m, s0 := Denoted(lo, hi), set_.round, set_.status;
    PrintedIsWhole(DOUBLE, x);
    var str := new char[25];
    var len := Decimal64ToString(lo, hi, str);
    var r := DecFloatFromString(DOUBLE, str[..len], set_);
    ParserUndoesPrinter(DOUBLE, m, x, r, s0, set_.status);
    lo', hi' := EncodeDouble(r);
    if Canonical64(lo, hi) {
      WordsDetermined(lo, hi, lo', hi');
    }
  }

  /** That is what decCanonical makes of them. */
  method PrintedIsCanonical(lo: nat, hi: nat, set_: Context) returns (lo': nat, hi': nat, lo2: nat, hi2: nat)
    requires lo < 0x1_0000_0000 && hi < 0x1_0000_0000
    modifies set_`status
    ensures lo' == lo2 && hi' == hi2 && Canonical64(lo', hi') && Denoted(lo', hi') == Denoted(lo, hi)
    ensures set_.status == old(set_.status)
  {
    hide *;
    lo', hi' := PrintAndParse64(lo, hi, set_);
    lo2, hi2 := DecCanonical(lo, hi);
    WordsDetermined(lo', hi', lo2, hi2);
  }

  lemma DoubleReads()
    ensures Textual(DOUBLE)
  {
  }
}

/**
 * The three-digit dex label of a row (docs/js/ui/sections.js:128): the row
 * stores it in `data-dex`, and the collapse handler reads it back with `Number`.
 */
module Dex {
  import opened Wrappers
  import opened Text

  /** `String(dex).padStart(3, '0')`. */
  function PadDex(dex: nat): (r: string)
    ensures |r| >= 3 && AllDigits(r)
  {
    PadStart(DecimalString(dex), 3, '0')
  }

  /** `Number` of the padded label gives the dex number back. */
  lemma PadDexRoundTrip(dex: nat)
    ensures ParseNumber(PadDex(dex)) == Some(dex)
  {
    var s := DecimalString(dex);
    DecimalStringRoundTrip(dex);
    if |s| < 3 {
      LeadingZerosValue(3 - |s|, s);
    }
  }

  /** Distinct dex numbers get distinct labels. */
  lemma PadDexInjective(d1: nat, d2: nat)
    requires PadDex(d1) == PadDex(d2)
    ensures d1 == d2
  {
    PadDexRoundTrip(d1);
    PadDexRoundTrip(d2);
  }
}

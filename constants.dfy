/** Sequence-number spaces of the transport: 24-bit PSNs and 16-bit MSNs,
    each with an outstanding window of half its space. */
module Constants {
  import opened MachineInt

  /** Maximum number of bits used to represent a PSN. */
  const MAX_PSN_SIZE_BITS: nat := 24
  /** Maximum number of outstanding PSNs: `1 << (MAX_PSN_SIZE_BITS - 1)`. */
  const MAX_PSN_WINDOW: nat := Pow2(MAX_PSN_SIZE_BITS - 1)
  /** Extracts the PSN from a 32-bit number: `(1 << MAX_PSN_SIZE_BITS) - 1`. */
  const PSN_MASK: u32 := (Pow2Values(); Pow2(MAX_PSN_SIZE_BITS) - 1)

  /** Maximum number of bits used to represent an MSN. */
  const MAX_MSN_SIZE_BITS: nat := 16
  /** Maximum number of outstanding MSNs: `1 << (MAX_MSN_SIZE_BITS - 1)`. */
  const MAX_MSN_WINDOW: nat := Pow2(MAX_MSN_SIZE_BITS - 1)

  lemma PsnConstants()
    ensures PSN_MASK == 0xFF_FFFF
    ensures MAX_PSN_WINDOW == 0x80_0000
    ensures 2 * MAX_PSN_WINDOW == PSN_MASK + 1
  {
    Pow2Values();
  }

  lemma MsnConstants()
    ensures MAX_MSN_WINDOW == 0x8000
    ensures 2 * MAX_MSN_WINDOW == Pow2(MAX_MSN_SIZE_BITS)
  {
    Pow2Values();
  }

  /** Masking a 32-bit value with PSN_MASK is reduction modulo 2^24. */
  lemma PsnMaskIsMod(v: u32)
    ensures And(v, PSN_MASK) == v % Pow2(MAX_PSN_SIZE_BITS)
  {
    AndLowMask(v, MAX_PSN_SIZE_BITS);
  }

  /** Wrapping a PSN sum in 32 bits and then masking it to 24 bits
      agrees with wrapping the sum in the 24-bit PSN space. */
  lemma WrappingAddThenMask(a: u32, b: u32, w: u32)
    requires w == (a + b) % 0x1_0000_0000
    ensures And(w, PSN_MASK) == (a + b) % 0x100_0000
  {
    var x := a + b;
    PsnMaskIsMod(w);
    Pow2Values();
    var q, t := x / 0x1_0000_0000, w / 0x100_0000;
    var m := w % 0x100_0000;
    assert w == t * 0x100_0000 + m;
    assert x == (q * 0x100 + t) * 0x100_0000 + m;
    DivModUnique(x, 0x100_0000, q * 0x100 + t, m);
  }
}

/** Single bits of a byte, by arithmetic, with the proof that this is what the machine's masks do. */
module Bits {

  function Pow2(k: nat): (p: nat)
    ensures p > 0
  {
    if k == 0 then 1 else 2 * Pow2(k - 1)
  }

  lemma Pow2Eight()
    ensures Pow2(8) == 256
  {
    assert Pow2(4) == 16;
  }

  /** Go's `b & (1 << k) != 0`. */
  predicate Bit(b: nat, k: nat) {
    if k == 0 then b % 2 == 1 else Bit(b / 2, k - 1)
  }

  /** Go's `b | (1 << k)`. */
  function OrBit(b: nat, k: nat): nat {
    if k == 0 then (if b % 2 == 1 then b else b + 1) else 2 * OrBit(b / 2, k - 1) + b % 2
  }

  lemma {:induction false} OrBitRange(b: nat, k: nat, n: nat)
    requires k < n && b < Pow2(n)
    ensures OrBit(b, k) < Pow2(n)
  {
    var half := Pow2(n - 1);
    if k == 0 {
      assert b != 2 * half - 1 || b % 2 == 1;
    } else {
      OrBitRange(b / 2, k - 1, n - 1);
      assert OrBit(b / 2, k - 1) <= half - 1;
    }
  }

  /** The byte `1 << k`. */
  function Mask(k: nat): bv8
    requires k < 8
  {
    if k == 0 then 1 else Mask(k - 1) << 1
  }

  lemma FirstMask()
    ensures Mask(0) == 1
  {
  }

  lemma NextMask(k: nat)
    requires 0 < k < 8
    ensures Mask(k) == Mask(k - 1) << 1
  {
  }

  lemma MaskRange(k: nat)
    requires k < 7
    ensures Mask(k) < 128
  {
    assert Mask(0) == 1;
    if k >= 1 { assert Mask(1) == 2; }
    if k >= 2 { assert Mask(2) == 4; }
    if k >= 3 { assert Mask(3) == 8; }
    if k >= 4 { assert Mask(4) == 16; }
    if k >= 5 { assert Mask(5) == 32; }
    if k >= 6 { assert Mask(6) == 64; }
  }

  lemma Halves(b: bv8)
    ensures b as nat / 2 == (b >> 1) as nat
    ensures b as nat % 2 == (b & 1) as nat
  {
  }

  lemma AndShifted(b: bv8, m: bv8)
    requires m < 128
    ensures b & (m << 1) == 0 <==> (b >> 1) & m == 0
  {
  }

  lemma OrOne(b: bv8)
    ensures (b | 1) as nat == if b as nat % 2 == 1 then b as nat else b as nat + 1
  {
  }

  lemma OrShifted(b: bv8, m: bv8)
    requires m < 128
    ensures (b | (m << 1)) as nat == 2 * ((b >> 1) | m) as nat + b as nat % 2
  {
    var r := b | (m << 1);
    Halves(r);
    Halves(b);
    assert r >> 1 == (b >> 1) | m;
    assert r & 1 == b & 1;
  }

  /** On a byte, `Bit` is the mask test. */
  lemma {:induction false} BitIsMaskTest(b: bv8, k: nat)
    requires k < 8
    ensures Bit(b as nat, k) <==> b & Mask(k) != 0
  {
    Halves(b);
    if k > 0 {
      MaskRange(k - 1);
      BitIsMaskTest(b >> 1, k - 1);
      AndShifted(b, Mask(k - 1));
    }
  }

  /** On a byte, `OrBit` is the bitwise or with the mask. */
  lemma {:induction false} OrBitIsMaskOr(b: bv8, k: nat)
    requires k < 8
    ensures OrBit(b as nat, k) == (b | Mask(k)) as nat
  {
    hide Mask;
    Halves(b);
    if k == 0 {
      FirstMask();
      OrOne(b);
    } else {
      MaskRange(k - 1);
      NextMask(k);
      OrBitIsMaskOr(b >> 1, k - 1);
      OrShifted(b, Mask(k - 1));
    }
  }
}

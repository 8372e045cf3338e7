/**
 * Connection masks: a cell's links are the bits 1 (+x), 2 (+y), 4 (-y) and
 * 8 (-x) of an integer in 0..15.
 */
module ConnectionMask {
  import opened Torus

  /**
   * Bit d of a mask in 0..15 is set: the masks listed for d are those whose
   * binary form has d's bit (BitIsDivision relates this to arithmetic).
   */
  predicate HasBit(mask: int, d: Dir)
  {
    if d == 1 then mask in {1, 3, 5, 7, 9, 11, 13, 15}
    else if d == 2 then mask in {2, 3, 6, 7, 10, 11, 14, 15}
    else if d == 4 then mask in {4, 5, 6, 7, 12, 13, 14, 15}
    else mask in {8, 9, 10, 11, 12, 13, 14, 15}
  }

  predicate IsMask(mask: int)
  {
    0 <= mask < 16
  }

  /** On masks in 0..15 the table agrees with the arithmetic reading of bit d: (mask / d) % 2 == 1. */
  lemma BitIsDivision(mask: int, d: Dir)
    requires IsMask(mask)
    ensures HasBit(mask, d) <==> (mask / d) % 2 == 1
  {
    if d == 1 {
      assert HasBit(mask, d) <==> mask % 2 == 1;
    } else if d == 2 {
      assert HasBit(mask, d) <==> (mask / 2) % 2 == 1;
    } else if d == 4 {
      assert HasBit(mask, d) <==> (mask / 4) % 2 == 1;
    } else {
      assert HasBit(mask, d) <==> (mask / 8) % 2 == 1;
    }
  }

  /** A lone direction bit, read as a mask, has exactly that bit set. */
  lemma SingleBit(d: Dir, e: Dir)
    ensures IsMask(d) && (HasBit(d, e) <==> d == e)
  {
  }

  /**
   * Adding a bit that is not yet set is a bitwise or: the mask stays in
   * 0..15, gains bit d and keeps every other bit.
   */
  lemma AddBit(mask: int, d: Dir)
    requires IsMask(mask) && !HasBit(mask, d)
    ensures IsMask(mask + d)
    ensures forall e: Dir :: HasBit(mask + d, e) <==> (e == d || HasBit(mask, e))
  {
  }

  /** A mask in 0..15 is zero exactly when it has no bit set. */
  lemma ZeroMask(mask: int)
    requires IsMask(mask)
    ensures mask == 0 <==> forall d: Dir :: !HasBit(mask, d)
  {
    if mask != 0 {
      assert HasBit(mask, 1) || HasBit(mask, 2) || HasBit(mask, 4) || HasBit(mask, 8);
    }
  }

  /** A mask in 0..15 is determined by its four bits. */
  lemma MaskFromBits(m: int, n: int)
    requires IsMask(m) && IsMask(n)
    requires forall d: Dir :: HasBit(m, d) == HasBit(n, d)
    ensures m == n
  {
    assert HasBit(m, 1) == HasBit(n, 1);
    assert HasBit(m, 2) == HasBit(n, 2);
    assert HasBit(m, 4) == HasBit(n, 4);
    assert HasBit(m, 8) == HasBit(n, 8);
  }
}

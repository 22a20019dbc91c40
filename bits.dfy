/**
  Single-bit facts about 64-bit occupancy masks.

  A mask has one bit per board cell; cell `k` is bit `k`, the bit of the
  single-cell mask `CellBit(k)` (the source's `UINT64_C(1) << k`).  That
  mask is built by doubling, so the facts below need only shifts by the
  constant 1 and stay cheap for the solver; every other bit fact in the
  model is derived from them.
*/
module Bits {

  /** Two to the power `k`. */
  function Pow2(k: nat): (p: nat)
    ensures p >= 1
  {
    if k == 0 then 1 else 2 * Pow2(k - 1)
  }

  /** `Pow2` is strictly increasing. */
  lemma {:induction false} Pow2Less(a: nat, b: nat)
    ensures a < b ==> Pow2(a) < Pow2(b)
  {
    if a < b - 1 {
      Pow2Less(a, b - 1);
    }
  }

  /** Powers of two multiply by adding exponents. */
  lemma {:induction false} Pow2Add(a: nat, b: nat)
    ensures Pow2(a + b) == Pow2(a) * Pow2(b)
  {
    if b > 0 {
      Pow2Add(a, b - 1);
    }
  }

  lemma Pow2At16()
    ensures Pow2(16) == 0x1_0000
  {
    assert Pow2(8) == 0x100;
    Pow2Add(8, 8);
  }

  /** The power of two of bit 42, the first bit past the board. */
  lemma Pow2At42()
    ensures Pow2(42) == 0x400_0000_0000
  {
    Pow2At16();
    Pow2Add(16, 16);
    Pow2Add(32, 10);
    assert Pow2(10) == 0x400;
  }

  /** The power of two of bit 63, the top bit of a word. */
  lemma Pow2At63()
    ensures Pow2(63) == 0x8000_0000_0000_0000
  {
    Pow2At16();
    Pow2Add(16, 16);
    Pow2Add(32, 31);
    Pow2Add(16, 15);
    assert Pow2(15) == 0x8000;
  }

  /**
    A shift by one place.  Shift amounts and masks are named constants
    throughout the model: the solver reasons about a named amount far more
    cheaply than about a literal one.
  */
  const UP: bv7 := 1

  /** `1 << k` computed by doubling, with every bit shifted out past 63. */
  function Doubling(k: nat): bv64
  {
    if k == 0 then 1 else Doubling(k - 1) << UP
  }

  /**
    The mask holding cell `k` alone (the source's `UINT64_C(1) << k`).  It
    wraps `Doubling` so that proofs mentioning a cell's mask are not
    tempted to unfold the recursion; `CellBitStep` unfolds it on demand.
  */
  function CellBit(k: nat): bv64
  {
    Doubling(k)
  }

  /** One doubling step. */
  lemma CellBitStep(k: nat)
    ensures k > 0 ==> CellBit(k) == CellBit(k - 1) << UP
  {
  }

  /** A mask with exactly one bit set. */
  predicate SingleBit(c: bv64)
  {
    c != 0 && c & (c - 1) == 0
  }

  /** Cell `k` is taken in mask `x`. */
  predicate Bit(x: bv64, k: nat)
  {
    CellBit(k) & x != 0
  }

  /** The set of cells a mask holds. */
  function Cells(x: bv64): set<nat>
  {
    set k: nat | k < 64 && Bit(x, k)
  }

  // Pure facts about 64-bit words, used by the lemmas after them.

  lemma ShlValue(x: bv64, p: int)
    ensures x as int == p && p < 0x8000_0000_0000_0000 ==> (x << 1) as int == 2 * p
  {
  }

  lemma ShlUp(x: bv64)
    ensures x << UP == x << 1
  {
  }

  lemma SingleShl(x: bv64)
    ensures SingleBit(x) && x as int < 0x8000_0000_0000_0000 ==> SingleBit(x << UP)
  {
  }

  lemma SinglePair(c: bv64, d: bv64)
    ensures SingleBit(c) && SingleBit(d) ==> (c & d != 0 <==> c == d)
  {
  }

  lemma SingleCovered(c: bv64, w: bv64)
    ensures SingleBit(c) ==> (c & w == c <==> c & w != 0)
    ensures SingleBit(c) ==> (c & !w == 0 <==> c & w != 0)
  {
  }

  lemma OrMask(x: bv64, y: bv64, m: bv64)
    ensures m & (x | y) != 0 <==> m & x != 0 || m & y != 0
  {
  }

  /** Below bit 64 the single-cell mask of `k` is the power of two `2^k`. */
  lemma {:induction false} CellBitValue(k: nat)
    ensures k < 64 ==> CellBit(k) as int == Pow2(k)
  {
    if 0 < k < 64 {
      CellBitStep(k);
      ShlUp(CellBit(k - 1));
      CellBitValue(k - 1);
      Pow2Less(k - 1, 63);
      Pow2At63();
      ShlValue(CellBit(k - 1), Pow2(k - 1));
    }
  }

  /** Below bit 64 the single-cell mask of `k` has exactly one bit set. */
  lemma {:induction false} CellBitSingle(k: nat)
    ensures k < 64 ==> SingleBit(CellBit(k))
  {
    if 0 < k < 64 {
      CellBitStep(k);
      CellBitSingle(k - 1);
      CellBitValue(k - 1);
      Pow2Less(k - 1, 63);
      Pow2At63();
      SingleShl(CellBit(k - 1));
    }
  }

  /** Distinct cells have distinct masks. */
  lemma CellBitInjective(a: nat, b: nat)
    requires a < 64 && b < 64
    ensures CellBit(a) == CellBit(b) <==> a == b
  {
    CellBitValue(a);
    CellBitValue(b);
    if a < b {
      Pow2Less(a, b);
    } else if b < a {
      Pow2Less(b, a);
    }
  }

  /** Cell `k` is set in the single-cell mask of `a` exactly when `k == a`. */
  lemma BitOfCellBit(a: nat, k: nat)
    requires a < 64 && k < 64
    ensures Bit(CellBit(a), k) <==> a == k
  {
    CellBitSingle(a);
    CellBitSingle(k);
    SinglePair(CellBit(a), CellBit(k));
    CellBitInjective(a, k);
  }

  lemma CellBitOr(x: bv64, y: bv64, k: nat)
    ensures CellBit(k) & (x | y) != 0 <==> CellBit(k) & x != 0 || CellBit(k) & y != 0
  {
    OrMask(x, y, CellBit(k));
  }

  /** A union of masks holds a cell when either operand does. */
  lemma BitOfOr(x: bv64, y: bv64, k: nat)
    ensures Bit(x | y, k) <==> Bit(x, k) || Bit(y, k)
  {
    CellBitOr(x, y, k);
  }

  /** A mask covers the single-cell mask of `k` exactly when it holds cell `k`. */
  lemma CoversCell(w: bv64, k: nat)
    requires k < 64
    ensures CellBit(k) & w == CellBit(k) <==> Bit(w, k)
  {
    CellBitSingle(k);
    SingleCovered(CellBit(k), w);
  }

  /** Cell `k` lies outside the complement of `w` exactly when `w` holds it. */
  lemma CellNotOutside(w: bv64, k: nat)
    requires k < 64
    ensures CellBit(k) & !w == 0 <==> Bit(w, k)
  {
    CellBitSingle(k);
    SingleCovered(CellBit(k), w);
  }

  lemma CellsOfOr(x: bv64, y: bv64)
    ensures Cells(x | y) == Cells(x) + Cells(y)
  {
    forall k: nat | k < 64
      ensures Bit(x | y, k) <==> Bit(x, k) || Bit(y, k)
    {
      BitOfOr(x, y, k);
    }
  }

  lemma CellsOfCellBit(a: nat)
    requires a < 64
    ensures Cells(CellBit(a)) == {a}
  {
    forall k: nat | k < 64
      ensures Bit(CellBit(a), k) <==> a == k
    {
      BitOfCellBit(a, k);
    }
  }

  lemma CellsOfZero()
    ensures Cells(0) == {}
  {
  }
}

/**
  The two pseudo-random generators of the engine.

  `xoroshiro128plus` is the only generator consulted during search; it
  keeps a two-word state in a caller-owned array and updates it in place.
  `splitmix64` only derives the two state words from a seed.  Everything
  here is exact 64-bit arithmetic: `bv64` addition, multiplication and
  shifts wrap exactly as the source's `uint64_t` does.
*/
module Prng {

  /** Rotate left by `k` (the source's `rotl`), for `0 < k < 64`. */
  function Rotl(x: bv64, k: bv7): bv64
    requires 0 < k < 64
  {
    (x << k) | (x >> (64 - k))
  }

  /**
    Both rotation amounts the generator uses are true rotations, so the
    step below may use the bit-vector rotation in place of `Rotl`.
  */
  lemma RotlIsRotation(x: bv64)
    ensures Rotl(x, 55) == x.RotateLeft(55)
    ensures Rotl(x, 36) == x.RotateLeft(36)
  {
  }

  /** The generator's two state words. */
  datatype State = State(s0: bv64, s1: bv64)

  /** The first word after one step, from the two words before it. */
  function NextS0(s0: bv64, s1: bv64): bv64
  {
    var t := s1 ^ s0;
    s0.RotateLeft(55) ^ t ^ (t << 14)
  }

  /** The second word after one step, from the two words before it. */
  function NextS1(s0: bv64, s1: bv64): bv64
  {
    (s1 ^ s0).RotateLeft(36)
  }

  /** The first word one step earlier, from the two words after the step. */
  function PrevS0(a: bv64, b: bv64): bv64
  {
    var t := b.RotateLeft(28);
    (a ^ t ^ (t << 14)).RotateLeft(9)
  }

  /** The second word one step earlier, from the two words after the step. */
  function PrevS1(a: bv64, b: bv64): bv64
  {
    var t := b.RotateLeft(28);
    t ^ (a ^ t ^ (t << 14)).RotateLeft(9)
  }

  /** The state after one step of xoroshiro128+. */
  function Step(s: State): State
  {
    State(NextS0(s.s0, s.s1), NextS1(s.s0, s.s1))
  }

  /** The state one step earlier. */
  function Unstep(s: State): State
  {
    State(PrevS0(s.s0, s.s1), PrevS1(s.s0, s.s1))
  }

  /** The value a draw returns: the wrapping sum of the two words. */
  function Output(s0: bv64, s1: bv64): bv64
  {
    s0 + s1
  }

  /**
    One draw of xoroshiro128+: returns the sum of the two state words taken
    before the update, and advances the state in place.
  */
  method Xoroshiro128Plus(s: array<bv64>) returns (result: bv64)
    requires s.Length == 2
    modifies s
    ensures result == Output(old(s[0]), old(s[1]))
    ensures s[0] == NextS0(old(s[0]), old(s[1]))
    ensures s[1] == NextS1(old(s[0]), old(s[1]))
  {
    var s0 := s[0];
    var s1 := s[1];
    result := Output(s0, s1);
    s[0] := NextS0(s0, s1);
    s[1] := NextS1(s0, s1);
  }

  /** The update loses nothing: `Unstep` recovers the state before a step. */
  lemma StepInvertible(s0: bv64, s1: bv64)
    ensures PrevS0(NextS0(s0, s1), NextS1(s0, s1)) == s0
    ensures PrevS1(NextS0(s0, s1), NextS1(s0, s1)) == s1
  {
  }

  /** ... and every state has a predecessor: `Step` undoes `Unstep`. */
  lemma UnstepInvertible(a: bv64, b: bv64)
    ensures NextS0(PrevS0(a, b), PrevS1(a, b)) == a
    ensures NextS1(PrevS0(a, b), PrevS1(a, b)) == b
  {
  }

  /** `Step` is a bijection on states. */
  lemma StepBijective(s: State, u: State)
    ensures Unstep(Step(s)) == s
    ensures Step(Unstep(u)) == u
    ensures Step(s) == Step(u) ==> s == u
  {
    StepInvertible(s.s0, s.s1);
    StepInvertible(u.s0, u.s1);
    UnstepInvertible(u.s0, u.s1);
  }

  /** The all-zero state is the only state that steps to the all-zero state. */
  lemma StepZero(s: State)
    ensures Step(s) == State(0, 0) <==> s == State(0, 0)
  {
    StepBijective(s, State(0, 0));
  }

  /** The state after `k` steps. */
  function Iterate(s: State, k: nat): State
  {
    if k == 0 then s else Step(Iterate(s, k - 1))
  }

  /** A generator seeded with a nonzero state never reaches the all-zero state. */
  lemma {:induction false} NonZeroForever(s: State, k: nat)
    requires s != State(0, 0)
    ensures Iterate(s, k) != State(0, 0)
  {
    if k > 0 {
      NonZeroForever(s, k - 1);
      StepZero(Iterate(s, k - 1));
    }
  }

  const Golden: bv64 := 0x9E37_79B9_7F4A_7C15

  // The stages of splitmix64's output mixing, each with its inverse.

  function XorShr30(z: bv64): bv64 { z ^ (z >> 30) }
  function XorShr27(z: bv64): bv64 { z ^ (z >> 27) }
  function XorShr31(z: bv64): bv64 { z ^ (z >> 31) }
  function MulFirst(z: bv64): bv64 { z * 0xBF58_476D_1CE4_E5B9 }
  function MulSecond(z: bv64): bv64 { z * 0x94D0_49BB_1331_11EB }

  function UnXorShr30(z: bv64): bv64 { z ^ (z >> 30) ^ (z >> 60) }
  function UnXorShr27(z: bv64): bv64 { z ^ (z >> 27) ^ (z >> 54) }
  function UnXorShr31(z: bv64): bv64 { z ^ (z >> 31) ^ (z >> 62) }
  /** Multiplication by the inverse of the first constant modulo 2^64. */
  function UnMulFirst(z: bv64): bv64 { z * 0x96DE_1B17_3F11_9089 }
  /** Multiplication by the inverse of the second constant modulo 2^64. */
  function UnMulSecond(z: bv64): bv64 { z * 0x3196_42B2_D24D_8EC3 }

  /** The output mixing of splitmix64, applied to the already advanced seed. */
  function Mix64(z: bv64): bv64
  {
    XorShr31(MulSecond(XorShr27(MulFirst(XorShr30(z)))))
  }

  /** The inverse of `Mix64`, stage by stage in reverse order. */
  function Unmix64(z: bv64): bv64
  {
    UnXorShr30(UnMulFirst(UnXorShr27(UnMulSecond(UnXorShr31(z)))))
  }

  // Each stage is undone by its inverse.  The solver handles these best
  // with the inner stage written out, so each comes in two steps.

  lemma UndoXorShr30(z: bv64)
    ensures UnXorShr30(z ^ (z >> 30)) == z
  {
  }

  lemma UndoXorShr27(z: bv64)
    ensures UnXorShr27(z ^ (z >> 27)) == z
  {
  }

  lemma UndoXorShr31(z: bv64)
    ensures UnXorShr31(z ^ (z >> 31)) == z
  {
  }

  lemma UndoMulFirst(z: bv64)
    ensures UnMulFirst(z * 0xBF58_476D_1CE4_E5B9) == z
  {
  }

  lemma UndoMulSecond(z: bv64)
    ensures UnMulSecond(z * 0x94D0_49BB_1331_11EB) == z
  {
  }

  /** Every stage of the mixing is undone by its inverse. */
  lemma StagesInvertible(z: bv64)
    ensures UnXorShr30(XorShr30(z)) == z
    ensures UnXorShr27(XorShr27(z)) == z
    ensures UnXorShr31(XorShr31(z)) == z
    ensures UnMulFirst(MulFirst(z)) == z
    ensures UnMulSecond(MulSecond(z)) == z
  {
    UndoXorShr30(z);
    UndoXorShr27(z);
    UndoXorShr31(z);
    UndoMulFirst(z);
    UndoMulSecond(z);
  }

  /** The mixing is a bijection: `Unmix64` recovers its input. */
  lemma MixInvertible(z: bv64)
    ensures Unmix64(Mix64(z)) == z
  {
    var a := XorShr30(z);
    var b := MulFirst(a);
    var c := XorShr27(b);
    var d := MulSecond(c);
    StagesInvertible(d);
    StagesInvertible(c);
    StagesInvertible(b);
    StagesInvertible(a);
    StagesInvertible(z);
  }

  /**
    splitmix64 on the seed variable: the new seed (the old one advanced by
    the golden-ratio increment) and the value returned.
  */
  function SplitMix64(x: bv64): (bv64, bv64)
  {
    var z := x + Golden;
    (z, Mix64(z))
  }

  /** The generator state drawn from one seed by two splitmix64 calls. */
  function SeedState(seed: bv64): State
  {
    var (x1, w0) := SplitMix64(seed);
    var (_, w1) := SplitMix64(x1);
    State(w0, w1)
  }

  /** The two splitmix64 draws of `connect4_init` written into the generator state. */
  method Seed(s: array<bv64>, seed: bv64)
    requires s.Length == 2
    modifies s
    ensures State(s[0], s[1]) == SeedState(seed)
  {
    var (x1, w0) := SplitMix64(seed);
    var (_, w1) := SplitMix64(x1);
    s[0] := w0;
    s[1] := w1;
  }

  /**
    Whatever the seed, the two words drawn from it differ, so the generator
    never starts from (and, by `NonZeroForever`, never reaches) the
    all-zero state, whose outputs would all be zero.
  */
  lemma SeedStateNonZero(seed: bv64)
    ensures SeedState(seed).s0 != SeedState(seed).s1
    ensures SeedState(seed) != State(0, 0)
  {
    var z0 := seed + Golden;
    var z1 := z0 + Golden;
    MixInvertible(z0);
    MixInvertible(z1);
    assert z0 != z1;
  }
}

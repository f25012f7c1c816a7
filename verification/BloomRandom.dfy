/**
 The private random generator of the Bloom index (contrib/bloom/blutils.c).
 Its output is stored on disk, so it must be a pure function of the seed.
 */
module BloomRandom {
  import opened CInt

  const LEHMER: int := 16807
  const MERSENNE: int := 0x7fff_ffff

  /** The state `mySrand` leaves behind. */
  function SeedState(seed: uint32): (s: int32)
    ensures -0x7fff_fffc <= s <= 0x7fff_fffe
  {
    (CMod(ToSigned(seed) as int, 0x7fff_fffe) + 1) as int32
  }

  /** Park and Miller's minimal standard generator, stated over the integers. */
  function LehmerStep(s: int): (r: int)
    ensures 0 <= r < MERSENNE
  {
    (LEHMER * s) % MERSENNE
  }

  /** The state after `n` draws. */
  function Orbit(s: int, n: nat): (r: int)
    ensures n > 0 ==> 0 <= r < MERSENNE
  {
    if n == 0 then s else LehmerStep(Orbit(s, n - 1))
  }

  /** The two seeds that `mySrand` maps to the fixed point 0. */
  predicate PoisonedSeed(seed: uint32) {
    seed == 0xFFFF_FFFF || seed == 0x8000_0001
  }

  /** The generator: one static 32-bit word. */
  class Generator {
    var next: int32

    constructor ()
      ensures next == 0
    {
      next := 0;
    }

    method Srand(seed: uint32)
      modifies this
      ensures next == SeedState(seed)
    {
      next := ToSigned(seed);
      next := CMod(next as int, 0x7fff_fffe) as int32 + 1;
    }

    /**
     Schrage's method.  Every product, difference and sum below is an `int32`
     operation, so verifying the body shows that none of them overflows,
     whatever the state.
     */
    method Rand() returns (r: int32)
      modifies this
      ensures next as int == LehmerStep(old(next) as int)
      ensures r == next - 1
    {
      CDivMod(next as int, 127773);
      var hi := CDiv(next as int, 127773) as int32;
      var lo := CMod(next as int, 127773) as int32;
      var x := 16807 * lo - 2836 * hi;
      assert LEHMER * next as int == MERSENNE * hi as int + x as int;
      if x < 0 {
        x := x + 0x7fff_ffff;
        ModUnique(LEHMER * next as int, hi as int - 1, x as int);
      } else {
        ModUnique(LEHMER * next as int, hi as int, x as int);
      }
      next := x;
      r := x - 1;
    }
  }

  lemma ModUnique(a: int, k: int, r: int)
    requires a == MERSENNE * k + r && 0 <= r < MERSENNE
    ensures a % MERSENNE == r
  {
  }

  /** The seed is mapped to the dead state exactly for the two poisoned seeds. */
  lemma SeedStateZero(seed: uint32)
    ensures SeedState(seed) == 0 <==> PoisonedSeed(seed)
  {
    CDivMod(ToSigned(seed) as int, 0x7fff_fffe);
  }

  /** 16807 is invertible modulo 2^31 - 1, so the generator only reaches 0 from 0. */
  lemma LehmerNonZero(s: int)
    ensures LehmerStep(s) == 0 <==> s % MERSENNE == 0
  {
    var inverse, k := 1407677000, 11017;
    assert LEHMER * inverse == MERSENNE * k + 1;
    if LehmerStep(s) == 0 {
      var j := (LEHMER * s) / MERSENNE;
      assert s == MERSENNE * (inverse * j - k * s);
      ModUnique(s, inverse * j - k * s, 0);
    } else if s % MERSENNE == 0 {
      ModUnique(LEHMER * s, LEHMER * (s / MERSENNE), 0);
    }
  }

  /** From a state that is not a multiple of 2^31 - 1 no draw ever reaches 0, and conversely. */
  lemma {:induction false} OrbitNonZero(s: int, n: nat)
    ensures Orbit(s, n + 1) == 0 <==> s % MERSENNE == 0
  {
    LehmerNonZero(Orbit(s, n));
    if n == 0 {
      assert Orbit(s, 0) == s;
    } else {
      OrbitNonZero(s, n - 1);
    }
  }

  /**
   Every draw after seeding is in the documented range exactly when the seed is
   not poisoned; a poisoned seed makes every draw return -1.
   */
  lemma OrbitRange(seed: uint32, n: nat)
    ensures !PoisonedSeed(seed) ==> 1 <= Orbit(SeedState(seed) as int, n + 1) <= MERSENNE - 1
    ensures PoisonedSeed(seed) ==> Orbit(SeedState(seed) as int, n + 1) == 0
  {
    SeedStateZero(seed);
    OrbitNonZero(SeedState(seed) as int, n);
  }
}

/** limits.h. */
module Limits {

  const INT_MAX: int := 0x7fff_ffff
  const INT_MIN: int := -0x8000_0000
  const LLONG_MAX: int := 0x7fff_ffff_ffff_ffff
  const LLONG_MIN: int := -0x8000_0000_0000_0000
  const ULLONG_MAX: int := 0xffff_ffff_ffff_ffff

  predicate IsInt(x: int) {
    INT_MIN <= x <= INT_MAX
  }

  predicate IsLongLong(x: int) {
    LLONG_MIN <= x <= LLONG_MAX
  }

  function PowerOfTwo(n: nat): nat {
    if n == 0 then 1 else 2 * PowerOfTwo(n - 1)
  }

  lemma {:induction false} PowersMultiply(m: nat, n: nat)
    ensures PowerOfTwo(m + n) == PowerOfTwo(m) * PowerOfTwo(n)
  {
    if n == 0 {
    } else {
      PowersMultiply(m, n - 1);
      assert PowerOfTwo(m) * (2 * PowerOfTwo(n - 1)) == 2 * (PowerOfTwo(m) * PowerOfTwo(n - 1));
    }
  }

  lemma SmallPowers()
    ensures PowerOfTwo(8) == 256 && PowerOfTwo(15) == 0x8000
  {
    assert PowerOfTwo(4) == 16;
    PowersMultiply(4, 4);
    PowersMultiply(8, 7);
    assert PowerOfTwo(7) * 2 == PowerOfTwo(8);
  }

  /** int has 32 bits, long long 64. */
  lemma Widths()
    ensures INT_MAX == PowerOfTwo(31) - 1 && INT_MIN == -(PowerOfTwo(31) as int)
    ensures LLONG_MAX == PowerOfTwo(63) - 1 && LLONG_MIN == -(PowerOfTwo(63) as int)
    ensures ULLONG_MAX == PowerOfTwo(64) - 1
  {
    hide PowerOfTwo;
    SmallPowers();
    PowersMultiply(8, 8);
    PowersMultiply(16, 15);
    PowersMultiply(16, 16);
    PowersMultiply(31, 32);
    PowersMultiply(32, 32);
  }
}

/** The fixed-width `modexp` of Lab_Test_MNS2025006/server/myProg.c: `int`
    arguments, a `long long` accumulator and base, C's truncating `%`. The
    newtypes make every intermediate value carry its C range, so verifying the
    method shows that no product overflows `long long` and that the final
    `(int)` cast loses nothing. */
module NativeModExp {
  import opened ModArith

  newtype int32 = x: int | -0x8000_0000 <= x < 0x8000_0000
  newtype int64 = x: int | -0x8000_0000_0000_0000 <= x < 0x8000_0000_0000_0000

  lemma MulMonotone(a: nat, b: nat, c: nat)
    requires a <= b
    ensures a * c <= b * c
  {
    var d: nat := b - a;
    assert b * c == a * c + d * c;
  }

  /** Two factors of magnitude at most `2^31` have a product that fits in a
      `long long`. */
  lemma ProductFits(x: int, y: int)
    requires Abs(x) <= 0x8000_0000 && Abs(y) <= 0x8000_0000
    ensures -0x8000_0000_0000_0000 <= x * y < 0x8000_0000_0000_0000
  {
    var ax, ay := Abs(x), Abs(y);
    MulMonotone(ax, 0x8000_0000, ay);
    MulMonotone(ay, 0x8000_0000, 0x8000_0000);
    var pr: int := ax * ay;
    assert pr <= 0x4000_0000_0000_0000;
    assert x * y == pr || x * y == -pr;
  }

  /** `int modexp(int base, int exp, int mod)`. C leaves `%` by zero and
      `INT_MIN % -1` undefined, so those are excluded; every other argument
      triple is modelled, negative ones included. */
  method ModExp(base: int32, exp: int32, mod: int32) returns (r: int32)
    requires mod != 0
    requires !(base == -0x8000_0000 && mod == -1)
    ensures r as int == ModPowSpec(base as int, exp as int, mod as int)
    ensures exp <= 0 ==> r == 1
    ensures exp > 0 ==> Abs(r as int) < Abs(mod as int)
  {
    var result: int64 := 1;
    var b: int64 := TruncRem(base as int, mod as int) as int64;
    var e := exp;
    var m := mod as int;
    ghost var target := ModPowSpec(base as int, exp as int, m);
    if exp > 0 {
      PowCongruent(base as int, exp as int, m);
    }
    while e > 0
      invariant exp <= 0 ==> e == exp && result == 1
      invariant exp > 0 ==> 0 <= e && TruncRem(result as int * Pow(b as int, e as int), m) == target
      invariant exp > 0 ==> e > 0 || TruncRem(result as int, m) == result as int
      invariant Abs(b as int) < Abs(m) && Abs(result as int) <= Abs(m)
    {
      ModPowStep(result as int, b as int, e as int, m);
      ProductFits(result as int, b as int);
      ProductFits(b as int, b as int);
      if e % 2 == 1 {
        result := TruncRem((result * b) as int, m) as int64;
        TruncRemIdempotent(result as int, m);
      }
      b := TruncRem((b * b) as int, m) as int64;
      e := e / 2;
    }
    return result as int32;
  }
}

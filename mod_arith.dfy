/** Integer arithmetic shared by the three modular-exponentiation routines:
    powers, the truncating remainder of C and of JavaScript BigInt, and the
    mathematical value every square-and-multiply loop must compute. */
module ModArith {

  function Pow(b: int, e: nat): int
    decreases e
  {
    if e == 0 then 1 else b * Pow(b, e - 1)
  }

  function Abs(x: int): nat
  {
    if x < 0 then -x else x
  }

  function Sign(x: int): int
  {
    if x < 0 then -1 else if x == 0 then 0 else 1
  }

  /** `a % m` as C and JavaScript BigInt compute it: the quotient is truncated
      toward zero, so a non-zero remainder has the sign of the dividend. */
  function TruncRem(a: int, m: int): (r: int)
    requires m != 0
    ensures Abs(r) < Abs(m)
    ensures r == 0 || Sign(r) == Sign(a)
    ensures (a - r) % Abs(m) == 0
  {
    TruncRemFacts(a, m);
    if a >= 0 then a % Abs(m) else -((-a) % Abs(m))
  }

  lemma TruncRemFacts(a: int, m: int)
    requires m != 0
    ensures var r := if a >= 0 then a % Abs(m) else -((-a) % Abs(m));
            Abs(r) < Abs(m) && (r == 0 || Sign(r) == Sign(a)) && (a - r) % Abs(m) == 0
  {
    var M := Abs(m);
    var q := Abs(a) / M;
    assert Abs(a) - Abs(a) % M == M * q;
    if a >= 0 {
      MulDivisible(q, M);
    } else {
      assert a - -((-a) % M) == M * -q;
      MulDivisible(-q, M);
    }
  }

  /** What a square-and-multiply loop that starts from `result = 1` and reduces
      with a truncating `%` returns: 1, unreduced, when the loop does not run;
      otherwise the truncating remainder of the power. */
  function ModPowSpec(base: int, exp: int, mod: int): int
    requires mod != 0
  {
    if exp <= 0 then 1 else TruncRem(Pow(base, exp), mod)
  }

  // ---------------------------------------------------------------------------
  // Euclidean remainders of multiples

  lemma ModUnique(x: int, m: int, q: int, r: int)
    requires m > 0 && 0 <= r < m && x == m * q + r
    ensures x % m == r && x / m == q
  {
    var q', r' := x / m, x % m;
    assert m * (q - q') == r' - r;
    BoundedMultipleIsZero(m, q - q');
  }

  lemma {:induction false} MulAtLeast(m: int, d: int)
    requires m > 0 && d >= 1
    ensures m * d >= m
    decreases d
  {
    if d > 1 {
      MulAtLeast(m, d - 1);
      assert m * d == m * (d - 1) + m;
    }
  }

  lemma BoundedMultipleIsZero(m: int, d: int)
    requires m > 0 && -m < m * d < m
    ensures d == 0
  {
    if d >= 1 {
      MulAtLeast(m, d);
    } else if d <= -1 {
      MulAtLeast(m, -d);
    }
  }

  lemma SmallMultipleIsZero(d: int, m: int)
    requires m > 0 && -m < d < m && d % m == 0
    ensures d == 0
  {
    if d > 0 {
      ModUnique(d, m, 0, d);
    } else if d < 0 {
      ModUnique(d, m, -1, d + m);
    }
  }

  lemma MulDivisible(k: int, m: int)
    requires m > 0
    ensures (m * k) % m == 0
  {
    ModUnique(m * k, m, k, 0);
  }

  lemma SumDivisible(x: int, y: int, m: int)
    requires m > 0 && x % m == 0 && y % m == 0
    ensures (x + y) % m == 0 && (x - y) % m == 0
  {
    var qx, qy := x / m, y / m;
    assert x + y == m * (qx + qy);
    assert x - y == m * (qx - qy);
    MulDivisible(qx + qy, m);
    MulDivisible(qx - qy, m);
  }

  lemma ProductDivisible(x: int, c: int, m: int)
    requires m > 0 && x % m == 0
    ensures (x * c) % m == 0
  {
    var q := x / m;
    assert x * c == m * (q * c);
    MulDivisible(q * c, m);
  }

  // ---------------------------------------------------------------------------
  // The truncating remainder

  /** The three facts in TruncRem's contract pin the remainder down. */
  lemma TruncRemUnique(a: int, m: int, r: int)
    requires m != 0
    requires Abs(r) < Abs(m) && (r == 0 || Sign(r) == Sign(a)) && (a - r) % Abs(m) == 0
    ensures TruncRem(a, m) == r
  {
    var t := TruncRem(a, m);
    var d := t - r;
    SumDivisible(a - r, a - t, Abs(m));
    assert (a - r) - (a - t) == d;
    SmallMultipleIsZero(d, Abs(m));
  }

  lemma SignMul(x: int, y: int)
    ensures Sign(x * y) == Sign(x) * Sign(y)
  {
    if x > 0 && y > 0 {
      assert x * y > 0;
    } else if x < 0 && y < 0 {
      assert x * y == (-x) * (-y);
    } else if x > 0 && y < 0 {
      assert x * y == -(x * (-y));
    } else if x < 0 && y > 0 {
      assert x * y == -((-x) * y);
    }
  }

  /** Reducing a factor first does not change the truncating remainder of a
      product. */
  lemma MulSubDistributes(x: int, y: int, c: int)
    ensures (x - y) * c == x * c - y * c
  {
  }

  lemma {:induction false} TruncRemMulLeft(a: int, c: int, m: int)
    requires m != 0
    ensures TruncRem(TruncRem(a, m) * c, m) == TruncRem(a * c, m)
  {
    var ra := TruncRem(a, m);
    var t := TruncRem(ra * c, m);
    ProductDivisible(a - ra, c, Abs(m));
    MulSubDistributes(a, ra, c);
    SumDivisible(a * c - ra * c, ra * c - t, Abs(m));
    assert (a * c - ra * c) + (ra * c - t) == a * c - t;
    if t != 0 {
      assert ra != 0 && Sign(t) == Sign(ra * c);
      SignMul(ra, c);
      SignMul(a, c);
      assert Sign(t) == Sign(a * c);
    }
    TruncRemUnique(a * c, m, t);
  }

  lemma TruncRemIdempotent(a: int, m: int)
    requires m != 0
    ensures TruncRem(TruncRem(a, m), m) == TruncRem(a, m)
  {
    TruncRemMulLeft(a, 1, m);
  }

  /** Products respect the relation "same truncating remainder". */
  lemma TruncRemMulCongruent(x: int, y: int, x': int, y': int, m: int)
    requires m != 0
    requires TruncRem(x, m) == TruncRem(x', m) && TruncRem(y, m) == TruncRem(y', m)
    ensures TruncRem(x * y, m) == TruncRem(x' * y', m)
  {
    TruncRemMulLeft(x, y, m);
    TruncRemMulLeft(x', y, m);
    TruncRemMulLeft(y, x', m);
    TruncRemMulLeft(y', x', m);
  }

  // ---------------------------------------------------------------------------
  // Powers

  lemma {:induction false} PowAdd(b: int, e1: nat, e2: nat)
    ensures Pow(b, e1 + e2) == Pow(b, e1) * Pow(b, e2)
    decreases e1
  {
    if e1 > 0 {
      PowAdd(b, e1 - 1, e2);
    }
  }

  lemma {:induction false} PowMul(b: int, e1: nat, e2: nat)
    ensures Pow(Pow(b, e1), e2) == Pow(b, e1 * e2)
    decreases e2
  {
    if e2 > 0 {
      PowMul(b, e1, e2 - 1);
      PowAdd(b, e1, e1 * (e2 - 1));
      assert e1 + e1 * (e2 - 1) == e1 * e2;
    }
  }

  /** An odd exponent peels one factor off and squares the base; an even one
      only squares the base. */
  lemma PowSquare(b: int, e: nat)
    ensures Pow(b, e) == (if e % 2 == 1 then b else 1) * Pow(b * b, e / 2)
  {
    PowMul(b, 2, e / 2);
    assert Pow(b, 2) == b * b;
    if e % 2 == 1 {
      PowAdd(b, 1, 2 * (e / 2));
    }
  }

  /** Reducing the base first does not change the truncating remainder of a
      power. */
  lemma {:induction false} PowCongruent(b: int, e: nat, m: int)
    requires m != 0
    ensures TruncRem(Pow(TruncRem(b, m), e), m) == TruncRem(Pow(b, e), m)
    decreases e
  {
    if e > 0 {
      PowCongruent(b, e - 1, m);
      TruncRemIdempotent(b, m);
      TruncRemMulCongruent(TruncRem(b, m), Pow(TruncRem(b, m), e - 1), b, Pow(b, e - 1), m);
    }
  }

  /** One pass of a square-and-multiply loop keeps `result * base^exp` in the
      same truncating-remainder class: this is the loop invariant of every
      modular-exponentiation routine of the model. */
  lemma ModPowStep(result: int, base: int, exp: nat, m: int)
    requires m != 0 && exp > 0
    ensures var result' := if exp % 2 == 1 then TruncRem(result * base, m) else result;
            TruncRem(result' * Pow(TruncRem(base * base, m), exp / 2), m)
            == TruncRem(result * Pow(base, exp), m)
  {
    var h := exp / 2;
    var sq := TruncRem(base * base, m);
    PowSquare(base, exp);
    PowCongruent(base * base, h, m);
    TruncRemIdempotent(Pow(base * base, h), m);
    if exp % 2 == 1 {
      OddStep(result, base, Pow(sq, h), Pow(base * base, h), m);
      assert Pow(base, exp) == base * Pow(base * base, h);
    } else {
      TruncRemMulCongruent(result, Pow(sq, h), result, Pow(base * base, h), m);
      assert Pow(base, exp) == Pow(base * base, h);
    }
  }

  lemma OddStep(result: int, base: int, w: int, w': int, m: int)
    requires m != 0 && TruncRem(w, m) == TruncRem(w', m)
    ensures TruncRem(TruncRem(result * base, m) * w, m) == TruncRem(result * (base * w'), m)
  {
    TruncRemIdempotent(result * base, m);
    TruncRemMulCongruent(TruncRem(result * base, m), w, result * base, w', m);
    assert result * base * w' == result * (base * w');
  }

  // ---------------------------------------------------------------------------
  // Properties of the specification

  /** For a non-negative base, a positive modulus and a positive exponent the
      specification is the ordinary residue `base^exp mod mod`. */
  lemma {:induction false} ModPowSpecNonNegative(base: int, exp: int, mod: int)
    requires base >= 0 && mod >= 1 && exp >= 1
    ensures ModPowSpec(base, exp, mod) == Pow(base, exp) % mod
    ensures 0 <= ModPowSpec(base, exp, mod) < mod
  {
    PowNonNegative(base, exp);
  }

  lemma {:induction false} PowNonNegative(b: int, e: nat)
    requires b >= 0
    ensures Pow(b, e) >= 0
    decreases e
  {
    if e > 0 {
      PowNonNegative(b, e - 1);
    }
  }

  /** Diffie-Hellman agreement (section 2.1.1 of RFC 2631): raising one party's
      public value to the other party's secret gives the same number on both
      sides, `(g^a)^b == (g^b)^a == g^(ab)` in the residue class. */
  lemma {:induction false} Agreement(g: int, a: int, b: int, p: int)
    requires p != 0 && a >= 1 && b >= 1
    ensures ModPowSpec(ModPowSpec(g, a, p), b, p) == ModPowSpec(ModPowSpec(g, b, p), a, p)
    ensures ModPowSpec(ModPowSpec(g, a, p), b, p) == TruncRem(Pow(g, a * b), p)
  {
    PowCongruent(Pow(g, a), b, p);
    PowMul(g, a, b);
    PowCongruent(Pow(g, b), a, p);
    PowMul(g, b, a);
    assert a * b == b * a;
  }

  /** A small exchange: with `p = 23` and `g = 5`, secrets 6 and 15 give the
      public values 8 and 19 and the shared key 2 on both sides. */
  lemma WorkedExample()
    ensures ModPowSpec(5, 6, 23) == 8 && ModPowSpec(5, 15, 23) == 19
    ensures ModPowSpec(19, 6, 23) == 2 && ModPowSpec(8, 15, 23) == 2
  {
    assert Pow(19, 6) == 47045881;
    assert Pow(8, 15) == 35184372088832;
  }

  /** The agreement needs both exponents positive: with a zero exponent and a
      modulus of 1 the two sides are 0 and the unreduced 1. */
  lemma ZeroExponentBreaksAgreement(g: int, b: int)
    requires b >= 1
    ensures ModPowSpec(ModPowSpec(g, 0, 1), b, 1) == 0
    ensures ModPowSpec(ModPowSpec(g, b, 1), 0, 1) == 1
  {
  }
}

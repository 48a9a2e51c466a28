/**
 * The scalar field `Fr` of the pairing engine: integers modulo the prime order
 * of BLS12-381's groups. Inversion follows the field library's contract: it
 * yields a value exactly when one exists, and never for zero.
 */
module Field {
  import opened Results

  /** The order of the scalar field of BLS12-381. */
  const P: nat := 0x73eda753299d7d483339d80809a1d80553bda402fffe5bfeffffffff00000001

  /** A canonical field element. */
  type Fr = x: int | 0 <= x < P

  function Add(a: Fr, b: Fr): (c: Fr) { (a + b) % P }

  function Sub(a: Fr, b: Fr): (c: Fr) { (a - b) % P }

  function Mul(a: Fr, b: Fr): (c: Fr) { (a * b) % P }

  /** `a` raised to `n`, the field's `pow`. */
  function Pow(a: Fr, n: nat): (p: Fr)
  {
    if n == 0 then 1 else Mul(Pow(a, n - 1), a)
  }

  // ---------------------------------------------------------------------------
  // Reduction modulo P commutes with the ring operations on integers.

  lemma ModAddMultiple(x: int, k: int)
    ensures (x + P * k) % P == x % P
  {
  }

  lemma ModAdd(a: int, b: int)
    ensures (a % P + b % P) % P == (a + b) % P
  {
    ModAddMultiple(a % P + b % P, a / P + b / P);
  }

  lemma ModSub(a: int, b: int)
    ensures (a % P - b % P) % P == (a - b) % P
  {
    ModAddMultiple(a % P - b % P, a / P - b / P);
  }

  lemma ModMul(a: int, b: int)
    ensures ((a % P) * (b % P)) % P == (a * b) % P
  {
    var qa, ra := a / P, a % P;
    var qb, rb := b / P, b % P;
    calc {
      a * b;
      (P * qa + ra) * (P * qb + rb);
      { assert (P * qa + ra) * (P * qb + rb) == P * qa * (P * qb + rb) + ra * (P * qb) + ra * rb; }
      ra * rb + P * (qa * (P * qb + rb) + ra * qb);
    }
    ModAddMultiple(ra * rb, qa * (P * qb + rb) + ra * qb);
  }

  lemma MulAssoc(a: Fr, b: Fr, c: Fr)
    ensures Mul(Mul(a, b), c) == Mul(a, Mul(b, c))
  {
    var ab, bc := a * b, b * c;
    assert c % P == c && a % P == a;
    ModMul(ab, c);
    ModMul(a, bc);
    assert ab * c == a * bc;
  }

  lemma MulComm(a: Fr, b: Fr)
    ensures Mul(a, b) == Mul(b, a)
  {
  }

  /** Field addition subtracts the modulus at most once. */
  lemma AddReduces(a: Fr, b: Fr)
    ensures Add(a, b) == if a + b < P then a + b else a + b - P
  {
    if a + b >= P {
      ModAddMultiple(a + b - P, 1);
    }
  }

  lemma AddAssoc(a: Fr, b: Fr, c: Fr)
    ensures Add(Add(a, b), c) == Add(a, Add(b, c))
  {
    AddReduces(a, b);
    AddReduces(b, c);
    AddReduces(Add(a, b), c);
    AddReduces(a, Add(b, c));
  }

  lemma MulOne(a: Fr)
    ensures Mul(a, 1) == a && Mul(1, a) == a
  {
  }

  lemma MulAddDistrib(a: Fr, b: Fr, c: Fr)
    ensures Mul(Add(a, b), c) == Add(Mul(a, c), Mul(b, c))
  {
    var ac, bc := a * c, b * c;
    assert c % P == c;
    ModMul(a + b, c);
    ModAdd(ac, bc);
    assert (a + b) * c == ac + bc;
  }

  lemma MulSubDistrib(a: Fr, b: Fr, c: Fr)
    ensures Mul(a, Sub(b, c)) == Sub(Mul(a, b), Mul(a, c))
  {
    var ab, ac := a * b, a * c;
    assert a % P == a;
    ModMul(a, b - c);
    ModSub(ab, ac);
    assert a * (b - c) == ab - ac;
  }

  /** `(x - 1) + (y - x) == y - 1`. */
  lemma SubTelescope(x: Fr, y: Fr)
    ensures Add(Sub(x, 1), Sub(y, x)) == Sub(y, 1)
  {
    ModAdd(x - 1, y - x);
  }

  // ---------------------------------------------------------------------------
  // Inversion by the extended Euclidean algorithm.

  /** `d * k`, named so that divisibility has a term to trigger on. */
  function Times(d: int, k: int): (m: int) { d * k }

  ghost predicate Divides(d: int, n: int)
  {
    exists k :: Times(d, k) == n
  }

  ghost predicate IsPrime(p: nat)
  {
    p > 1 && forall d :: 1 < d < p ==> !Divides(d, p)
  }

  /** `(g, s, t)` with `g` the greatest common divisor of `a` and `b` and `s * a + t * b == g`. */
  function ExtGcd(a: nat, b: nat): (e: (nat, int, int))
    decreases b
  {
    if b == 0 then (a, 1, 0)
    else
      var (g, s, t) := ExtGcd(b, a % b);
      (g, t, s - (a / b) * t)
  }

  /** The integer identity behind one step of the extended Euclidean algorithm. */
  lemma BezoutStep(a: int, b: int, q: int, r: int, s: int, t: int, g: int)
    requires a == q * b + r
    requires s * b + t * r == g
    ensures t * a + (s - q * t) * b == g
  {
    calc {
      t * a + (s - q * t) * b;
      t * (q * b + r) + (s - q * t) * b;
      { assert t * (q * b + r) == t * q * b + t * r;
        assert (s - q * t) * b == s * b - q * t * b; }
      s * b + t * r;
    }
  }

  /** If `g` divides `b` and `r`, it divides `q * b + r`. */
  lemma DividesStep(g: int, kb: int, kr: int, q: int)
    ensures Times(g, q * kb + kr) == q * Times(g, kb) + Times(g, kr)
  {
    calc {
      g * (q * kb + kr);
      g * (q * kb) + g * kr;
      { assert g * (q * kb) == q * (g * kb); }
      q * (g * kb) + g * kr;
    }
  }

  lemma {:induction false} ExtGcdBezout(a: nat, b: nat)
    ensures ExtGcd(a, b).1 * a + ExtGcd(a, b).2 * b == ExtGcd(a, b).0
    decreases b
  {
    if b != 0 {
      ExtGcdBezout(b, a % b);
      var (g, s, t) := ExtGcd(b, a % b);
      BezoutStep(a, b, a / b, a % b, s, t, g);
    }
  }

  lemma {:induction false} ExtGcdDivides(a: nat, b: nat)
    ensures Divides(ExtGcd(a, b).0, a) && Divides(ExtGcd(a, b).0, b)
    ensures a > 0 || b > 0 ==> ExtGcd(a, b).0 > 0
    decreases b
  {
    if b == 0 {
      assert Times(a, 1) == a && Times(a, 0) == 0;
    } else {
      var q, r := a / b, a % b;
      ExtGcdDivides(b, r);
      var g := ExtGcd(b, r).0;
      assert ExtGcd(a, b).0 == g;
      var kb :| Times(g, kb) == b;
      var kr :| Times(g, kr) == r;
      DividesStep(g, kb, kr, q);
      assert Times(g, q * kb + kr) == a;
    }
  }

  /** The field's `inverse()`: `Some(y)` with `x * y == 1`, or `None` when `x` has no inverse. */
  function Inverse(x: Fr): (r: Option<Fr>)
    ensures r.Some? ==> Mul(x, r.value) == 1
    ensures x == 0 ==> r == None
  {
    ExtGcdBezout(x, P);
    var (g, s, t) := ExtGcd(x, P);
    if g == 1 then
      ModMul(x, s);
      ModAddMultiple(1, -t);
      assert x * s == 1 + P * -t;
      Some(s % P)
    else
      None
  }

  /** Over a prime modulus every non-zero element has an inverse. */
  lemma InverseExists(x: Fr)
    requires IsPrime(P)
    requires x != 0
    ensures Inverse(x).Some?
  {
    ExtGcdDivides(x, P);
    var g := ExtGcd(x, P).0;
    var k :| Times(g, k) == x;
    FactorBound(g, k);
    assert !Divides(g, P) || g == 1;
  }

  lemma FactorBound(g: int, k: int)
    requires g > 0 && g * k > 0
    ensures g <= g * k
  {
  }
}

/** Arithmetic modulo a prime: congruence of integers and the inverse used by the share reconstruction. */
module PrimeField {

  predicate Divides(d: int, n: int)
    requires d != 0
  {
    n % d == 0
  }

  ghost predicate IsPrime(p: int) {
    2 <= p && forall d :: 2 <= d < p ==> !Divides(d, p)
  }

  /** a is k times p above b. */
  predicate Above(p: int, a: int, b: int, k: int) {
    a == b + k * p
  }

  ghost predicate Cong(p: int, a: int, b: int) {
    exists k :: Above(p, a, b, k)
  }

  lemma MultipleBound(p: int, k: int)
    requires p > 0
    ensures k >= 1 ==> k * p >= p
    ensures k <= -1 ==> k * p <= -p
  {
  }

  lemma CongIntro(p: int, a: int, b: int, k: int)
    requires a == b + k * p
    ensures Cong(p, a, b)
  {
    assert Above(p, a, b, k);
  }

  lemma CongElim(p: int, a: int, b: int) returns (k: int)
    requires Cong(p, a, b)
    ensures a == b + k * p
  {
    k :| Above(p, a, b, k);
  }

  /** Congruence to 0 is divisibility. */
  lemma CongZero(p: int, a: int, b: int)
    requires p > 0
    ensures Cong(p, a, b) <==> (a - b) % p == 0
  {
    if (a - b) % p == 0 {
      CongIntro(p, a, b, (a - b) / p);
    }
    if Cong(p, a, b) {
      var k := CongElim(p, a, b);
      var q, r := (a - b) / p, (a - b) % p;
      assert (k - q) * p == r;
      MultipleBound(p, k - q);
    }
  }

  /** A congruence may be scaled, and two of them added: every algebraic step below is one use of this. */
  lemma CongLinear(p: int, s: int, a: int, b: int, t: int, c: int, d: int)
    requires Cong(p, a, b) && Cong(p, c, d)
    ensures Cong(p, s * a + t * c, s * b + t * d)
  {
    var k := CongElim(p, a, b);
    var l := CongElim(p, c, d);
    assert s * a == s * b + s * k * p by { assert s * a == s * (b + k * p); }
    assert t * c == t * d + t * l * p by { assert t * c == t * (d + l * p); }
    assert s * a + t * c == s * b + t * d + (s * k + t * l) * p;
    CongIntro(p, s * a + t * c, s * b + t * d, s * k + t * l);
  }

  lemma CongScale(p: int, s: int, a: int, b: int)
    requires Cong(p, a, b)
    ensures Cong(p, s * a, s * b)
  {
    var k := CongElim(p, a, b);
    assert s * (b + k * p) == s * b + s * k * p;
    CongIntro(p, s * a, s * b, s * k);
  }

  lemma CongTrans(p: int, a: int, b: int, c: int)
    requires Cong(p, a, b) && Cong(p, b, c)
    ensures Cong(p, a, c)
  {
    var k := CongElim(p, a, b);
    var l := CongElim(p, b, c);
    assert (k + l) * p == k * p + l * p;
    CongIntro(p, a, c, k + l);
  }

  lemma CongSym(p: int, a: int, b: int)
    requires Cong(p, a, b)
    ensures Cong(p, b, a)
  {
    var k := CongElim(p, a, b);
    CongIntro(p, b, a, -k);
  }

  lemma CongRefl(p: int, a: int)
    ensures Cong(p, a, a)
  {
    CongIntro(p, a, a, 0);
  }

  lemma CongResidue(p: int, a: int)
    requires p > 0
    ensures Cong(p, a % p, a) && Cong(p, a, a % p)
  {
    assert a == a % p + (a / p) * p;
    CongIntro(p, a, a % p, a / p);
    CongSym(p, a, a % p);
  }

  lemma CongSameResidue(p: int, a: int, b: int)
    requires p > 0 && Cong(p, a, b)
    ensures a % p == b % p
  {
    CongResidue(p, a);
    CongResidue(p, b);
    CongTrans(p, a % p, a, b);
    CongTrans(p, a % p, b, b % p);
    var k := CongElim(p, a % p, b % p);
    MultipleBound(p, k);
  }

  /** The inverse of a unit, by the recursion a * -(p / a) == p % a (mod p). */
  function UnitInverse(p: int, a: int): (r: int)
    requires IsPrime(p) && 0 < a < p
    ensures 0 <= r < p && Cong(p, a * r, 1)
    decreases a
  {
    if a == 1 then CongRefl(p, 1); 1
    else
      assert !Divides(a, p);
      var s := UnitInverse(p, p % a);
      UnitInverseStep(p, a, s);
      (-(p / a) * s) % p
  }

  lemma UnitInverseStep(p: int, a: int, s: int)
    requires 1 < a < p && Cong(p, (p % a) * s, 1)
    ensures Cong(p, a * ((-(p / a) * s) % p), 1)
  {
    hide Cong;
    var q, r := p / a, p % a;
    var v := (-q * s) % p;
    CongResidue(p, -q * s);
    CongScale(p, a, v, -q * s);
    QuotientStep(p, a, q, r, s);
    CongTrans(p, a * v, a * (-q * s), r * s);
    CongTrans(p, a * v, r * s, 1);
  }

  lemma QuotientStep(p: int, a: int, q: int, r: int, s: int)
    requires p == a * q + r
    ensures Cong(p, a * (-q * s), r * s)
  {
    assert p * s == a * q * s + r * s;
    CongIntro(p, a * (-q * s), r * s, -s);
  }

  /** prime_field_inv of py_ecc: the inverse modulo p, extended by 0 at 0. */
  function PrimeFieldInv(a: int, p: int): (r: int)
    requires IsPrime(p)
    ensures 0 <= r < p
    ensures a % p != 0 ==> Cong(p, a * r, 1)
    ensures a % p == 0 ==> r == 0
  {
    if a % p == 0 then 0
    else
      var r := UnitInverse(p, a % p);
      assert Cong(p, a * r, 1) by {
        CongResidue(p, a);
        CongScale(p, r, a, a % p);
        CongTrans(p, a * r, (a % p) * r, 1);
      }
      r
  }

  /** A factor that p does not divide may be cancelled. */
  lemma CongCancel(p: int, c: int, a: int, b: int)
    requires IsPrime(p) && c % p != 0 && Cong(p, a * c, b * c)
    ensures Cong(p, a, b)
  {
    CancelInverse(p, c, PrimeFieldInv(c, p), a, b);
  }

  lemma CancelInverse(p: int, c: int, v: int, a: int, b: int)
    requires Cong(p, c * v, 1) && Cong(p, a * c, b * c)
    ensures Cong(p, a, b)
  {
    hide Cong;
    CongScale(p, v, a * c, b * c);
    CongScale(p, a, c * v, 1);
    CongScale(p, b, c * v, 1);
    CongSym(p, a * (c * v), a * 1);
    assert a * (c * v) == v * (a * c) && b * (c * v) == v * (b * c);
    CongTrans(p, a, a * (c * v), b * (c * v));
    CongTrans(p, a, b * (c * v), b);
  }
}

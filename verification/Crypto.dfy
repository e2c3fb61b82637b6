/** Reconstruction of a threshold BLS signature from its shares (src/exits/crypto.py). */
module Crypto {
  import opened Wrappers
  import opened Dicts
  import opened PrimeField
  import opened Lagrange

  /** The group the signatures live in, with the operations the reconstruction uses. */
  datatype Curve<!G, !S> = Curve(
    zero: G,
    add: (G, G) -> G,
    multiply: (G, nat) -> G,
    toPoint: S -> Option<G>,
    toSignature: G -> S)

  /** The laws of a group of prime order p with a signature encoding that can be read back, at one instance. */
  ghost predicate LawsAt<G, S>(c: Curve<G, S>, p: int, x: G, a: nat, b: nat)
    requires p > 0
  {
    && c.add(c.zero, x) == x
    && c.multiply(x, 0) == c.zero
    && c.multiply(x, 1) == x
    && c.multiply(x, p) == c.zero
    && c.add(c.multiply(x, a), c.multiply(x, b)) == c.multiply(x, a + b)
    && c.multiply(c.multiply(x, a), b) == c.multiply(x, a * b)
    && c.toPoint(c.toSignature(x)) == Some(x)
  }

  ghost predicate Lawful<G(!new), S(!new)>(c: Curve<G, S>, p: int)
    requires p > 0
  {
    forall x, a: nat, b: nat :: LawsAt(c, p, x, a, b)
  }

  /** The accumulator of the outer loop after the first n shares; None when a share is not a valid point. */
  function Accumulate<G, S>(c: Curve<G, S>, p: int, signatures: Dict<int, S>, n: nat): Option<G>
    requires IsPrime(p) && signatures.Valid() && n <= |signatures.order|
  {
    if n == 0 then Some(c.zero)
    else
      var i := signatures.order[n - 1];
      match (Accumulate(c, p, signatures, n - 1), c.toPoint(signatures.at[i]))
      case (Some(r), Some(point)) => Some(c.add(r, c.multiply(point, Coef(p, i, signatures.order))))
      case _ => None
  }

  function Reconstruct<G, S>(c: Curve<G, S>, p: int, signatures: Dict<int, S>): Option<S>
    requires IsPrime(p) && signatures.Valid()
  {
    match Accumulate(c, p, signatures, |signatures.order|)
    case Some(r) => Some(c.toSignature(r))
    case None => None
  }

  lemma {:induction false} NoneStays<G, S>(c: Curve<G, S>, p: int, signatures: Dict<int, S>, n: nat, m: nat)
    requires IsPrime(p) && signatures.Valid() && n <= m <= |signatures.order|
    requires Accumulate(c, p, signatures, n) == None
    ensures Accumulate(c, p, signatures, m) == None
  {
    if n < m {
      NoneStays(c, p, signatures, n, m - 1);
    }
  }

  /** The share under index i does not decode. */
  predicate Undecodable<G, S>(c: Curve<G, S>, signatures: Dict<int, S>, i: int) {
    i in signatures.at && c.toPoint(signatures.at[i]).None?
  }

  lemma {:induction false} AccumulateFails<G, S>(c: Curve<G, S>, p: int, signatures: Dict<int, S>, n: nat)
    requires IsPrime(p) && signatures.Valid() && n <= |signatures.order|
    ensures Accumulate(c, p, signatures, n).None? <==> exists k :: 0 <= k < n && Undecodable(c, signatures, signatures.order[k])
  {
    if n > 0 {
      AccumulateFails(c, p, signatures, n - 1);
      assert Accumulate(c, p, signatures, n).None? <==>
        Accumulate(c, p, signatures, n - 1).None? || Undecodable(c, signatures, signatures.order[n - 1]);
    }
  }

  /** The reconstruction raises exactly if some share does not decode. */
  lemma ReconstructFails<G, S>(c: Curve<G, S>, p: int, signatures: Dict<int, S>)
    requires IsPrime(p) && signatures.Valid()
    ensures Reconstruct(c, p, signatures).None? <==> exists i :: Undecodable(c, signatures, i)
  {
    var keys := signatures.order;
    AccumulateFails(c, p, signatures, |keys|);
    if i :| Undecodable(c, signatures, i) {
      var k :| 0 <= k < |keys| && keys[k] == i;
    }
  }

  lemma CoefPrefix(p: int, i: int, keys: seq<int>, m: nat)
    requires IsPrime(p) && m < |keys|
    ensures Coef(p, i, keys[..m + 1])
         == if keys[m] == i then Coef(p, i, keys[..m])
            else -Coef(p, i, keys[..m]) * (keys[m] + 1) * PrimeFieldInv(i - keys[m], p) % p
  {
    assert keys[..m + 1][..m] == keys[..m];
  }

  /** The nested loops; None stands for the error raised on a share that does not decode. */
  method ReconstructSharedBlsSignature<G, S>(c: Curve<G, S>, p: int, signatures: Dict<int, S>) returns (result: Option<S>)
    requires IsPrime(p) && signatures.Valid()
    ensures result == Reconstruct(c, p, signatures)
  {
    hide PrimeFieldInv, Coef;
    var keys := signatures.order;
    var r := c.zero;
    for n := 0 to |keys|
      invariant Accumulate(c, p, signatures, n) == Some(r)
    {
      var i := keys[n];
      var point := c.toPoint(signatures.at[i]);
      if point == None {
        assert Accumulate(c, p, signatures, n + 1) == None;
        NoneStays(c, p, signatures, n + 1, |keys|);
        return None;
      }
      var coef := 1;
      CoefEmpty(p, i);
      for m := 0 to |keys|
        invariant coef == Coef(p, i, keys[..m])
      {
        CoefPrefix(p, i, keys, m);
        var j := keys[m];
        if j != i {
          coef := -coef * (j + 1) * PrimeFieldInv(i - j, p) % p;
        }
      }
      assert keys[..|keys|] == keys;
      r := c.add(r, c.multiply(point.value, coef));
    }
    return Some(c.toSignature(r));
  }

  // ---- what is reconstructed from honest shares

  /** Share i of the secret sharing with polynomial f, of the signature whose hash point is h. */
  function ShareOf<G, S>(c: Curve<G, S>, p: int, h: G, f: seq<int>, i: int): S
    requires p > 0
  {
    c.toSignature(c.multiply(h, Eval(f, i + 1) % p))
  }

  /** The signature of the shared key itself. */
  function FullSignature<G, S>(c: Curve<G, S>, p: int, h: G, f: seq<int>): S
    requires p > 0
  {
    c.toSignature(c.multiply(h, Eval(f, 0) % p))
  }

  ghost predicate Honest<G, S>(c: Curve<G, S>, p: int, h: G, f: seq<int>, signatures: Dict<int, S>)
    requires p > 0
  {
    forall i :: i in signatures.at ==> signatures.at[i] == ShareOf(c, p, h, f, i)
  }

  lemma MultiplyPeriods<G(!new), S(!new)>(c: Curve<G, S>, p: int, h: G, a: nat, k: nat)
    requires p > 0 && Lawful(c, p)
    ensures a + k * p >= 0 && c.multiply(h, a + k * p) == c.multiply(h, a)
  {
    assert LawsAt(c, p, h, p, k) && LawsAt(c, p, h, 0, k);
    assert c.multiply(h, p) == c.multiply(h, 0);
    var n: nat := k * p;
    assert p * k == n && 0 * k == 0;
    assert c.multiply(h, n) == c.zero;
    assert LawsAt(c, p, h, n, a) && LawsAt(c, p, c.multiply(h, a), 0, 0);
  }

  /** Scalars count only modulo the group order. */
  lemma MultiplyCong<G(!new), S(!new)>(c: Curve<G, S>, p: int, h: G, a: nat, b: nat)
    requires p > 0 && Lawful(c, p) && Cong(p, a, b)
    ensures c.multiply(h, a) == c.multiply(h, b)
  {
    CongSameResidue(p, a, b);
    MultiplyPeriods(c, p, h, a % p, a / p);
    MultiplyPeriods(c, p, h, b % p, b / p);
    assert a == a % p + (a / p) * p && b == b % p + (b / p) * p;
  }

  function Times(a: nat, b: nat): nat {
    a * b
  }

  /** The scalar that the accumulator holds after n honest shares. */
  function Scalar(p: int, f: seq<int>, done: seq<int>, keys: seq<int>): nat
    requires IsPrime(p)
  {
    if done == [] then 0
    else
      var i := done[|done| - 1];
      Scalar(p, f, done[..|done| - 1], keys) + Times(Eval(f, i + 1) % p, Coef(p, i, keys))
  }

  lemma ScalarStep(p: int, s: int, t: int, y: int, w: int)
    requires p > 0 && Cong(p, s, t)
    ensures Cong(p, s + (y % p) * w, t + y * w)
  {
    CongResidue(p, y);
    CongLinear(p, 1, s, t, w, y % p, y);
    assert w * (y % p) == (y % p) * w && w * y == y * w;
  }

  lemma {:induction false} ScalarIsInterp(p: int, f: seq<int>, done: seq<int>, keys: seq<int>)
    requires IsPrime(p)
    ensures Cong(p, Scalar(p, f, done, keys), Interp(p, f, done, keys))
  {
    if done == [] {
      CongRefl(p, 0);
    } else {
      var rest, i := done[..|done| - 1], done[|done| - 1];
      ScalarIsInterp(p, f, rest, keys);
      ScalarStep(p, Scalar(p, f, rest, keys), Interp(p, f, rest, keys), Eval(f, i + 1), Coef(p, i, keys));
    }
  }

  lemma {:induction false} AccumulatesScalar<G(!new), S(!new)>(c: Curve<G, S>, p: int, h: G, f: seq<int>, signatures: Dict<int, S>, n: nat)
    requires IsPrime(p) && Lawful(c, p) && signatures.Valid() && n <= |signatures.order|
    requires Honest(c, p, h, f, signatures)
    ensures Accumulate(c, p, signatures, n) == Some(c.multiply(h, Scalar(p, f, signatures.order[..n], signatures.order)))
  {
    var keys := signatures.order;
    if n == 0 {
      assert LawsAt(c, p, h, 0, 0);
    } else {
      AccumulatesScalar(c, p, h, f, signatures, n - 1);
      assert keys[n - 1] in signatures.at;
      var s, y, w := Scalar(p, f, keys[..n - 1], keys), Eval(f, keys[n - 1] + 1) % p, Coef(p, keys[n - 1], keys);
      AddShare(c, p, h, s, y, w);
      ScalarSnoc(p, f, keys, n);
    }
  }

  lemma ScalarSnoc(p: int, f: seq<int>, keys: seq<int>, n: nat)
    requires IsPrime(p) && 0 < n <= |keys|
    ensures Scalar(p, f, keys[..n], keys)
         == Scalar(p, f, keys[..n - 1], keys) + Times(Eval(f, keys[n - 1] + 1) % p, Coef(p, keys[n - 1], keys))
  {
    assert keys[..n][..n - 1] == keys[..n - 1];
  }

  lemma AddShare<G(!new), S(!new)>(c: Curve<G, S>, p: int, h: G, s: nat, y: nat, w: nat)
    requires p > 0 && Lawful(c, p)
    ensures c.toPoint(c.toSignature(c.multiply(h, y))) == Some(c.multiply(h, y))
    ensures c.add(c.multiply(h, s), c.multiply(c.multiply(h, y), w)) == c.multiply(h, s + Times(y, w))
  {
    assert LawsAt(c, p, h, y, w) && LawsAt(c, p, h, s, Times(y, w)) && LawsAt(c, p, c.multiply(h, y), 0, 0);
  }

  /** The value that honest shares give, however many. */
  lemma ReconstructedValue<G(!new), S(!new)>(c: Curve<G, S>, p: int, h: G, f: seq<int>, signatures: Dict<int, S>)
    requires IsPrime(p) && Lawful(c, p) && signatures.Valid() && DistinctMod(p, signatures.order)
    requires Honest(c, p, h, f, signatures)
    ensures Reconstruct(c, p, signatures)
         == Some(c.toSignature(c.multiply(h, (Eval(f, 0) - Excess(f, signatures.order)) % p)))
  {
    hide Cong, Scalar, Interp, Accumulate;
    var keys := signatures.order;
    assert keys[..|keys|] == keys;
    AccumulatesScalar(c, p, h, f, signatures, |keys|);
    ScalarIsInterp(p, f, keys, keys);
    Interpolation(p, f, keys);
    var goal := Eval(f, 0) - Excess(f, keys);
    CongTrans(p, Scalar(p, f, keys, keys), Interp(p, f, keys, keys), goal);
    CongResidue(p, goal);
    CongTrans(p, Scalar(p, f, keys, keys), goal, goal % p);
    MultiplyCong(c, p, h, Scalar(p, f, keys, keys), goal % p);
  }

  /** Enough honest shares, in any order and however many, give the signature of the shared key. */
  lemma HonestSharesReconstruct<G(!new), S(!new)>(c: Curve<G, S>, p: int, h: G, f: seq<int>, signatures: Dict<int, S>)
    requires IsPrime(p) && Lawful(c, p) && signatures.Valid() && DistinctMod(p, signatures.order)
    requires Honest(c, p, h, f, signatures) && |f| <= |signatures.order|
    ensures Reconstruct(c, p, signatures) == Some(FullSignature(c, p, h, f))
  {
    ReconstructedValue(c, p, h, f, signatures);
  }

  /** Two share maps of one sharing reconstruct the same signature. */
  lemma ReconstructionAgrees<G(!new), S(!new)>(c: Curve<G, S>, p: int, h: G, f: seq<int>, one: Dict<int, S>, two: Dict<int, S>)
    requires IsPrime(p) && Lawful(c, p) && one.Valid() && two.Valid()
    requires DistinctMod(p, one.order) && DistinctMod(p, two.order)
    requires Honest(c, p, h, f, one) && Honest(c, p, h, f, two)
    requires |f| <= |one.order| && |f| <= |two.order|
    ensures Reconstruct(c, p, one) == Reconstruct(c, p, two) != None
  {
    HonestSharesReconstruct(c, p, h, f, one);
    HonestSharesReconstruct(c, p, h, f, two);
  }

  // ---- too few shares

  lemma {:induction false} NegProductVanishes(p: int, keys: seq<int>)
    requires IsPrime(p)
    ensures Cong(p, NegProduct(keys), 0) <==> exists a :: 0 <= a < |keys| && Cong(p, keys[a], -1)
  {
    if keys == [] {
      assert 1 % p == 1;
    } else {
      var rest, i := keys[..|keys| - 1], keys[|keys| - 1];
      NegProductVanishes(p, rest);
      assert NegProduct(keys) == NegProduct(rest) * -(i + 1);
      ProductVanishes(p, NegProduct(rest), -(i + 1));
      MinusOne(p, i);
      if a :| 0 <= a < |rest| && Cong(p, rest[a], -1) { assert keys[a] == rest[a]; }
      if a :| 0 <= a < |keys| && Cong(p, keys[a], -1) { assert a < |rest| ==> rest[a] == keys[a]; }
    }
  }

  lemma MinusOne(p: int, i: int)
    requires p > 0
    ensures Cong(p, -(i + 1), 0) <==> Cong(p, i, -1)
  {
    if Cong(p, -(i + 1), 0) {
      var k := CongElim(p, -(i + 1), 0);
      CongIntro(p, i, -1, -k);
    }
    if Cong(p, i, -1) {
      var k := CongElim(p, i, -1);
      CongIntro(p, -(i + 1), 0, -k);
    }
  }

  /** A prime divides a product if and only if it divides a factor. */
  lemma ProductVanishes(p: int, x: int, y: int)
    requires IsPrime(p)
    ensures Cong(p, x * y, 0) <==> Cong(p, x, 0) || Cong(p, y, 0)
  {
    if Cong(p, x, 0) {
      CongScale(p, y, x, 0);
    }
    if Cong(p, y, 0) {
      CongScale(p, x, y, 0);
    }
    CongZero(p, y, 0);
    if Cong(p, x * y, 0) && y % p != 0 {
      CongCancel(p, y, x, 0);
    }
  }

  /** In a group of prime order only multiples of p take a point other than zero to zero. */
  lemma ZeroMultiple<G(!new), S(!new)>(c: Curve<G, S>, p: int, h: G, d: nat)
    requires IsPrime(p) && Lawful(c, p) && h != c.zero && c.multiply(h, d) == c.zero
    ensures d % p == 0
  {
    hide PrimeFieldInv, Cong;
    if d % p != 0 {
      var v: nat := PrimeFieldInv(d, p);
      assert LawsAt(c, p, h, d, v) && LawsAt(c, p, h, 0, v) && LawsAt(c, p, h, 0, 0);
      assert 0 * v == 0;
      assert c.multiply(h, d * v) == c.zero;
      MultiplyCong(c, p, h, d * v, 1);
      assert false;
    }
  }

  /** Multiples of a point other than zero tell residues apart. */
  lemma MultiplyInjective<G(!new), S(!new)>(c: Curve<G, S>, p: int, h: G, a: nat, b: nat)
    requires IsPrime(p) && Lawful(c, p) && h != c.zero && b < p
    requires c.multiply(h, a) == c.multiply(h, b)
    ensures Cong(p, a, b)
  {
    var m: nat := p - b;
    assert LawsAt(c, p, h, a, m) && LawsAt(c, p, h, b, m);
    ZeroMultiple(c, p, h, a + m);
    CongIntro(p, a, b, (a + m) / p - 1);
  }

  /**
   * Honest shares, too few or enough: the result is right exactly when what is left of the polynomial
   * after dividing it by every share's point vanishes at 0, or a share is itself taken at 0.
   */
  lemma ReconstructsExactly<G(!new), S(!new)>(c: Curve<G, S>, p: int, h: G, f: seq<int>, signatures: Dict<int, S>)
    requires IsPrime(p) && Lawful(c, p) && h != c.zero
    requires signatures.Valid() && DistinctMod(p, signatures.order)
    requires Honest(c, p, h, f, signatures)
    ensures Reconstruct(c, p, signatures) == Some(FullSignature(c, p, h, f))
      <==> || Cong(p, Eval(Divide(f, signatures.order), 0), 0)
           || exists a :: 0 <= a < |signatures.order| && Cong(p, signatures.order[a], -1)
  {
    var keys := signatures.order;
    var y, e := Eval(f, 0), Excess(f, keys);
    ReconstructedValue(c, p, h, f, signatures);
    NegProductVanishes(p, keys);
    ProductVanishes(p, NegProduct(keys), Eval(Divide(f, keys), 0));
    DifferenceVanishes(p, y, e);
    if Reconstruct(c, p, signatures) == Some(FullSignature(c, p, h, f)) {
      var one, two := c.multiply(h, (y - e) % p), c.multiply(h, y % p);
      assert LawsAt(c, p, one, 0, 0) && LawsAt(c, p, two, 0, 0);
      MultiplyInjective(c, p, h, (y - e) % p, y % p);
      CongResidue(p, y - e);
      CongResidue(p, y);
      CongTrans(p, y - e, (y - e) % p, y % p);
      CongTrans(p, y - e, y % p, y);
      CongSameResidue(p, y - e, y);
    }
  }

  lemma DifferenceVanishes(p: int, y: int, e: int)
    requires p > 0
    ensures Cong(p, e, 0) <==> (y - e) % p == y % p
  {
    hide Cong;
    CongResidue(p, y - e);
    CongResidue(p, y);
    if Cong(p, e, 0) {
      var k := CongElim(p, e, 0);
      CongIntro(p, y - e, y, -k);
      CongSameResidue(p, y - e, y);
    }
    if (y - e) % p == y % p {
      CongTrans(p, y - e, y % p, y);
      var k := CongElim(p, y - e, y);
      CongIntro(p, e, 0, -k);
    }
  }
}

/** Lagrange interpolation at 0 over Z_p, for the evaluation points i + 1 of share indices i. */
module Lagrange {
  import opened PrimeField

  /** Value at x of the polynomial with coefficients f, lowest degree first. */
  function Eval(f: seq<int>, x: int): int {
    if f == [] then 0 else f[0] + x * Eval(f[1..], x)
  }

  /** The factor that one other index j contributes to the coefficient of i. */
  function Ratio(p: int, i: int, j: int): int
    requires IsPrime(p)
  {
    -(j + 1) * PrimeFieldInv(i - j, p)
  }

  /** The coefficient of index i: the product of the ratios of the other indices, reduced at every step. */
  function Coef(p: int, i: int, keys: seq<int>): (c: int)
    requires IsPrime(p)
    ensures 0 <= c
  {
    if keys == [] then 1
    else
      var c, j := Coef(p, i, keys[..|keys| - 1]), keys[|keys| - 1];
      if j == i then c else -c * (j + 1) * PrimeFieldInv(i - j, p) % p
  }

  /** The sum over i in done of f(i + 1) times the coefficient of i among keys. */
  ghost function Interp(p: int, f: seq<int>, done: seq<int>, keys: seq<int>): int
    requires IsPrime(p)
  {
    if done == [] then 0
    else
      var i := done[|done| - 1];
      Interp(p, f, done[..|done| - 1], keys) + Eval(f, i + 1) * Coef(p, i, keys)
  }

  ghost predicate DistinctMod(p: int, keys: seq<int>)
    requires p > 0
  {
    forall a, b :: 0 <= a < b < |keys| ==> !Cong(p, keys[a], keys[b])
  }

  ghost predicate Apart(p: int, i: int, keys: seq<int>)
    requires p > 0
  {
    forall a :: 0 <= a < |keys| ==> !Cong(p, keys[a], i)
  }

  // ---- one factor of a coefficient

  lemma RatioSpec(p: int, i: int, j: int)
    requires IsPrime(p) && !Cong(p, i, j)
    ensures Cong(p, Ratio(p, i, j) * (j - i), j + 1)
  {
    var v := PrimeFieldInv(i - j, p);
    CongZero(p, i, j);
    CongScale(p, j + 1, (i - j) * v, 1);
    assert Ratio(p, i, j) * (j - i) == (j + 1) * ((i - j) * v);
  }

  lemma CoefEmpty(p: int, i: int)
    requires IsPrime(p)
    ensures Coef(p, i, []) == 1
  {
  }

  lemma CoefSnoc(p: int, i: int, keys: seq<int>, j: int)
    requires IsPrime(p)
    ensures i == j ==> Coef(p, i, keys + [j]) == Coef(p, i, keys)
    ensures i != j ==> Cong(p, Coef(p, i, keys + [j]), Coef(p, i, keys) * Ratio(p, i, j))
  {
    assert (keys + [j])[..|keys|] == keys;
    StepIsRatio(p, i, j, Coef(p, i, keys));
  }

  lemma StepIsRatio(p: int, i: int, j: int, c: int)
    requires IsPrime(p)
    ensures Cong(p, -c * (j + 1) * PrimeFieldInv(i - j, p) % p, c * Ratio(p, i, j))
  {
    hide PrimeFieldInv, Cong;
    var v := PrimeFieldInv(i - j, p);
    CongResidue(p, -c * (j + 1) * v);
    NegatedProduct(c, j + 1, v);
  }

  lemma NegatedProduct(c: int, d: int, v: int)
    ensures c * (-d * v) == -c * d * v
  {
  }

  lemma InterpSnoc(p: int, f: seq<int>, done: seq<int>, i: int, keys: seq<int>)
    requires IsPrime(p)
    ensures Interp(p, f, done + [i], keys) == Interp(p, f, done, keys) + Eval(f, i + 1) * Coef(p, i, keys)
  {
    assert (done + [i])[..|done|] == done;
  }

  // ---- the coefficients add up to 1 (Neville's recursion on the last two indices)

  /** Neville's relation between a value over all indices and those without a, and without b. */
  ghost predicate Neville(p: int, a: int, b: int, all: int, withoutA: int, withoutB: int) {
    Cong(p, all * (a - b), (a + 1) * withoutA - (b + 1) * withoutB)
  }

  lemma NevilleTerm(p: int, i: int, keys: seq<int>, a: int, b: int)
    requires IsPrime(p) && !Cong(p, i, a) && !Cong(p, i, b)
    ensures Neville(p, a, b, Coef(p, i, keys + [a] + [b]), Coef(p, i, keys + [b]), Coef(p, i, keys + [a]))
  {
    hide Coef, Ratio;
    CongRefl(p, i);
    CoefSnoc(p, i, keys, a);
    CoefSnoc(p, i, keys, b);
    CoefSnoc(p, i, keys + [a], b);
    RatioSpec(p, i, a);
    RatioSpec(p, i, b);
    NevilleRing(p, i, a, b, Coef(p, i, keys), Ratio(p, i, a), Ratio(p, i, b),
      Coef(p, i, keys + [a]), Coef(p, i, keys + [b]), Coef(p, i, keys + [a] + [b]));
  }

  lemma NevilleRing(p: int, i: int, a: int, b: int, c: int, u: int, v: int, ca: int, cb: int, cab: int)
    requires Cong(p, ca, c * u) && Cong(p, cb, c * v) && Cong(p, cab, ca * v)
    requires Cong(p, u * (a - i), a + 1) && Cong(p, v * (b - i), b + 1)
    ensures Neville(p, a, b, cab, cb, ca)
  {
    hide Cong;
    var cu, cv, cuv := c * u, c * v, c * u * v;
    CongScale(p, v, ca, cu);
    assert v * ca == ca * v && v * cu == cuv;
    CongTrans(p, cab, ca * v, cuv);
    CongScale(p, a - b, cab, cuv);
    CongLinear(p, cv, u * (a - i), a + 1, -cu, v * (b - i), b + 1);
    NevilleSplit(i, a, b, c, u, v);
    CongTrans(p, (a - b) * cab, (a - b) * cuv, cv * (a + 1) + -cu * (b + 1));
    CongSym(p, ca, cu);
    CongSym(p, cb, cv);
    CongLinear(p, a + 1, cv, cb, -(b + 1), cu, ca);
    assert (a + 1) * cv + -(b + 1) * cu == cv * (a + 1) + -cu * (b + 1);
    CongTrans(p, (a - b) * cab, cv * (a + 1) + -cu * (b + 1), (a + 1) * cb + -(b + 1) * ca);
    assert -(b + 1) * ca == -((b + 1) * ca);
  }

  lemma NevilleSplit(i: int, a: int, b: int, c: int, u: int, v: int)
    ensures (a - b) * (c * u * v) == (c * v) * (u * (a - i)) + -(c * u) * (v * (b - i))
  {
    assert (c * v) * (u * (a - i)) == (c * u * v) * (a - i);
    assert (c * u) * (v * (b - i)) == (c * u * v) * (b - i);
  }

  lemma {:induction false} NevilleSum(p: int, done: seq<int>, keys: seq<int>, a: int, b: int)
    requires IsPrime(p) && Apart(p, a, done) && Apart(p, b, done)
    ensures Neville(p, a, b, Interp(p, [1], done, keys + [a] + [b]), Interp(p, [1], done, keys + [b]), Interp(p, [1], done, keys + [a]))
  {
    if done == [] {
      CongRefl(p, 0);
    } else {
      hide Coef, Neville, Interp;
      var rest, i := done[..|done| - 1], done[|done| - 1];
      assert done == rest + [i];
      NevilleSum(p, rest, keys, a, b);
      NevilleTerm(p, i, keys, a, b);
      UnitySnoc(p, rest, i, keys + [a] + [b]);
      UnitySnoc(p, rest, i, keys + [b]);
      UnitySnoc(p, rest, i, keys + [a]);
      NevilleAdd(p, a, b, Interp(p, [1], rest, keys + [a] + [b]), Interp(p, [1], rest, keys + [b]), Interp(p, [1], rest, keys + [a]),
        Coef(p, i, keys + [a] + [b]), Coef(p, i, keys + [b]), Coef(p, i, keys + [a]));
    }
  }

  lemma NevilleAdd(p: int, a: int, b: int, s: int, sb: int, sa: int, c: int, cb: int, ca: int)
    requires Neville(p, a, b, s, sb, sa) && Neville(p, a, b, c, cb, ca)
    ensures Neville(p, a, b, s + c, sb + cb, sa + ca)
  {
    hide Cong;
    CongLinear(p, 1, s * (a - b), (a + 1) * sb - (b + 1) * sa, 1, c * (a - b), (a + 1) * cb - (b + 1) * ca);
    Distribute(a - b, s, c);
    Distribute(a + 1, sb, cb);
    Distribute(b + 1, sa, ca);
  }

  lemma Distribute(x: int, y: int, z: int)
    ensures x * (y + z) == x * y + x * z
  {
  }

  lemma DistinctSnoc(p: int, keys: seq<int>, b: int)
    requires p > 0 && DistinctMod(p, keys + [b])
    ensures DistinctMod(p, keys) && Apart(p, b, keys)
  {
    var all := keys + [b];
    forall x, y | 0 <= x < y < |keys| ensures !Cong(p, keys[x], keys[y]) {
      assert all[x] == keys[x] && all[y] == keys[y];
    }
    forall x | 0 <= x < |keys| ensures !Cong(p, keys[x], b) {
      assert all[x] == keys[x] && all[|keys|] == b;
    }
  }

  lemma {:induction false} PartitionOfUnity(p: int, keys: seq<int>)
    requires IsPrime(p) && keys != [] && DistinctMod(p, keys)
    ensures Cong(p, Interp(p, [1], keys, keys), 1)
    decreases |keys|
  {
    var b := keys[|keys| - 1];
    if |keys| == 1 {
      assert keys == [] + [b] && keys[..0] == [];
      CoefSnoc(p, b, [], b);
      UnitySnoc(p, [], b, keys);
      CongRefl(p, 1);
    } else {
      var t, a := keys[..|keys| - 2], keys[|keys| - 2];
      assert keys == t + [a] + [b];
      DistinctSnoc(p, t + [a], b);
      DistinctSnoc(p, t, a);
      assert (t + [a])[|t|] == a;
      assert Apart(p, b, t) by {
        forall x | 0 <= x < |t| ensures !Cong(p, t[x], b) { assert (t + [a])[x] == t[x]; }
      }
      PartitionOfUnity(p, t + [a]);
      PartitionOfUnity(p, t + [b]);
      if Cong(p, b, a) { CongSym(p, b, a); }
      if a == b { CongRefl(p, a); }
      UnityStep(p, t, a, b);
    }
  }

  lemma UnityStep(p: int, t: seq<int>, a: int, b: int)
    requires IsPrime(p) && Apart(p, a, t) && Apart(p, b, t) && a != b && !Cong(p, a, b) && !Cong(p, b, a)
    requires Cong(p, Interp(p, [1], t + [a], t + [a]), 1)
    requires Cong(p, Interp(p, [1], t + [b], t + [b]), 1)
    ensures Cong(p, Interp(p, [1], t + [a] + [b], t + [a] + [b]), 1)
  {
    hide Coef, Ratio, Interp, Neville;
    var kab := t + [a] + [b];
    UnitySnoc(p, t, a, t + [a]);
    UnitySnoc(p, t, b, t + [b]);
    UnitySnoc(p, t, a, kab);
    UnitySnoc(p, t + [a], b, kab);
    NevilleSum(p, t, t, a, b);
    UnityCoefs(p, t, a, b);
    var da, db := Coef(p, a, kab), Coef(p, b, kab);
    RatioSpec(p, a, b);
    RatioSpec(p, b, a);
    UnityRing(p, a, b, Interp(p, [1], t, kab), Interp(p, [1], t, t + [a]), Interp(p, [1], t, t + [b]),
      Coef(p, a, t), Coef(p, b, t), Ratio(p, a, b), Ratio(p, b, a), da, db);
    CongZero(p, a, b);
    CongCancel(p, a - b, Interp(p, [1], t, kab) + da + db, 1);
  }

  lemma UnitySnoc(p: int, done: seq<int>, i: int, keys: seq<int>)
    requires IsPrime(p)
    ensures Interp(p, [1], done + [i], keys) == Interp(p, [1], done, keys) + Coef(p, i, keys)
  {
    InterpSnoc(p, [1], done, i, keys);
    assert Eval([1], i + 1) == 1;
  }

  /** How the coefficients of the last two indices come from those over the common prefix. */
  lemma UnityCoefs(p: int, t: seq<int>, a: int, b: int)
    requires IsPrime(p) && a != b
    ensures Coef(p, a, t + [a]) == Coef(p, a, t) && Coef(p, b, t + [b]) == Coef(p, b, t)
    ensures Cong(p, Coef(p, a, t + [a] + [b]), Coef(p, a, t) * Ratio(p, a, b))
    ensures Cong(p, Coef(p, b, t + [a] + [b]), Coef(p, b, t) * Ratio(p, b, a))
  {
    CoefSnoc(p, a, t, a);
    CoefSnoc(p, b, t, b);
    CoefSnoc(p, a, t + [a], b);
    CoefSnoc(p, b, t + [a], b);
    CoefSnoc(p, b, t, a);
  }

  lemma UnityRing(p: int, a: int, b: int, s: int, sa: int, sb: int, ca: int, cb: int, u: int, v: int, da: int, db: int)
    requires p > 0
    requires Neville(p, a, b, s, sb, sa)
    requires Cong(p, sa + ca, 1) && Cong(p, sb + cb, 1)
    requires Cong(p, da, ca * u) && Cong(p, db, cb * v)
    requires Cong(p, u * (b - a), b + 1) && Cong(p, v * (a - b), a + 1)
    ensures Cong(p, (s + da + db) * (a - b), 1 * (a - b))
  {
    var x, y := (a + 1) * (1 - cb) - (b + 1) * (1 - ca), cb * (a + 1) - ca * (b + 1);
    UnityHead(p, a, b, s, sa, sb, ca, cb);
    UnityTail(p, a, b, ca, cb, u, v, da, db);
    CongLinear(p, 1, s * (a - b), x, 1, (da + db) * (a - b), y);
    assert s * (a - b) + (da + db) * (a - b) == (s + da + db) * (a - b);
    assert x + y == 1 * (a - b);
  }

  lemma UnityHead(p: int, a: int, b: int, s: int, sa: int, sb: int, ca: int, cb: int)
    requires p > 0
    requires Neville(p, a, b, s, sb, sa)
    requires Cong(p, sa + ca, 1) && Cong(p, sb + cb, 1)
    ensures Cong(p, s * (a - b), (a + 1) * (1 - cb) - (b + 1) * (1 - ca))
  {
    var k := CongElim(p, sa + ca, 1);
    CongIntro(p, sa, 1 - ca, k);
    var l := CongElim(p, sb + cb, 1);
    CongIntro(p, sb, 1 - cb, l);
    CongLinear(p, a + 1, sb, 1 - cb, -(b + 1), sa, 1 - ca);
    assert (a + 1) * sb + -(b + 1) * sa == (a + 1) * sb - (b + 1) * sa;
    assert (a + 1) * (1 - cb) + -(b + 1) * (1 - ca) == (a + 1) * (1 - cb) - (b + 1) * (1 - ca);
    CongTrans(p, s * (a - b), (a + 1) * sb - (b + 1) * sa, (a + 1) * (1 - cb) - (b + 1) * (1 - ca));
  }

  lemma UnityTail(p: int, a: int, b: int, ca: int, cb: int, u: int, v: int, da: int, db: int)
    requires p > 0
    requires Cong(p, da, ca * u) && Cong(p, db, cb * v)
    requires Cong(p, u * (b - a), b + 1) && Cong(p, v * (a - b), a + 1)
    ensures Cong(p, (da + db) * (a - b), cb * (a + 1) - ca * (b + 1))
  {
    CongLinear(p, a - b, da, ca * u, a - b, db, cb * v);
    CongLinear(p, -ca, u * (b - a), b + 1, cb, v * (a - b), a + 1);
    assert (a - b) * da + (a - b) * db == (da + db) * (a - b);
    assert (a - b) * (ca * u) + (a - b) * (cb * v) == -ca * (u * (b - a)) + cb * (v * (a - b));
    assert -ca * (b + 1) + cb * (a + 1) == cb * (a + 1) - ca * (b + 1);
    CongTrans(p, (da + db) * (a - b), -ca * (u * (b - a)) + cb * (v * (a - b)), cb * (a + 1) - ca * (b + 1));
  }

  // ---- division by x - x_b, and the interpolation theorem

  /** The quotient of f by x - b (synthetic division); the remainder is f(b). */
  function Quotient(f: seq<int>, b: int): (q: seq<int>)
    ensures |q| == if f == [] then 0 else |f| - 1
  {
    if |f| <= 1 then [] else [Eval(f[1..], b)] + Quotient(f[1..], b)
  }

  lemma {:induction false} DivisionIdentity(f: seq<int>, b: int, x: int)
    ensures Eval(f, x) == Eval(f, b) + (x - b) * Eval(Quotient(f, b), x)
  {
    if |f| > 1 {
      var q := Quotient(f, b);
      DivisionIdentity(f[1..], b, x);
      assert q[0] == Eval(f[1..], b) && q[1..] == Quotient(f[1..], b);
      DivisionRing(x, b, f[0], Eval(f[1..], x), Eval(f[1..], b), Eval(Quotient(f[1..], b), x));
    } else if |f| == 1 {
      assert f[1..] == [];
    }
  }

  lemma DivisionRing(x: int, b: int, c: int, g: int, h: int, r: int)
    requires g == h + (x - b) * r
    ensures c + x * g == c + b * h + (x - b) * (h + x * r)
  {
    Distribute(x, h, (x - b) * r);
    Distribute(x - b, h, x * r);
    assert x * ((x - b) * r) == (x - b) * (x * r);
  }

  lemma {:induction false} QuotientKeepsLead(f: seq<int>, b: int)
    requires |f| >= 2
    ensures Quotient(f, b)[|f| - 2] == f[|f| - 1]
  {
    if |f| == 2 {
      assert f[1..] == [f[1]] && Quotient(f, b)[0] == Eval(f[1..], b) == f[1];
    } else {
      QuotientKeepsLead(f[1..], b);
    }
  }

  /** The product of -(i + 1) over the indices. */
  function NegProduct(keys: seq<int>): int {
    if keys == [] then 1 else NegProduct(keys[..|keys| - 1]) * -(keys[|keys| - 1] + 1)
  }

  /** What is left of f after dividing it by x - (i + 1) for every index i, the last index first. */
  function Divide(f: seq<int>, keys: seq<int>): (q: seq<int>)
    ensures |q| == if |f| <= |keys| then 0 else |f| - |keys|
    decreases |keys|
  {
    if keys == [] then f else Divide(Quotient(f, keys[|keys| - 1] + 1), keys[..|keys| - 1])
  }

  lemma {:induction false} DivideKeepsLead(f: seq<int>, keys: seq<int>)
    requires |f| > |keys|
    ensures Divide(f, keys)[|f| - |keys| - 1] == f[|f| - 1]
    decreases |keys|
  {
    if keys != [] {
      QuotientKeepsLead(f, keys[|keys| - 1] + 1);
      DivideKeepsLead(Quotient(f, keys[|keys| - 1] + 1), keys[..|keys| - 1]);
    }
  }

  /** What interpolation at the indices misses of f(0). */
  function Excess(f: seq<int>, keys: seq<int>): int {
    NegProduct(keys) * Eval(Divide(f, keys), 0)
  }

  lemma ShiftTerm(p: int, f: seq<int>, i: int, keys: seq<int>, b: int)
    requires IsPrime(p) && !Cong(p, i, b)
    ensures Cong(p, Eval(f, i + 1) * Coef(p, i, keys + [b]),
                    Eval(f, b + 1) * Coef(p, i, keys + [b]) + -(b + 1) * (Eval(Quotient(f, b + 1), i + 1) * Coef(p, i, keys)))
  {
    hide Coef, Ratio, Eval, Quotient;
    var c, d, u, q := Coef(p, i, keys), Coef(p, i, keys + [b]), Ratio(p, i, b), Eval(Quotient(f, b + 1), i + 1);
    CongRefl(p, i);
    CoefSnoc(p, i, keys, b);
    RatioSpec(p, i, b);
    DivisionIdentity(f, b + 1, i + 1);
    ShiftRing(p, i, b, c, d, u, q, Eval(f, i + 1), Eval(f, b + 1));
  }

  lemma ShiftRing(p: int, i: int, b: int, c: int, d: int, u: int, q: int, y: int, z: int)
    requires p > 0 && Cong(p, d, c * u) && Cong(p, u * (b - i), b + 1)
    requires y == z + (i + 1 - (b + 1)) * q
    ensures Cong(p, y * d, z * d + -(b + 1) * (q * c))
  {
    hide Cong;
    CongScale(p, (i - b) * q, d, c * u);
    CongScale(p, -(q * c), u * (b - i), b + 1);
    assert (i - b) * q * (c * u) == -(q * c) * (u * (b - i));
    CongTrans(p, (i - b) * q * d, -(q * c) * (u * (b - i)), -(q * c) * (b + 1));
    CongLinear(p, 1, (i - b) * q * d, -(q * c) * (b + 1), z, d, d) by { CongRefl(p, d); }
    assert y * d == (i - b) * q * d + z * d;
    assert -(q * c) * (b + 1) == -(b + 1) * (q * c);
  }

  lemma {:induction false} ShiftSum(p: int, f: seq<int>, done: seq<int>, keys: seq<int>, b: int)
    requires IsPrime(p) && Apart(p, b, done)
    ensures Cong(p, Interp(p, f, done, keys + [b]),
                    Eval(f, b + 1) * Interp(p, [1], done, keys + [b])
                      + -(b + 1) * Interp(p, Quotient(f, b + 1), done, keys))
  {
    if done == [] {
      CongRefl(p, 0);
    } else {
      hide Coef, Cong, Quotient;
      var rest, i, q, z := done[..|done| - 1], done[|done| - 1], Quotient(f, b + 1), Eval(f, b + 1);
      ShiftSum(p, f, rest, keys, b);
      ShiftTerm(p, f, i, keys, b);
      assert Eval([1], i + 1) == 1;
      AddCongruences(p, Interp(p, f, rest, keys + [b]), z, Interp(p, [1], rest, keys + [b]), -(b + 1), Interp(p, q, rest, keys),
        Eval(f, i + 1) * Coef(p, i, keys + [b]), Coef(p, i, keys + [b]), Eval(q, i + 1) * Coef(p, i, keys));
    }
  }

  lemma AddCongruences(p: int, x: int, s: int, y: int, t: int, z: int, x': int, y': int, z': int)
    requires p > 0
    requires Cong(p, x, s * y + t * z) && Cong(p, x', s * y' + t * z')
    ensures Cong(p, x + x', s * (y + y') + t * (z + z'))
  {
    CongLinear(p, 1, x, s * y + t * z, 1, x', s * y' + t * z');
    assert s * y + t * z + (s * y' + t * z') == s * (y + y') + t * (z + z');
  }

  /** Interpolation at 0 of any polynomial: the value there, less an exact multiple of what division leaves. */
  lemma {:induction false} Interpolation(p: int, f: seq<int>, keys: seq<int>)
    requires IsPrime(p) && DistinctMod(p, keys)
    ensures Cong(p, Interp(p, f, keys, keys), Eval(f, 0) - NegProduct(keys) * Eval(Divide(f, keys), 0))
    decreases |keys|
  {
    if keys == [] {
      CongRefl(p, 0);
    } else {
      var t, b := keys[..|keys| - 1], keys[|keys| - 1];
      assert keys == t + [b];
      DistinctSnoc(p, t, b);
      Interpolation(p, Quotient(f, b + 1), t);
      InterpolationStep(p, f, t, b);
      ExcessSnoc(f, t, b);
    }
  }

  lemma InterpolationStep(p: int, f: seq<int>, t: seq<int>, b: int)
    requires IsPrime(p) && DistinctMod(p, t + [b])
    requires Cong(p, Interp(p, Quotient(f, b + 1), t, t), Eval(Quotient(f, b + 1), 0) - Excess(Quotient(f, b + 1), t))
    ensures Cong(p, Interp(p, f, t + [b], t + [b]), Eval(f, 0) - Excess(Quotient(f, b + 1), t) * -(b + 1))
  {
    var q, keys := Quotient(f, b + 1), t + [b];
    DistinctSnoc(p, t, b);
    PartitionOfUnity(p, keys);
    UnitySnoc(p, t, b, keys);
    InterpSnoc(p, f, t, b, keys);
    ShiftSum(p, f, t, t, b);
    DivisionIdentity(f, b + 1, 0);
    InterpolationRing(p, Interp(p, f, t, keys), Eval(f, b + 1), Interp(p, [1], t, keys), -(b + 1),
      Interp(p, q, t, t), Coef(p, b, keys), Eval(q, 0), Excess(q, t));
  }

  lemma ExcessSnoc(f: seq<int>, t: seq<int>, b: int)
    ensures Excess(f, t + [b]) == Excess(Quotient(f, b + 1), t) * -(b + 1)
  {
    assert (t + [b])[..|t|] == t;
    Commute(NegProduct(t), -(b + 1), Eval(Divide(Quotient(f, b + 1), t), 0));
  }

  lemma Commute(x: int, y: int, z: int)
    ensures x * y * z == x * z * y
  {
  }

  lemma InterpolationRing(p: int, x: int, z: int, s: int, w: int, y: int, c: int, q0: int, e: int)
    requires p > 0
    requires Cong(p, x, z * s + w * y)
    requires Cong(p, s + c, 1) && Cong(p, y, q0 - e)
    ensures Cong(p, x + z * c, z + w * q0 - e * w)
  {
    hide Cong;
    CongLinear(p, z, s + c, 1, w, y, q0 - e);
    CongLinear(p, 1, x, z * s + w * y, z, c, c) by { CongRefl(p, c); }
    Distribute(z, s, c);
    Distribute(w, q0, -e);
    CongTrans(p, x + z * c, z * (s + c) + w * y, z * 1 + w * (q0 - e));
  }
}

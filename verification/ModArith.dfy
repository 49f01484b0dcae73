/** Congruences, Euclid's lemma and Fermat's little theorem for a prime modulus. */
module ModArith {
  import opened Products
  import opened Numeral

  ghost predicate IsPrime(p: int)
    ensures IsPrime(p) ==> p >= 2
  {
    p >= 2 && forall d :: 2 <= d < p ==> p % d != 0
  }

  ghost predicate Cong(m: int, a: int, b: int)
    requires m > 0
  {
    (a - b) % m == 0
  }

  lemma MultipleMod(m: int, k: int)
    requires m > 0
    ensures (m * k) % m == 0
  {
    var n := m * k;
    assert n == m * (n / m) + n % m;
    assert m * (k - n / m) == n % m;
    SmallMultiple(k - n / m, m);
  }

  lemma CongWitness(m: int, a: int, b: int) returns (k: int)
    requires m > 0 && Cong(m, a, b)
    ensures a == b + m * k
  {
    k := (a - b) / m;
    assert a - b == m * k + (a - b) % m;
  }

  lemma CongFrom(m: int, a: int, b: int, k: int)
    requires m > 0 && a == b + m * k
    ensures Cong(m, a, b)
  {
    MultipleMod(m, k);
  }

  lemma CongRefl(m: int, a: int)
    requires m > 0
    ensures Cong(m, a, a)
  {
    CongFrom(m, a, a, 0);
  }

  lemma CongSym(m: int, a: int, b: int)
    requires m > 0 && Cong(m, a, b)
    ensures Cong(m, b, a)
  {
    var k := CongWitness(m, a, b);
    CongFrom(m, b, a, -k);
  }

  lemma CongTrans(m: int, a: int, b: int, c: int)
    requires m > 0 && Cong(m, a, b) && Cong(m, b, c)
    ensures Cong(m, a, c)
  {
    var k := CongWitness(m, a, b);
    var l := CongWitness(m, b, c);
    assert m * (k + l) == m * k + m * l;
    CongFrom(m, a, c, k + l);
  }

  lemma CongAdd(m: int, a: int, b: int, c: int, d: int)
    requires m > 0 && Cong(m, a, b) && Cong(m, c, d)
    ensures Cong(m, a + c, b + d) && Cong(m, a - c, b - d)
  {
    var k := CongWitness(m, a, b);
    var l := CongWitness(m, c, d);
    assert m * (k + l) == m * k + m * l && m * (k - l) == m * k - m * l;
    CongFrom(m, a + c, b + d, k + l);
    CongFrom(m, a - c, b - d, k - l);
  }

  lemma CongMul(m: int, a: int, b: int, c: int, d: int)
    requires m > 0 && Cong(m, a, b) && Cong(m, c, d)
    ensures Cong(m, a * c, b * d)
  {
    var k := CongWitness(m, a, b);
    var l := CongWitness(m, c, d);
    MulExpand(m, b, d, k, l);
    CongFrom(m, a * c, b * d, b * l + k * d + m * (k * l));
  }

  lemma MulExpand(m: int, b: int, d: int, k: int, l: int)
    ensures (b + m * k) * (d + m * l) == b * d + m * (b * l + k * d + m * (k * l))
  {
  }

  lemma CongMod(m: int, a: int)
    requires m > 0
    ensures Cong(m, a % m, a) && 0 <= a % m < m
  {
    assert a == m * (a / m) + a % m;
    CongFrom(m, a % m, a, -(a / m));
  }

  lemma CongUnique(m: int, a: int, b: int)
    requires m > 0 && Cong(m, a, b) && 0 <= a < m && 0 <= b < m
    ensures a == b
  {
    var k := CongWitness(m, a, b);
    SmallMultiple(k, m);
  }

  lemma ModUnique(m: int, a: int, b: int)
    requires m > 0 && Cong(m, a, b)
    ensures a % m == b % m
  {
    CongMod(m, a);
    CongMod(m, b);
    CongTrans(m, a % m, a, b);
    CongSym(m, b % m, b);
    CongTrans(m, a % m, b, b % m);
    CongUnique(m, a % m, b % m);
  }

  /** Euclid's lemma, by descent on the smaller factor. */
  lemma {:induction false} EuclidLemma(p: int, a: int, b: int)
    requires IsPrime(p) && 0 < a < p && Cong(p, a * b, 0)
    ensures Cong(p, b, 0)
    decreases a
  {
    if a == 1 {
      assert a * b == b;
    } else {
      var q, r := p / a, p % a;
      assert p == a * q + r;
      var k := CongWitness(p, a * b, 0);
      Descend(p, a, b, q, r, k);
      CongFrom(p, r * b, 0, b - q * k);
      EuclidLemma(p, r, b);
    }
  }

  lemma Descend(p: int, a: int, b: int, q: int, r: int, k: int)
    requires p == a * q + r && a * b == p * k
    ensures r * b == p * (b - q * k)
  {
    calc {
      r * b;
      (p - a * q) * b;
      p * b - (a * b) * q;
      p * b - (p * k) * q;
      p * (b - q * k);
    }
  }

  lemma NoZeroDivisors(p: int, a: int, b: int)
    requires IsPrime(p) && Cong(p, a * b, 0) && !Cong(p, a, 0)
    ensures Cong(p, b, 0)
  {
    CongMod(p, a);
    CongRefl(p, b);
    CongMul(p, a % p, a, b, b);
    CongTrans(p, a % p * b, a * b, 0);
    EuclidLemma(p, a % p, b);
  }

  lemma Cancel(p: int, c: int, a: int, b: int)
    requires IsPrime(p) && !Cong(p, c, 0) && Cong(p, c * a, c * b)
    ensures Cong(p, a, b)
  {
    assert c * a - c * b == c * (a - b);
    NoZeroDivisors(p, c, a - b);
  }

  // ----- Fermat's little theorem ----------------------------------------------

  ghost function Product(s: set<int>): int {
    if exists x :: x in s then var x :| x in s; x * Product(s - {x}) else 1
  }

  lemma {:induction false} ProductRemove(s: set<int>, x: int)
    requires x in s
    ensures Product(s) == x * Product(s - {x})
  {
    var y :| y in s && Product(s) == y * Product(s - {y});
    if y != x {
      ProductRemove(s - {y}, x);
      ProductRemove(s - {x}, y);
      assert s - {y} - {x} == s - {x} - {y};
      var r := Product(s - {x} - {y});
      assert y * (x * r) == x * (y * r);
    }
  }

  /** The residues of a, 2a, ..., ka. */
  ghost function Multiples(p: int, a: int, k: nat): set<int>
    requires p > 0
  {
    set i | 1 <= i <= k :: (a * i) % p
  }

  ghost function Upto(k: nat): (s: set<int>)
    ensures forall i :: i in s <==> 1 <= i <= k
  {
    if k == 0 then {} else Upto(k - 1) + {k}
  }

  lemma {:induction false} UptoSize(k: nat)
    ensures |Upto(k)| == k
  {
    hide Upto;
    if k > 0 {
      UptoSize(k - 1);
      assert Upto(k) == Upto(k - 1) + {k};
    } else {
      assert Upto(0) == {};
    }
  }

  lemma NewMultiple(p: int, a: int, i: int, k: int)
    requires IsPrime(p) && !Cong(p, a, 0) && 1 <= i < k < p
    ensures (a * i) % p != (a * k) % p
  {
    if (a * i) % p == (a * k) % p {
      CongMod(p, a * i);
      CongMod(p, a * k);
      CongSym(p, a * i % p, a * i);
      CongTrans(p, a * i, a * i % p, a * k);
      Cancel(p, a, i, k);
      CongUnique(p, i, k);
    }
  }

  lemma MultiplesStep(p: int, a: int, k: nat)
    requires IsPrime(p) && !Cong(p, a, 0) && 0 < k < p
    ensures Multiples(p, a, k - 1) == Multiples(p, a, k) - {(a * k) % p}
    ensures (a * k) % p in Multiples(p, a, k)
  {
    forall i | 1 <= i <= k - 1
      ensures (a * i) % p != (a * k) % p
    {
      NewMultiple(p, a, i, k);
    }
  }

  lemma {:induction false} ProductOfMultiples(p: int, a: int, k: nat)
    requires IsPrime(p) && !Cong(p, a, 0) && k < p
    ensures Cong(p, Product(Multiples(p, a, k)), Pow(a, k) * Product(Upto(k)))
    ensures |Multiples(p, a, k)| == k
  {
    if k == 0 {
      assert Multiples(p, a, 0) == {} && Upto(0) == {};
      CongRefl(p, 1);
    } else {
      var x := (a * k) % p;
      var s := Multiples(p, a, k);
      assert Pow(a, k) == a * Pow(a, k - 1);
      MultiplesStep(p, a, k);
      assert Upto(k) - {k} == Upto(k - 1);
      hide *;
      ProductOfMultiples(p, a, k - 1);
      ProductRemove(s, x);
      ProductRemove(Upto(k), k);
      CongMod(p, a * k);
      var w, f := Pow(a, k - 1), Product(Upto(k - 1));
      CongMul(p, x, a * k, Product(s - {x}), w * f);
      FactorOut(a, k, w, f);
    }
  }

  lemma FactorOut(a: int, k: int, w: int, f: int)
    ensures (a * k) * (w * f) == (a * w) * (k * f)
  {
  }

  lemma {:induction false} FactorialNonZero(p: int, k: nat)
    requires IsPrime(p) && k < p
    ensures !Cong(p, Product(Upto(k)), 0)
  {
    if k == 0 {
      assert Upto(0) == {};
      if Cong(p, 1, 0) {
        CongUnique(p, 1, 0);
      }
    } else {
      FactorialNonZero(p, k - 1);
      assert Upto(k) - {k} == Upto(k - 1);
      ProductRemove(Upto(k), k);
      if Cong(p, k * Product(Upto(k - 1)), 0) {
        EuclidLemma(p, k, Product(Upto(k - 1)));
      }
    }
  }

  lemma MultiplesAreAll(p: int, a: int)
    requires IsPrime(p) && !Cong(p, a, 0)
    ensures Multiples(p, a, p - 1) <= Upto(p - 1)
  {
    forall i | 1 <= i <= p - 1
      ensures (a * i) % p in Upto(p - 1)
    {
      CongMod(p, a * i);
      if (a * i) % p == 0 {
        NoZeroDivisors(p, a, i);
        CongUnique(p, i, 0);
      }
    }
  }

  lemma Fermat(p: int, a: int)
    requires IsPrime(p) && !Cong(p, a, 0)
    ensures Cong(p, Pow(a, p - 1), 1)
  {
    hide *;
    ProductOfMultiples(p, a, p - 1);
    UptoSize(p - 1);
    MultiplesAreAll(p, a);
    SubsetSameSize(Multiples(p, a, p - 1), Upto(p - 1));
    var f := Product(Upto(p - 1));
    FactorialNonZero(p, p - 1);
    Commute(Pow(a, p - 1), f);
    CongSym(p, f, f * Pow(a, p - 1));
    Cancel(p, f, Pow(a, p - 1), 1);
  }

  lemma SubsetSameSize(s: set<int>, t: set<int>)
    requires s <= t && |s| == |t|
    ensures s == t
  {
    assert |t - s| == 0;
  }

  /** a^(p-2) inverts every a that p does not divide. */
  lemma FermatInverse(p: int, a: int)
    requires IsPrime(p) && !Cong(p, a, 0)
    ensures Cong(p, a * Pow(a, p - 2), 1)
  {
    Fermat(p, a);
    assert Pow(a, p - 1) == a * Pow(a, p - 2);
  }
}

/** Inverses modulo a prime, Euclid's lemma and Fermat's little theorem. */
module Fermat {
  import opened Arith

  /** Every residue but zero has an inverse: divide the prime by it and recurse on the remainder. */
  lemma {:induction false} InverseExists(p: nat, a: nat) returns (b: int)
    requires IsPrime(p) && 0 < a < p
    ensures Cong(a * b, 1, p)
    decreases a
  {
    if a == 1 {
      b := 1;
    } else {
      var q, r := p / a, p % a;
      DivMod(p, a);
      assert !Divides(a, p);
      var c := InverseExists(p, r);
      b := -(q * c);
      // a * b == -(p - r) * c, which is r * c less a multiple of p
      NegatedProduct(a, q, c);
      assert a * b == r * c - p * c by { assert q * a == p - r; assert (p - r) * c == p * c - r * c; }
      assert r * c == a * b + c * p;
      CongBy(r * c, a * b, p, c);
    }
  }

  lemma NegatedProduct(a: int, q: int, c: int)
    ensures a * -(q * c) == -((q * a) * c)
  {}

  /** Euclid's lemma, as the right to cancel a factor. */
  lemma CancelFactor(p: nat, a: nat, x: int, y: int)
    requires IsPrime(p) && !Divides(p, a) && Cong(a * x, a * y, p)
    ensures Cong(x, y, p)
  {
    CongMod(a, p);
    var b := InverseExists(p, a % p);
    CongMul(a, a % p, b, b, p);
    Cancelled(p, a, b, x);
    Cancelled(p, a, b, y);
    CongMul(a * x, a * y, b, b, p);
  }

  lemma Cancelled(p: nat, a: int, b: int, x: int)
    requires p > 0 && Cong(a * b, 1, p)
    ensures Cong((a * x) * b, x, p)
  {
    CongMul(a * b, 1, x, x, p);
    assert (a * x) * b == (a * b) * x;
  }

  lemma {:induction false} PowCong(a: nat, b: nat, e: nat, m: nat)
    requires m > 0 && Cong(a, b, m)
    ensures Cong(Pow(a, e), Pow(b, e), m)
  {
    if e > 0 {
      PowCong(a, b, e - 1, m);
      CongMul(a, b, Pow(a, e - 1), Pow(b, e - 1), m);
    }
  }

  function Product(s: seq<nat>): nat
  {
    if |s| == 0 then 1 else s[0] * Product(s[1..])
  }

  lemma {:induction false} ProductConcat(s: seq<nat>, t: seq<nat>)
    ensures Product(s + t) == Product(s) * Product(t)
  {
    if |s| == 0 {
      assert s + t == t;
    } else {
      ProductConcat(s[1..], t);
      assert (s + t)[1..] == s[1..] + t;
      Assoc(s[0], Product(s[1..]), Product(t));
    }
  }

  function Without<T>(s: seq<T>, k: nat): (t: seq<T>)
    requires k < |s|
    ensures multiset(s) == multiset(t) + multiset{s[k]}
  {
    assert s == s[..k] + [s[k]] + s[k + 1..];
    s[..k] + s[k + 1..]
  }

  /** A product does not depend on the order of its factors. */
  lemma {:induction false} ProductPermuted(s: seq<nat>, t: seq<nat>)
    requires multiset(s) == multiset(t)
    ensures Product(s) == Product(t)
    decreases |s|
  {
    assert |s| == |multiset(s)| == |multiset(t)| == |t|;
    if |s| > 0 {
      assert s == [s[0]] + s[1..];
      assert s[0] in multiset(t);
      var k :| 0 <= k < |t| && t[k] == s[0];
      assert multiset(s) == multiset{s[0]} + multiset(s[1..]);
      CancelElement(multiset(s[1..]), multiset(Without(t, k)), s[0]);
      ProductPermuted(s[1..], Without(t, k));
      ProductWithout(t, k);
    }
  }

  lemma CancelElement(a: multiset<nat>, b: multiset<nat>, x: nat)
    requires a + multiset{x} == b + multiset{x}
    ensures a == b
  {
    forall y ensures a[y] == b[y] {
      assert (a + multiset{x})[y] == a[y] + multiset{x}[y];
      assert (b + multiset{x})[y] == b[y] + multiset{x}[y];
    }
  }

  lemma ProductWithout(t: seq<nat>, k: nat)
    requires k < |t|
    ensures Product(t) == t[k] * Product(Without(t, k))
  {
    assert t == t[..k] + t[k..];
    ProductConcat(t[..k], t[k + 1..]);
    ProductConcat(t[..k], t[k..]);
    assert t[k..][1..] == t[k + 1..];
    MoveFront(Product(t[..k]), t[k], Product(t[k + 1..]));
  }

  lemma MoveFront(a: nat, b: nat, c: nat)
    ensures a * (b * c) == b * (a * c)
  {}

  function UpTo(n: nat): (s: seq<nat>)
    ensures |s| == n && forall i :: 0 <= i < n ==> s[i] == i + 1
  {
    seq(n, i => i + 1)
  }

  ghost predicate Distinct(s: seq<nat>)
  {
    forall i, j :: 0 <= i < j < |s| ==> s[i] != s[j]
  }

  ghost predicate Within(s: seq<nat>, n: nat)
  {
    forall i :: 0 <= i < |s| ==> 1 <= s[i] <= n
  }

  lemma WithoutLargest(s: seq<nat>, k: nat, n: nat)
    requires k < |s| && Distinct(s) && Within(s, n) && s[k] == n
    ensures Distinct(Without(s, k)) && Within(Without(s, k), n - 1) && |Without(s, k)| == |s| - 1
  {
    var t := Without(s, k);
    forall i | 0 <= i < |t| ensures 1 <= t[i] <= n - 1 {
      assert t[i] == s[if i < k then i else i + 1];
    }
  }

  /** n different numbers between 1 and n are 1, ..., n in some order. */
  lemma {:induction false} Pigeonhole(s: seq<nat>, n: nat)
    requires |s| == n && Distinct(s) && Within(s, n)
    ensures multiset(s) == multiset(UpTo(n))
    decreases n
  {
    hide *;
    if n == 0 {
      assert s == [] == UpTo(n);
    } else {
      var k := Largest(s, n);
      WithoutLargest(s, k, n);
      Pigeonhole(Without(s, k), n - 1);
      NextNumber(n);
    }
  }

  /** The largest of n different numbers between 1 and n is among them. */
  lemma Largest(s: seq<nat>, n: nat) returns (k: nat)
    requires |s| == n > 0 && Distinct(s) && Within(s, n)
    ensures k < n && s[k] == n
  {
    if n !in s {
      assert Within(s, n - 1);
      Crowded(s, n - 1);
    }
    k :| 0 <= k < n && s[k] == n;
  }

  lemma NextNumber(n: nat)
    requires n > 0
    ensures multiset(UpTo(n)) == multiset(UpTo(n - 1)) + multiset{n}
  {
    assert UpTo(n) == UpTo(n - 1) + [n];
  }

  /** At most n different numbers fit between 1 and n. */
  lemma {:induction false} Crowded(s: seq<nat>, n: nat)
    requires Distinct(s) && Within(s, n)
    ensures |s| <= n
  {
    if n == 0 {
      if |s| > 0 { Member(s, n, 0); }
    } else if n in s {
      var k :| 0 <= k < |s| && s[k] == n;
      WithoutLargest(s, k, n);
      Crowded(Without(s, k), n - 1);
    } else {
      Crowded(s, n - 1);
    }
  }

  lemma Member(s: seq<nat>, n: nat, i: nat)
    requires Within(s, n) && i < |s|
    ensures 1 <= n
  {
    assert s[i] <= n;
  }

  function Multiples(a: nat, p: nat, n: nat): (s: seq<nat>)
    requires p > 0
    ensures |s| == n && forall i :: 0 <= i < n ==> s[i] == (a * (i + 1)) % p
  {
    seq(n, i => (a * (i + 1)) % p)
  }

  lemma {:induction false} MultiplesProduct(a: nat, p: nat, n: nat)
    requires p > 0
    ensures Cong(Product(Multiples(a, p, n)), Pow(a, n) * Product(UpTo(n)), p)
  {
    if n > 0 {
      MultiplesProduct(a, p, n - 1);
      assert Multiples(a, p, n) == Multiples(a, p, n - 1) + [(a * n) % p];
      assert UpTo(n) == UpTo(n - 1) + [n];
      ProductConcat(Multiples(a, p, n - 1), [(a * n) % p]);
      ProductConcat(UpTo(n - 1), [n]);
      One((a * n) % p);
      One(n);
      CongMod(a * n, p);
      CongMul(Product(Multiples(a, p, n - 1)), Pow(a, n - 1) * Product(UpTo(n - 1)), (a * n) % p, a * n, p);
      Shuffle(Pow(a, n - 1), Product(UpTo(n - 1)), a, n);
    }
  }

  lemma One(d: nat)
    ensures Product([d]) == d
  {
    assert [d][1..] == [];
  }

  lemma Shuffle(w: nat, f: nat, a: nat, n: nat)
    ensures (w * f) * (a * n) == (a * w) * (f * n)
  {}

  lemma {:induction false} FactorialUnit(p: nat, n: nat)
    requires IsPrime(p) && n < p
    ensures !Divides(p, Product(UpTo(n)))
  {
    if n == 0 {
      DivModUnique(1, p, 0, 1);
    } else {
      FactorialUnit(p, n - 1);
      assert UpTo(n) == UpTo(n - 1) + [n];
      ProductConcat(UpTo(n - 1), [n]);
      One(n);
      if Divides(p, Product(UpTo(n))) {
        assert Cong(Product(UpTo(n - 1)) * n, Product(UpTo(n - 1)) * 0, p);
        CancelFactor(p, Product(UpTo(n - 1)), n, 0);
        DivModUnique(n, p, 0, n);
      }
    }
  }

  lemma MultiplesDistinct(a: nat, p: nat)
    requires IsPrime(p) && !Divides(p, a)
    ensures Distinct(Multiples(a, p, p - 1)) && Within(Multiples(a, p, p - 1), p - 1)
  {
    var s := Multiples(a, p, p - 1);
    forall i | 0 <= i < p - 1 ensures 1 <= s[i] <= p - 1 {
      if s[i] == 0 {
        assert Cong(a * (i + 1), a * 0, p);
        CancelFactor(p, a, i + 1, 0);
        CongSmall(i + 1, 0, p);
      }
    }
    forall i, j | 0 <= i < j < p - 1 ensures s[i] != s[j] {
      if s[i] == s[j] {
        CancelFactor(p, a, i + 1, j + 1);
        CongSmall(i + 1, j + 1, p);
      }
    }
  }

  /** Fermat's little theorem. */
  lemma LittleTheorem(p: nat, a: nat)
    requires IsPrime(p) && !Divides(p, a)
    ensures Cong(Pow(a, p - 1), 1, p)
  {
    var f := Product(UpTo(p - 1));
    MultiplesDistinct(a, p);
    Pigeonhole(Multiples(a, p, p - 1), p - 1);
    ProductPermuted(Multiples(a, p, p - 1), UpTo(p - 1));
    MultiplesProduct(a, p, p - 1);
    FactorialUnit(p, p - 1);
    assert Pow(a, p - 1) * f == f * Pow(a, p - 1);
    CancelFactor(p, f, Pow(a, p - 1), 1);
  }
}

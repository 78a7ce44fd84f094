/** Remainders, divisors, and the greatest common divisor by repeated remainders. */
module Divisors {
  function Max(a: int, b: int): int { if a < b then b else a }

  function Min(a: int, b: int): int { if a < b then a else b }

  function Rem(a: nat, b: nat): (r: nat)
    requires b > 0
    ensures r < b
  {
    a % b
  }

  predicate Divides(d: nat, a: nat) { d > 0 && a % d == 0 }

  function Euclid(y: nat, z: nat): nat
    decreases y + z
  {
    if y == 0 || z == 0 then Max(y, z)
    else if y > z then Euclid(Rem(y, z), z)
    else Euclid(y, Rem(z, y))
  }

  lemma DividesMul(d: nat, k: nat)
    requires d > 0
    ensures Divides(d, d * k)
  {
    DivisionIs(d * k, d, k, 0);
  }

  lemma MulOrder(d: nat, x: nat, y: nat)
    ensures x <= y ==> d * x <= d * y
  {
    if x <= y {
      assert d * y == d * x + d * (y - x);
    }
  }

  /** A division is known by its quotient and remainder. */
  lemma DivisionIs(a: nat, d: nat, q: nat, r: nat)
    requires r < d && a == d * q + r
    ensures a / d == q && a % d == r
  {
    var q' := a / d;
    assert a == d * q' + a % d;
    MulOrder(d, q + 1, q');
    MulOrder(d, q' + 1, q);
  }

  lemma Quotient(d: nat, a: nat) returns (k: nat)
    requires Divides(d, a)
    ensures d > 0 && a == d * k
  {
    k := a / d;
  }

  lemma DividesAdd(d: nat, a: nat, b: nat)
    requires Divides(d, a) && Divides(d, b)
    ensures Divides(d, a + b)
  {
    var i := Quotient(d, a);
    var j := Quotient(d, b);
    assert a + b == d * (i + j) by {
      hide Divides;
      assert d * (i + j) == d * i + d * j;
    }
    DividesMul(d, i + j);
  }

  lemma DividesSub(d: nat, a: nat, b: nat)
    requires Divides(d, a) && Divides(d, b) && a >= b
    ensures Divides(d, a - b)
  {
    hide Divides;
    var i := Quotient(d, a);
    var j := Quotient(d, b);
    if i < j {
      assert d * j == d * i + d * (j - i);
      DividesMul(d, 0);
    } else {
      assert d * i == d * j + d * (i - j);
      DividesMul(d, i - j);
    }
  }

  lemma DividesTimes(d: nat, b: nat, q: nat)
    requires Divides(d, b)
    ensures Divides(d, b * q)
  {
    hide Divides;
    var k := Quotient(d, b);
    assert b * q == d * (k * q);
    DividesMul(d, k * q);
  }

  lemma DividesTrans(d: nat, a: nat, b: nat)
    requires Divides(d, a) && Divides(a, b)
    ensures Divides(d, b)
  {
    hide Divides;
    var k := Quotient(a, b);
    DividesTimes(d, a, k);
  }

  lemma RemSplit(a: nat, b: nat) returns (q: nat)
    requires b > 0
    ensures a == b * q + Rem(a, b)
  {
    q := a / b;
  }

  /** Taking a remainder keeps the common divisors. */
  lemma DividesRem(d: nat, a: nat, b: nat)
    requires b > 0 && Divides(d, b)
    ensures Divides(d, a) <==> Divides(d, Rem(a, b))
  {
    hide Divides, Rem;
    var q := RemSplit(a, b);
    DividesTimes(d, b, q);
    if Divides(d, a) {
      DividesSub(d, a, b * q);
    }
    if Divides(d, Rem(a, b)) {
      DividesAdd(d, b * q, Rem(a, b));
    }
  }

  lemma DividesLe(d: nat, a: nat)
    requires Divides(d, a) && a > 0
    ensures d <= a
  {
  }

  lemma DividesEnds(d: nat)
    requires d > 0
    ensures Divides(d, 0) && Divides(d, d)
  {
  }

  /** The loop stops at the greatest common divisor: it divides both numbers and
      every common divisor divides it. */
  lemma {:induction false} EuclidIsGcd(y: nat, z: nat)
    requires y > 0 || z > 0
    ensures Divides(Euclid(y, z), y) && Divides(Euclid(y, z), z)
    ensures forall d: nat :: Divides(d, y) && Divides(d, z) ==> Divides(d, Euclid(y, z))
    decreases y + z
  {
    hide Divides, Rem;
    if y == 0 || z == 0 {
      DividesEnds(Max(y, z));
    } else if y > z {
      EuclidIsGcd(Rem(y, z), z);
      DividesRem(Euclid(y, z), y, z);
      forall d: nat | Divides(d, y) && Divides(d, z) ensures Divides(d, Euclid(y, z)) {
        DividesRem(d, y, z);
      }
    } else {
      EuclidIsGcd(y, Rem(z, y));
      DividesRem(Euclid(y, z), z, y);
      forall d: nat | Divides(d, y) && Divides(d, z) ensures Divides(d, Euclid(y, z)) {
        DividesRem(d, z, y);
      }
    }
  }

  /** When the second number already divides the first there is nothing to reduce. */
  lemma EuclidOfMultiple(y: nat, z: nat)
    requires Divides(z, y)
    ensures Euclid(y, z) == z
  {
    hide Euclid;
    EuclidIsGcd(y, z);
    var g := Euclid(y, z);
    DividesLe(z, g) by { assert Divides(z, g); assert g > 0; }
    DividesLe(g, z);
  }
}

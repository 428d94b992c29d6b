// 32-bit unsigned words, and the few facts about division that the proofs need.
module Arithmetic {

  type Word32 = w: int | 0 <= w < 0x1_0000_0000

  lemma NextMultiple(d: nat, x: int, y: int)
    requires x < y
    ensures d * x + d <= d * y
  {
    var k := y - x - 1;
    assert d * y == d * (x + 1 + k) == d * x + d + d * k;
  }

  // Quotient and remainder are determined by n == d * q + r and 0 <= r < d.
  lemma DivModUnique(n: nat, d: nat, q: nat, r: nat)
    requires 0 < d && r < d && n == d * q + r
    ensures n / d == q && n % d == r
  {
    var q', r' := n / d, n % d;
    assert n == d * q' + r';
    if q' < q {
      NextMultiple(d, q', q);
    } else if q < q' {
      NextMultiple(d, q, q');
    }
  }

  lemma RemainderAtMost(n: nat, d: nat)
    requires 0 < d
    ensures n % d <= n
    ensures n < d ==> n % d == n
    ensures d <= n ==> (n - d) % d == n % d
  {
    if n < d {
      DivModUnique(n, d, 0, n);
    } else {
      DivModUnique(n, d, (n - d) / d + 1, (n - d) % d);
    }
  }

  lemma DivModIdentity(n: nat, b: nat)
    requires 0 < b
    ensures n == b * (n / b) + n % b
    ensures b * (n / b) == n / b * b
  {
  }

  lemma MulAssociative(a: nat, b: nat, c: nat)
    ensures a * (b * c) == (a * b) * c
  {
  }

  lemma MulDistributes(a: nat, b: nat, c: nat)
    ensures a * (b + c) == a * b + a * c
  {
  }

  lemma MulCommutes(a: nat, b: nat)
    ensures a * b == b * a
  {
  }

  lemma Monotone(e: nat, a: nat, b: nat)
    requires a <= b
    ensures e * a <= e * b
  {
  }

  lemma ProductMonotone(a: nat, a': nat, b: nat, b': nat)
    requires a <= a' && b <= b'
    ensures a * b <= a' * b'
  {
    Monotone(a, b, b');
    MulCommutes(a, b');
    MulCommutes(a', b');
    Monotone(b', a, a');
  }

  // Dividing by a and then by b is dividing by a * b.
  lemma DivDiv(n: nat, a: nat, b: nat)
    requires 0 < a && 0 < b
    ensures 0 < a * b && n / (a * b) == (n / a) / b
  {
    var q, r := n / a, n % a;
    var q', r' := q / b, q % b;
    DivModIdentity(n, a);
    DivModIdentity(q, b);
    Recombine(n, a, b, q, r, q', r');
    DivModUnique(n, a * b, q', a * r' + r);
  }

  lemma Recombine(n: nat, a: nat, b: nat, q: nat, r: nat, q': nat, r': nat)
    requires n == a * q + r && q == b * q' + r' && r < a && r' < b
    ensures 0 < a * b && 0 <= a * r' + r < a * b
    ensures n == (a * b) * q' + (a * r' + r)
  {
    NextMultiple(a, r', b);
    NextMultiple(a, -1, r');
    MulDistributes(a, b * q', r');
    MulAssociative(a, b, q');
  }

  lemma QuotientSmaller(n: nat, b: nat)
    requires 2 <= b && 0 < n
    ensures n / b < n
  {
    DivModIdentity(n, b);
    var q := n / b;
    NextMultiple(q, 1, b);
  }

  // Comparing a quotient is comparing the number.
  lemma QuotientBelow(n: nat, b: nat, p: nat)
    requires 0 < b
    ensures n / b < p <==> n < b * p
  {
    DivModIdentity(n, b);
    var q := n / b;
    if q < p { NextMultiple(b, q, p); }
    else if p < q { NextMultiple(b, p, q); }
  }

  // The leading digit of what is left below weight p * b, and what is left then.
  lemma SplitDigit(n: nat, p: nat, b: nat)
    requires 0 < p && 0 < b
    ensures 0 < p * b
    ensures n % (p * b) / p == n / p % b
    ensures n % (p * b) % p == n % p
  {
    var q, r := n / p, n % p;
    var q', d := q / b, q % b;
    DivModIdentity(n, p);
    DivModIdentity(q, b);
    Recombine(n, p, b, q, r, q', d);
    DivModUnique(n, p * b, q', p * d + r);
    DivModUnique(p * d + r, p, d, r);
  }

  function Pow(b: nat, e: nat): (p: nat)
    requires 0 < b
    ensures 0 < p
  {
    if e == 0 then 1 else b * Pow(b, e - 1)
  }
}

/** Division and rounding facts the solver does not find on its own. */
module Arith {
  import opened Core

  lemma {:induction false} MulMonotone(a: nat, b: nat, k: nat)
    requires a <= b
    ensures a * k <= b * k
  {
  }

  lemma {:induction false} DivUnique(a: nat, q: nat, r: nat, b: nat)
    requires b > 0 && r < b && a == q * b + r
    ensures a / b == q && a % b == r
  {
    var d, m := a / b, a % b;
    assert a == d * b + m;
    if q > d {
      MulMonotone(d + 1, q, b);
    } else if q < d {
      MulMonotone(q + 1, d, b);
    }
  }

  /** `DivCeil(a, b)` is the least `q` with `a <= q * b`. */
  lemma {:induction false} DivCeilMeaning(a: nat, b: nat)
    requires b > 0
    ensures a <= DivCeil(a, b) * b < a + b
  {
    var n := a + b - 1;
    assert n == n / b * b + n % b;
  }

  lemma {:induction false} DivCeilUnique(a: nat, q: nat, b: nat)
    requires b > 0 && a <= q * b < a + b
    ensures DivCeil(a, b) == q
  {
    DivUnique(a + b - 1, q, a + b - 1 - q * b, b);
  }

  lemma {:induction false} DivCeilAtMost(a: nat, q: nat, b: nat)
    requires b > 0
    ensures DivCeil(a, b) <= q <==> a <= q * b
  {
    DivCeilMeaning(a, b);
    var c := DivCeil(a, b);
    if c <= q {
      MulMonotone(c, q, b);
    } else {
      MulMonotone(q + 1, c, b);
    }
  }

  lemma {:induction false} DivCeilMonotone(a: nat, a': nat, b: nat)
    requires b > 0 && a <= a'
    ensures DivCeil(a, b) <= DivCeil(a', b)
  {
    DivCeilMeaning(a', b);
    DivCeilAtMost(a, DivCeil(a', b), b);
  }

  lemma {:induction false} DivCeilStep(a: nat, b: nat)
    requires a > 0 && b > 0
    ensures DivCeil(a, b) == 1 + DivCeil(Max(a - b, 0), b)
  {
    var rest := Max(a - b, 0);
    DivCeilMeaning(rest, b);
    var q := DivCeil(rest, b);
    assert (q + 1) * b == q * b + b;
    if a < b {
      DivCeilUnique(0, 0, b);
    }
    DivCeilUnique(a, q + 1, b);
  }

  lemma {:induction false} DivMonotone(a: nat, a': nat, b: nat)
    requires b > 0 && a <= a'
    ensures a / b <= a' / b
  {
    assert a == a / b * b + a % b && a' == a' / b * b + a' % b;
    if a / b > a' / b {
      MulMonotone(a' / b + 1, a / b, b);
    }
  }

  lemma {:induction false} MulAssociates(a: nat, b: nat, c: nat)
    ensures a * (b * c) == (a * b) * c
  {
  }

  lemma {:induction false} MulDistributes(a: nat, b: nat, c: nat)
    ensures (a + b) * c == a * c + b * c
  {
  }

  /** Taking a multiple of `m` out of `a` keeps `a % m`. */
  lemma {:induction false} ModKeepsRest(a: nat, unit: nat, m: nat)
    requires unit > 0 && m > 0 && unit % m == 0
    ensures a % unit % m == a % m
  {
    var q, t, rest := a / unit, unit / m, a % unit;
    assert a == q * unit + rest;
    assert unit == t * m;
    assert rest == rest / m * m + rest % m;
    MulAssociates(q, t, m);
    MulDistributes(q * t, rest / m, m);
    DivUnique(a, q * t + rest / m, rest % m, m);
  }
}

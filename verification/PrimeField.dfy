/**
 Arithmetic modulo a prime, with the explicit inverse computed by the extended
 Euclidean algorithm. Proofs elsewhere work with congruences and reduce once at the end.
 */
module PrimeField {
  predicate Prime(q: int) {
    q >= 2 && forall d :: 1 < d < q ==> q % d != 0
  }

  /** The remainder in `[0, q)`. Proofs about sums and products hide its body and use the laws below. */
  function Mod(q: int, a: int): (m: int)
    requires q > 0
    ensures 0 <= m < q
  {
    a % q
  }

  predicate Cong(q: int, a: int, b: int)
    requires q > 0
  {
    Mod(q, a) == Mod(q, b)
  }

  lemma MultipleGrows(d: int, q: int)
    requires q > 0
    ensures d >= 1 ==> d * q >= q
    ensures d <= -1 ==> d * q <= -q
  {
  }

  lemma CongFromMultiple(q: int, a: int, b: int, k: int)
    requires q > 0 && a == b + k * q
    ensures Cong(q, a, b)
  {
    var da, db := a / q, b / q;
    assert a == da * q + a % q && b == db * q + b % q;
    var d := da - db - k;
    assert d * q == b % q - a % q by { assert d * q == da * q - db * q - k * q; }
    MultipleGrows(d, q);
  }

  lemma MultipleFromCong(q: int, a: int, b: int) returns (k: int)
    requires q > 0 && Cong(q, a, b)
    ensures a == b + k * q
  {
    k := a / q - b / q;
    assert a == (a / q) * q + a % q && b == (b / q) * q + b % q;
    assert k * q == (a / q) * q - (b / q) * q;
  }

  lemma Reduce(q: int, a: int)
    requires q > 0
    ensures Mod(q, Mod(q, a)) == Mod(q, a)
  {
  }

  lemma Canonical(q: int, a: int)
    requires 0 <= a < q
    ensures Mod(q, a) == a
  {
  }

  lemma CongAdd(q: int, a: int, a': int, b: int, b': int)
    requires q > 0 && Cong(q, a, a') && Cong(q, b, b')
    ensures Cong(q, a + b, a' + b')
  {
    hide Mod, Cong;
    var k := MultipleFromCong(q, a, a');
    var l := MultipleFromCong(q, b, b');
    assert (k + l) * q == k * q + l * q;
    CongFromMultiple(q, a + b, a' + b', k + l);
  }

  lemma CongSub(q: int, a: int, a': int, b: int, b': int)
    requires q > 0 && Cong(q, a, a') && Cong(q, b, b')
    ensures Cong(q, a - b, a' - b')
  {
    hide Mod, Cong;
    var k := MultipleFromCong(q, a, a');
    var l := MultipleFromCong(q, b, b');
    assert (k - l) * q == k * q - l * q;
    CongFromMultiple(q, a - b, a' - b', k - l);
  }

  lemma CongMul(q: int, a: int, a': int, b: int, b': int)
    requires q > 0 && Cong(q, a, a') && Cong(q, b, b')
    ensures Cong(q, a * b, a' * b')
  {
    hide Mod, Cong;
    var k := MultipleFromCong(q, a, a');
    var l := MultipleFromCong(q, b, b');
    ProductMultiple(q, a', k, b', l);
    CongFromMultiple(q, a * b, a' * b', a' * l + b' * k + k * q * l);
  }

  lemma ProductMultiple(q: int, a: int, k: int, b: int, l: int)
    ensures (a + k * q) * (b + l * q) == a * b + (a * l + b * k + k * q * l) * q
  {
    var kq, lq := k * q, l * q;
    assert (a + kq) * (b + lq) == a * b + a * lq + kq * b + kq * lq;
    Associate(a, l, q);
    Associate(kq, l, q);
    Associate(b, k, q);
    assert kq * b == b * kq;
  }

  lemma Associate(a: int, b: int, c: int)
    ensures (a * b) * c == a * (b * c)
  {
  }

  /** Reducing the factors or terms first does not change a product, sum or difference modulo `q`. */
  lemma ReduceMul(q: int, a: int, b: int)
    requires q > 0
    ensures Mod(q, a * Mod(q, b)) == Mod(q, a * b)
    ensures Mod(q, Mod(q, a) * b) == Mod(q, a * b)
  {
    hide Mod;
    Reduce(q, a);
    Reduce(q, b);
    CongMul(q, a, a, Mod(q, b), b);
    CongMul(q, Mod(q, a), a, b, b);
  }

  lemma ReduceAdd(q: int, a: int, b: int)
    requires q > 0
    ensures Mod(q, a + Mod(q, b)) == Mod(q, a + b)
    ensures Mod(q, Mod(q, a) + b) == Mod(q, a + b)
  {
    hide Mod;
    Reduce(q, a);
    Reduce(q, b);
    CongAdd(q, a, a, Mod(q, b), b);
    CongAdd(q, Mod(q, a), a, b, b);
  }

  lemma ReduceSub(q: int, a: int, b: int)
    requires q > 0
    ensures Mod(q, a - Mod(q, b)) == Mod(q, a - b)
    ensures Mod(q, Mod(q, a) - b) == Mod(q, a - b)
  {
    hide Mod;
    Reduce(q, a);
    Reduce(q, b);
    CongSub(q, a, a, Mod(q, b), b);
    CongSub(q, Mod(q, a), a, b, b);
  }

  lemma ReduceSum3(q: int, a: int, b: int, c: int)
    requires q > 0
    ensures Mod(q, Mod(q, Mod(q, a) + Mod(q, b)) + Mod(q, c)) == Mod(q, a + b + c)
  {
    hide Mod;
    var x, z := Mod(q, a) + Mod(q, b), Mod(q, c);
    Reduce(q, a);
    Reduce(q, b);
    Reduce(q, c);
    Reduce(q, x);
    CongAdd(q, Mod(q, a), a, Mod(q, b), b);
    CongAdd(q, Mod(q, x), a + b, z, c);
  }

  /** Extended Euclid: `g == a*x + b*y`, with the cofactors `a == u*g` and `b == v*g`. */
  datatype Bezout = Bezout(g: int, x: int, y: int, u: int, v: int)

  function ExtendedEuclid(a: nat, b: nat): (r: Bezout)
    requires a + b > 0
    ensures r.g > 0
    ensures r.g == a * r.x + b * r.y
    ensures a == r.u * r.g && b == r.v * r.g
    decreases b
  {
    if b == 0 then
      Bezout(a, 1, 0, 1, 0)
    else
      var t := ExtendedEuclid(b, a % b);
      EuclidStep(a, b, t);
      Bezout(t.g, t.y, t.x - (a / b) * t.y, (a / b) * t.u + t.v, t.u)
  }

  lemma EuclidStep(a: nat, b: nat, t: Bezout)
    requires b > 0
    requires t.g == b * t.x + (a % b) * t.y
    requires b == t.u * t.g && a % b == t.v * t.g
    ensures t.g == a * t.y + b * (t.x - (a / b) * t.y)
    ensures a == ((a / b) * t.u + t.v) * t.g
  {
    var d := a / b;
    assert a == d * b + a % b;
    calc {
      a * t.y + b * (t.x - d * t.y);
      a * t.y + b * t.x - b * (d * t.y);
      { assert b * (d * t.y) == (d * b) * t.y; }
      b * t.x + a * t.y - (d * b) * t.y;
      { assert a * t.y - (d * b) * t.y == (a - d * b) * t.y; }
      b * t.x + (a % b) * t.y;
    }
    assert (d * t.u + t.v) * t.g == d * (t.u * t.g) + t.v * t.g;
  }

  /** The inverse of `a` modulo the prime `q`, for `a` not divisible by `q`. */
  function Inverse(q: int, a: int): (i: int)
    requires Prime(q) && Mod(q, a) != 0
    ensures 0 <= i < q
    ensures Mod(q, a * i) == 1
  {
    var r := ExtendedEuclid(Mod(q, a), q);
    InverseCorrect(q, a, r);
    Mod(q, r.x)
  }

  /** A common divisor of a prime and a smaller positive number is 1. */
  lemma DivisorIsOne(q: int, m: int, r: Bezout)
    requires Prime(q) && 0 < m < q
    requires r.g > 0 && m == r.u * r.g && q == r.v * r.g
    ensures r.g == 1
  {
    MultipleGrows(r.u, r.g);
    CongFromMultiple(r.g, q, 0, r.v);
  }

  lemma InverseCorrect(q: int, a: int, r: Bezout)
    requires Prime(q) && Mod(q, a) != 0
    requires r.g > 0 && r.g == Mod(q, a) * r.x + q * r.y
    requires Mod(q, a) == r.u * r.g && q == r.v * r.g
    ensures Mod(q, a * Mod(q, r.x)) == 1
  {
    hide Mod;
    var m := Mod(q, a);
    DivisorIsOne(q, m, r);
    assert (-r.y) * q == -(q * r.y);
    CongFromMultiple(q, m * r.x, 1, -r.y);
    Canonical(q, 1);
    ReduceMul(q, a, r.x);
  }

  /** Dividing a congruence by a unit: from `a*d == b` follows `a == b/d`. */
  lemma DivideCong(q: int, a: int, b: int, d: int)
    requires Prime(q) && Mod(q, d) != 0
    requires Cong(q, a * d, b)
    ensures Cong(q, a, b * Inverse(q, d))
  {
    hide Mod, Inverse, Prime;
    var i := Inverse(q, d);
    Canonical(q, 1);
    CongMul(q, a * d, b, i, i);
    CongMul(q, a, a, d * i, 1);
    Associate(a, d, i);
    assert a * 1 == a;
  }

  lemma NonzeroDifference(q: int, a: int, b: int)
    requires 0 <= a < q && 0 <= b < q && a != b
    ensures Mod(q, a - b) != 0
  {
  }

  lemma ZeroDifference(q: int, u: int, v: int)
    requires q > 0
    ensures Mod(q, u - v) == 0 <==> Cong(q, u, v)
  {
    hide Mod;
    Canonical(q, 0);
    if Mod(q, u - v) == 0 {
      CongAdd(q, u - v, 0, v, v);
    }
    if Cong(q, u, v) {
      CongSub(q, u, v, v, v);
    }
  }
}

/** Primes, common divisors and steps around a ring. */
module Numbers {

  predicate Divides(d: nat, n: nat) { 0 < d && n % d == 0 }

  ghost predicate IsPrime(p: nat) { 2 <= p && forall d :: 1 < d < p ==> !Divides(d, p) }

  ghost predicate Coprime(a: nat, b: nat) { forall d :: 1 < d && Divides(d, a) ==> !Divides(d, b) }

  lemma DividesBound(d: nat, n: nat)
    requires Divides(d, n) && 0 < n
    ensures d <= n
  {
  }

  /** A prime that does not divide n shares no divisor with it. */
  lemma PrimeCoprime(p: nat, n: nat)
    requires IsPrime(p) && n % p != 0
    ensures Coprime(p, n)
  {
    forall d | 1 < d && Divides(d, p) ensures !Divides(d, n) {
      DividesBound(d, p);
    }
  }

  lemma ModOf(a: int, n: nat, q: int)
    requires 0 < n
    ensures (a + q * n) % n == a % n
  {
    var r := a % n;
    var k := a / n;
    assert a == k * n + r;
    assert a + q * n == (k + q) * n + r by { Distribute(k, q, n); }
    UniqueMod(a + q * n, n, k + q, r);
  }

  lemma Distribute(k: int, q: int, n: int)
    ensures (k + q) * n == k * n + q * n
  {
  }

  lemma UniqueMod(a: int, n: nat, q: int, r: int)
    requires 0 <= r < n && a == q * n + r
    ensures a % n == r
  {
    var q', r' := a / n, a % n;
    assert a == q' * n + r' && 0 <= r' < n;
    if q' < q { assert (q - q') * n >= n by { AtLeast(q - q', n); } Distribute(q, -q', n); }
    if q < q' { assert (q' - q) * n >= n by { AtLeast(q' - q, n); } Distribute(q', -q, n); }
  }

  lemma AtLeast(k: int, n: nat)
    requires 1 <= k
    ensures k * n >= n
  {
  }

  /** d divides a combination of multiples of it. */
  lemma DividesSum(d: nat, a: nat, b: nat, q: nat)
    requires Divides(d, b) && Divides(d, a) && 0 < d
    ensures Divides(d, a + q * b)
  {
    var k := b / d;
    assert b == k * d;
    assert q * b == (q * k) * d by { Assoc(q, k, d); }
    ModOf(a, d, q * k);
  }

  lemma Assoc(a: int, b: int, c: int)
    ensures a * (b * c) == (a * b) * c
  {
  }

  /** Euclid's algorithm with its coefficients: x * a + y * b is a common divisor of a and b. */
  lemma {:induction false} Bezout(a: nat, b: nat) returns (x: int, y: int, g: nat)
    requires 0 < a || 0 < b
    ensures 0 < g && Divides(g, a) && Divides(g, b) && x * a + y * b == g
    decreases b
  {
    if b == 0 {
      x, y, g := 1, 0, a;
    } else {
      var q, r := a / b, a % b;
      assert a == q * b + r;
      var x', y';
      x', y', g := Bezout(b, r);
      x, y := y', x' - q * y';
      DividesSum(g, r, b, q);
      assert r + q * b == a;
      BezoutStep(a, b, q, r, x', y', g);
    }
  }

  lemma BezoutStep(a: int, b: int, q: int, r: int, x: int, y: int, g: int)
    requires a == q * b + r && x * b + y * r == g
    ensures y * a + (x - q * y) * b == g
  {
    assert y * a == y * (q * b) + y * r;
    Assoc(y, q, b);
    Distribute(x, -(q * y), b);
  }

  // ---------------------------------------------------------------- walking round a ring

  /** The i-th slot of a walk from `home` by `step` in a ring of n slots. */
  function Probe(home: nat, step: nat, n: nat, i: nat): (p: nat)
    requires 0 < n
    ensures p < n
  {
    (home + i * step) % n
  }

  lemma ProbeNext(home: nat, step: nat, n: nat, i: nat)
    requires 0 < n
    ensures Probe(home, step, n, i + 1) == (Probe(home, step, n, i) + step) % n
  {
    var a := home + i * step;
    var k := a / n;
    assert a == k * n + a % n;
    assert home + (i + 1) * step == a + step by { Distribute(i, 1, step); }
    ModOf(a % n + step, n, k);
  }

  /** A walk whose step is coprime to the size of the ring comes to every slot within one round. */
  lemma EverySlotVisited(home: nat, step: nat, n: nat, target: nat) returns (i: nat)
    requires 0 < n && home < n && target < n && Coprime(step, n)
    ensures i < n && Probe(home, step, n, i) == target
  {
    var x, y := BezoutOne(step, n);
    var t := target - home;
    var d := t * x;
    i := d % n;
    var k := d / n;
    assert d == k * n + i;
    VisitArith(t, x, y, n, step, k, i, d);
    VisitMod(home, target, n, i * step, t * y + k * step);
  }

  lemma BezoutOne(a: nat, b: nat) returns (x: int, y: int)
    requires 0 < b && Coprime(a, b)
    ensures x * a + y * b == 1
  {
    var g;
    x, y, g := Bezout(a, b);
    assert Divides(g, a) && Divides(g, b);
  }

  lemma VisitMod(home: nat, target: nat, n: nat, m: int, e: int)
    requires 0 < n && target < n && m == target - home - e * n
    ensures (home + m) % n == target
  {
    ModOf(target, n, -e);
    Opposite(e, n);
  }

  lemma Opposite(e: int, n: int)
    ensures (-e) * n == -(e * n)
  {
  }

  lemma VisitArith(t: int, x: int, y: int, n: int, step: int, k: int, i: int, d: int)
    requires x * step + y * n == 1 && d == t * x && d == k * n + i
    ensures i * step == t - (t * y + k * step) * n
  {
    assert i == t * x - k * n;
    assert i * step == (t * x) * step - (k * n) * step by { Distribute(t * x, -(k * n), step); }
    Assoc(t, x, step);
    assert t * (x * step) == t * (1 - y * n);
    assert t * (1 - y * n) == t - t * (y * n);
    Assoc(t, y, n);
    assert (k * n) * step == (k * step) * n;
    Distribute(t * y, k * step, n);
  }
}

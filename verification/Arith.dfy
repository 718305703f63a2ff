/** Facts about products, quotients and powers. */
module Arith {

  lemma MulMono(a: int, b: int, c: int)
    requires a <= b && 0 <= c
    ensures a * c <= b * c
  { }

  lemma DivMono(m: int, n: int, d: int)
    requires m <= n && d > 0
    ensures m / d <= n / d && (0 <= m ==> 0 <= m / d)
  {
    var q, q' := m / d, n / d;
    if q > q' {
      MulMono(q' + 1, q, d);
      assert false;
    }
  }

  lemma SmallMultiple(d: int, x: int)
    requires d > 0 && -d < d * x < d
    ensures x == 0
  {
    if x >= 1 {
      MulMono(1, x, d);
      assert false;
    } else if x <= -1 {
      MulMono(x, -1, d);
      assert false;
    }
  }

  lemma DivUnique(n: int, d: int, q: int, r: int)
    requires d > 0 && n == d * q + r && 0 <= r < d
    ensures n / d == q && n % d == r
  {
    var q', r' := n / d, n % d;
    assert n == d * q' + r';
    assert d * (q - q') == d * q - d * q';
    SmallMultiple(d, q - q');
  }

  lemma DivShift(n: int, d: int, k: int)
    requires d > 0
    ensures (n + k * d) / d == n / d + k
    ensures (n + k * d) % d == n % d
  {
    assert n + k * d == d * (n / d + k) + n % d;
    DivUnique(n + k * d, d, n / d + k, n % d);
  }

  /** Congruent numbers have the same remainder. */
  lemma ModUnique(x: int, y: int, m: int, k: int)
    requires m > 0 && x == y + k * m
    ensures x % m == y % m
  {
    DivShift(y, m, k);
  }

  lemma ModMulLeft(x: int, y: int, m: int)
    requires m > 0
    ensures ((x % m) * y) % m == (x * y) % m
  {
    var q := x / m;
    assert x == m * q + x % m;
    assert x * y == (x % m) * y + (q * y) * m;
    ModUnique(x * y, (x % m) * y, m, q * y);
  }

  lemma ModAddLeft(x: int, y: int, m: int)
    requires m > 0
    ensures (x % m + y) % m == (x + y) % m
  {
    ModUnique(x + y, x % m + y, m, x / m);
  }

  lemma ModScale(c: int, x: int, m: int)
    requires c > 0 && m > 0
    ensures c * (x % m) == (c * x) % (c * m)
  {
    var q, r := x / m, x % m;
    assert c * m > 0;
    assert c * x == (c * m) * q + c * r;
    MulMono(0, r, c);
    MulMono(r + 1, m, c);
    DivUnique(c * x, c * m, q, c * r);
  }

  lemma DivDiv(x: int, a: int, b: int)
    requires a > 0 && b > 0
    ensures (x / a) / b == x / (a * b)
  {
    var q, r := x / a, x % a;
    var q', r' := q / b, q % b;
    assert a * b > 0;
    assert x == a * q + r && q == b * q' + r';
    assert a * q == a * (b * q' + r') == (a * b) * q' + a * r';
    MulMono(0, r', a);
    MulMono(r' + 1, b, a);
    DivUnique(x, a * b, q', a * r' + r);
  }

  // ---------- powers ----------

  function Pow(b: int, e: nat): int {
    if e == 0 then 1 else b * Pow(b, e - 1)
  }

  lemma {:induction false} PowPos(b: int, e: nat)
    requires b > 0
    ensures Pow(b, e) > 0
  {
    if e > 0 { PowPos(b, e - 1); }
  }

  lemma {:induction false} PowAdd(b: int, m: nat, n: nat)
    ensures Pow(b, m + n) == Pow(b, m) * Pow(b, n)
  {
    if m > 0 {
      PowAdd(b, m - 1, n);
      assert Pow(b, m + n) == b * (Pow(b, m - 1) * Pow(b, n)) == Pow(b, m) * Pow(b, n);
    }
  }

  lemma {:induction false} PowMul(b: int, m: nat, n: nat)
    ensures Pow(Pow(b, m), n) == Pow(b, m * n)
  {
    if n == 0 {
      assert m * n == 0;
    } else {
      PowMul(b, m, n - 1);
      assert m * n == m + m * (n - 1);
      PowAdd(b, m, m * (n - 1));
    }
  }

  lemma {:induction false} PowGrows(b: int, m: nat, n: nat)
    requires b >= 1 && m <= n
    ensures Pow(b, m) <= Pow(b, n)
  {
    if m < n {
      PowGrows(b, m, n - 1);
      PowPos(b, n - 1);
      MulMono(1, b, Pow(b, n - 1));
    }
  }

  lemma {:induction false} PowBaseGrows(a: int, b: int, e: nat)
    requires 0 <= a <= b
    ensures 0 <= Pow(a, e) <= Pow(b, e)
  {
    if e > 0 {
      PowBaseGrows(a, b, e - 1);
      MulMono(a, b, Pow(a, e - 1));
      MulMono(Pow(a, e - 1), Pow(b, e - 1), b);
      assert 0 <= a * Pow(a, e - 1) by { MulMono(0, a, Pow(a, e - 1)); }
    }
  }

  // ---------- bitwise operations on naturals ----------

  function BitOr(x: nat, y: nat): nat
    decreases x + y
  {
    if x == 0 && y == 0 then 0
    else (if x % 2 == 1 || y % 2 == 1 then 1 else 0) + 2 * BitOr(x / 2, y / 2)
  }

  function BitAnd(x: nat, y: nat): nat {
    if x == 0 || y == 0 then 0
    else (if x % 2 == 1 && y % 2 == 1 then 1 else 0) + 2 * BitAnd(x / 2, y / 2)
  }

  /** Numbers without a common bit are combined by adding them. */
  lemma {:induction false} OrDisjoint(q: nat, y: nat, s: nat)
    requires y < Pow(2, s)
    ensures Pow(2, s) * q >= 0 && BitOr(Pow(2, s) * q, y) == Pow(2, s) * q + y
    decreases s
  {
    if s == 0 {
      OrZero(q);
    } else {
      PowPos(2, s - 1);
      var p := Pow(2, s - 1);
      MulMono(0, p, q);
      assert Pow(2, s) * q == 2 * (p * q);
      DivUnique(2 * (p * q), 2, p * q, 0);
      OrDisjoint(q, y / 2, s - 1);
    }
  }

  lemma {:induction false} OrZero(x: nat)
    ensures BitOr(x, 0) == x
  {
    if x > 0 { OrZero(x / 2); }
  }

  lemma {:induction false} AndBelow(x: nat, y: nat)
    ensures BitAnd(x, y) <= x && BitAnd(x, y) <= y
  {
    if x > 0 && y > 0 { AndBelow(x / 2, y / 2); }
  }
}

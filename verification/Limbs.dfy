/** Unsigned integers as little-endian sequences of 32-bit limbs: what they stand for, and
    what shifting and cutting limbs does to it. */
module Limbs {
  import opened Arith

  const BASE := 0x1_0000_0000

  ghost predicate LimbsOk(s: seq<int>) {
    forall i :: 0 <= i < |s| ==> 0 <= s[i] < BASE
  }

  /** The number a sequence of limbs stands for, least significant first. */
  function Value(s: seq<int>): int {
    if s == [] then 0 else s[0] + BASE * Value(s[1..])
  }

  lemma {:induction false} ValueBound(s: seq<int>)
    requires LimbsOk(s)
    ensures 0 <= Value(s) < Pow(BASE, |s|)
  {
    if s != [] {
      ValueBound(s[1..]);
    }
  }

  lemma {:induction false} ValueConcat(s: seq<int>, t: seq<int>)
    ensures Value(s + t) == Value(s) + Pow(BASE, |s|) * Value(t)
  {
    if s == [] {
      assert s + t == t;
    } else {
      assert (s + t)[1..] == s[1..] + t;
      ValueConcat(s[1..], t);
      assert BASE * (Pow(BASE, |s| - 1) * Value(t)) == Pow(BASE, |s|) * Value(t);
    }
  }

  /** Splitting at limb `k`: the low limbs are the remainder, the high limbs the quotient by BASE^k. */
  lemma ValueSplit(s: seq<int>, k: nat)
    requires LimbsOk(s) && k <= |s|
    ensures Value(s) == Value(s[..k]) + Pow(BASE, k) * Value(s[k..])
    ensures Pow(BASE, k) > 0 && Value(s[..k]) == Value(s) % Pow(BASE, k) && Value(s[k..]) == Value(s) / Pow(BASE, k)
  {
    assert s == s[..k] + s[k..];
    ValueConcat(s[..k], s[k..]);
    ValueBound(s[..k]);
    PowPos(BASE, k);
    DivUnique(Value(s), Pow(BASE, k), Value(s[k..]), Value(s[..k]));
  }

  lemma ValueNext(s: seq<int>, k: nat)
    requires k < |s|
    ensures Value(s[..k + 1]) == Value(s[..k]) + Pow(BASE, k) * s[k]
  {
    assert s[..k + 1] == s[..k] + [s[k]];
    ValueConcat(s[..k], [s[k]]);
    assert Value([s[k]]) == s[k];
  }

  lemma {:induction false} ValueUpdate(s: seq<int>, i: nat, x: int)
    requires i < |s|
    ensures Value(s[i := x]) == Value(s) + (x - s[i]) * Pow(BASE, i)
  {
    if i > 0 {
      assert s[i := x][1..] == s[1..][i - 1 := x];
      ValueUpdate(s[1..], i - 1, x);
      assert BASE * ((x - s[i]) * Pow(BASE, i - 1)) == (x - s[i]) * Pow(BASE, i);
    } else {
      assert s[0 := x][1..] == s[1..];
    }
  }

  function Zeros(k: nat): seq<int> { seq(k, i => 0) }

  lemma {:induction false} ValueZeros(k: nat)
    ensures Value(Zeros(k)) == 0
  {
    if k > 0 {
      assert Zeros(k)[1..] == Zeros(k - 1);
      ValueZeros(k - 1);
    }
  }

  lemma {:induction false} ZeroIsZeros(s: seq<int>)
    requires LimbsOk(s) && Value(s) == 0
    ensures s == Zeros(|s|)
  {
    if s != [] {
      ValueBound(s[1..]);
      ZeroIsZeros(s[1..]);
      assert s == [s[0]] + s[1..];
    }
  }

  // ---------- shifts by less than a limb ----------

  /** Limb `i` of the number shifted left by `s` bits: what stays of this limb and what comes from the one below. */
  function ShlLimb(a: seq<int>, s: nat, i: int): int {
    (if 0 <= i < |a| then (Pow(2, s) * a[i]) % BASE else 0)
    + (if 0 <= i - 1 < |a| then (Pow(2, s) * a[i - 1]) / BASE else 0)
  }

  function ShlLimbs(a: seq<int>, s: nat): seq<int> { seq(|a|, i => ShlLimb(a, s, i)) }

  /** Limb `i` of the number shifted right by `s` bits. */
  function ShrLimb(a: seq<int>, s: nat, i: int): int
    requires s <= 32
  {
    PowPos(2, s);
    (if 0 <= i < |a| then a[i] / Pow(2, s) else 0)
    + (if 0 <= i + 1 < |a| then (Pow(2, 32 - s) * a[i + 1]) % BASE else 0)
  }

  function ShrLimbs(a: seq<int>, s: nat): seq<int>
    requires s <= 32
  {
    seq(|a|, i => ShrLimb(a, s, i))
  }

  lemma TwoTo32()
    ensures Pow(2, 32) == BASE
  {
    PowMul(2, 8, 4);
    assert Pow(2, 8) == 256;
    assert Pow(256, 4) == BASE;
  }

  lemma ShlAlgebra(v: int, p: int, c: int, w: int, va: int, xm: int, xd: int, an: int)
    requires v + p * c == w * va && w * an == BASE * xd + xm
    ensures v + p * (xm + c) + (BASE * p) * xd == w * (va + p * an)
  {
    assert w * (va + p * an) == w * va + p * (w * an);
    assert p * (BASE * xd + xm) == (BASE * p) * xd + p * xm;
  }

  lemma {:induction false} ShlValue(a: seq<int>, s: nat, n: nat)
    requires LimbsOk(a) && n <= |a|
    ensures Value(ShlLimbs(a, s)[..n]) + Pow(BASE, n) * ShlCarry(a, s, n) == Pow(2, s) * Value(a[..n])
  {
    if n > 0 {
      ShlValue(a, s, n - 1);
      var r, x := ShlLimbs(a, s), Pow(2, s) * a[n - 1];
      ValueNext(r, n - 1);
      ValueNext(a, n - 1);
      assert r[n - 1] == x % BASE + ShlCarry(a, s, n - 1);
      ShlAlgebra(Value(r[..n - 1]), Pow(BASE, n - 1), ShlCarry(a, s, n - 1), Pow(2, s), Value(a[..n - 1]), x % BASE,
        x / BASE, a[n - 1]);
      hide ShlLimbs, Value;
    }
  }

  /** What a left shift pushes out of the lowest `n` limbs. */
  function ShlCarry(a: seq<int>, s: nat, n: nat): int
    requires n <= |a|
  {
    if n == 0 then 0 else (Pow(2, s) * a[n - 1]) / BASE
  }

  lemma ShrAlgebra(a0: int, p: int, ad: int, am: int, low: int, tr: int, vt: int, rt: int)
    requires a0 == p * ad + am && p * low == BASE * tr && vt == p * rt + tr
    ensures a0 + BASE * vt == p * (ad + low + BASE * rt) + am
  {
    assert p * (ad + low + BASE * rt) == p * ad + p * low + BASE * (p * rt);
  }

  /** The bits of the next limb that a right shift by `s` brings in. */
  lemma ShrIn(x: int, s: nat)
    requires s < 32 && 0 <= x < BASE
    ensures Pow(2, s) > 0 && Pow(2, s) * ((Pow(2, 32 - s) * x) % BASE) == BASE * (x % Pow(2, s))
  {
    hide Pow;
    PowPos(2, s);
    PowPos(2, 32 - s);
    PowAdd(2, 32 - s, s);
    TwoTo32();
    ShrInAlgebra(x, Pow(2, 32 - s), Pow(2, s));
  }

  lemma ShrInAlgebra(x: int, m: int, p: int)
    requires m > 0 && p > 0 && m * p == BASE
    ensures p * ((m * x) % BASE) == BASE * (x % p)
  {
    ModScale(m, x, p);
    var r := x % p;
    assert p * (m * r) == (m * p) * r;
  }

  lemma ShrTail(a: seq<int>, s: nat)
    requires a != [] && s < 32
    ensures Pow(2, s) > 0 && |ShrLimbs(a, s)| == |a| && ShrLimbs(a, s)[1..] == ShrLimbs(a[1..], s)
    ensures ShrLimbs(a, s)[0] == a[0] / Pow(2, s) + if |a| == 1 then 0 else (Pow(2, 32 - s) * a[1]) % BASE
  {
    hide Pow;
    PowPos(2, s);
  }

  /** What a right shift drops: the lowest bits of the lowest limb. */
  function ShrOut(a: seq<int>, s: nat): int {
    PowPos(2, s);
    if a == [] then 0 else a[0] % Pow(2, s)
  }

  lemma ShrStep(a: seq<int>, s: nat, vt: int, rt: int)
    requires LimbsOk(a) && a != [] && s < 32
    requires vt == Pow(2, s) * rt + ShrOut(a[1..], s)
    ensures a[0] + BASE * vt == Pow(2, s) * (ShrLimbs(a, s)[0] + BASE * rt) + ShrOut(a, s)
  {
    hide Pow;
    PowPos(2, s);
    ShrTail(a, s);
    var p := Pow(2, s);
    var low := if |a| == 1 then 0 else (Pow(2, 32 - s) * a[1]) % BASE;
    if |a| > 1 { ShrIn(a[1], s); }
    ShrAlgebra(a[0], p, a[0] / p, a[0] % p, low, ShrOut(a[1..], s), vt, rt);
  }

  lemma {:induction false} ShrValue(a: seq<int>, s: nat)
    requires LimbsOk(a) && s < 32
    ensures Value(a) == Pow(2, s) * Value(ShrLimbs(a, s)) + ShrOut(a, s)
  {
    hide Pow, ShrOut;
    if a == [] {
      assert ShrLimbs(a, s) == [];
      ShrOutNone(s);
    } else {
      ShrValue(a[1..], s);
      ShrTail(a, s);
      ShrStep(a, s, Value(a[1..]), Value(ShrLimbs(a[1..], s)));
    }
  }

  lemma ShrOutNone(s: nat)
    ensures ShrOut([], s) == 0
  { }
}

/** Where the skip pointers of the block index lead, and how many steps back to an ancestor take. */
module SkipList {
  import opened Arith

  function InvertLowestOne(n: nat): nat {
    if n == 0 then 0 else BitAnd(n, n - 1)
  }

  function GetSkipHeight(height: nat): nat {
    if height < 2 then 0
    else if height % 2 == 1 then InvertLowestOne(InvertLowestOne(height - 1)) + 1
    else InvertLowestOne(height)
  }

  lemma {:induction false} AndSelf(n: nat)
    ensures BitAnd(n, n) == n
  {
    if n > 0 { AndSelf(n / 2); }
  }

  /** The lowest one bit, at position k, is the only one to go. */
  lemma {:induction false} LowestOneGoes(k: nat, m: nat)
    ensures Pow(2, k) * (2 * m + 1) > 0
    ensures InvertLowestOne(Pow(2, k) * (2 * m + 1)) == Pow(2, k + 1) * m
    decreases k
  {
    if k == 0 {
      OddLosesOne(m);
      assert Pow(2, 0) == 1 && Pow(2, 1) == 2;
    } else {
      LowestOneGoes(k - 1, m);
      var n := Pow(2, k - 1) * (2 * m + 1);
      DoublePow(k - 1, 2 * m + 1);
      DoublePow(k, m);
      hide Pow;
      EvenKeepsZero(n);
    }
  }

  lemma DoublePow(k: nat, x: int)
    ensures Pow(2, k + 1) * x == 2 * (Pow(2, k) * x)
  { }

  lemma OddLosesOne(m: nat)
    ensures InvertLowestOne(2 * m + 1) == 2 * m
  {
    AndSelf(m);
  }

  lemma EvenKeepsZero(n: nat)
    requires n > 0
    ensures InvertLowestOne(2 * n) == 2 * InvertLowestOne(n)
  {
    assert (2 * n - 1) / 2 == n - 1 && (2 * n) / 2 == n;
  }

  /** A skip pointer leads to a lower height. */
  lemma SkipsBack(height: nat)
    ensures GetSkipHeight(height) <= height && (height > 0 ==> GetSkipHeight(height) < height)
  {
    if height >= 2 {
      AndBelow(height, height - 1);
      AndBelow(height - 1, height - 2);
      var n := InvertLowestOne(height - 1);
      if n > 0 { AndBelow(n, n - 1); }
    }
  }

  // ----- Ones -----

  function Ones(n: nat): nat { if n == 0 then 0 else n % 2 + Ones(n / 2) }

  lemma OnesDigit(m: nat, d: nat)
    requires d < 2
    ensures Ones(2 * m + d) == Ones(m) + d
  {
    assert (2 * m + d) / 2 == m && (2 * m + d) % 2 == d;
  }

  lemma NoOnes()
    ensures Ones(0) == 0 && InvertLowestOne(0) == 0
  { }

  lemma Halves(m: nat)
    ensures InvertLowestOne(2 * m) == 2 * InvertLowestOne(m) && InvertLowestOne(2 * m + 1) == 2 * m
  {
    OddLosesOne(m);
    if m > 0 { EvenKeepsZero(m); }
  }

  /** The lowest one goes. */
  lemma {:induction false} OneLess(n: nat)
    requires n > 0
    ensures InvertLowestOne(n) < n && Ones(InvertLowestOne(n)) == Ones(n) - 1
  {
    hide InvertLowestOne, Ones;
    var m := n / 2;
    Halves(m);
    OnesDigit(m, n % 2);
    if n % 2 == 1 {
      OnesDigit(m, 0);
    } else {
      OneLess(m);
      OnesDigit(InvertLowestOne(m), 0);
    }
  }

  lemma NotMore(n: nat)
    ensures InvertLowestOne(n) <= n
  {
    if n > 0 { OneLess(n); }
  }

  lemma {:induction false} NoneLeft(n: nat)
    requires Ones(n) == 0
    ensures n == 0
  {
    if n > 0 { NoneLeft(n / 2); }
  }

  /** What is above it does not matter. */
  lemma {:induction false} LowPart(k: nat, a: nat, r: nat)
    requires 0 < r < Pow(2, k)
    ensures 0 <= Pow(2, k) * a && InvertLowestOne(Pow(2, k) * a + r) == Pow(2, k) * a + InvertLowestOne(r)
    decreases k
  {
    hide InvertLowestOne, Pow;
    PowPos(2, k);
    MulMono(0, a, Pow(2, k));
    if k == 0 {
      OneToThe0();
    } else {
      DoublePow(k - 1, a);
      Twice(k - 1);
      PowPos(2, k - 1);
      MulMono(0, a, Pow(2, k - 1));
      var b, m := Pow(2, k - 1) * a, r / 2;
      Halves(m);
      Halves(b + m);
      if r % 2 == 0 { LowPart(k - 1, a, m); }
    }
  }

  lemma OneToThe0()
    ensures Pow(2, 0) == 1
  { }

  lemma Twice(k: nat)
    ensures Pow(2, k + 1) == 2 * Pow(2, k)
  { }

  lemma {:induction false} OnesBound(n: nat, k: nat)
    requires n < Pow(2, k)
    ensures Ones(n) <= k
  {
    if n > 0 { OnesBound(n / 2, k - 1); }
  }

  /** Numbers that end in two zeros have fewer. */
  lemma OnesOfFour(n: nat, k: nat)
    requires 4 * n < Pow(2, k) && k >= 2
    ensures Ones(4 * n) == Ones(n) <= k - 2
  {
    hide Ones, Pow;
    Twice(k - 1);
    Twice(k - 2);
    OnesDigit(n, 0);
    OnesDigit(2 * n, 0);
    OnesBound(n, k - 2);
  }

  // ----- The way down -----

  /** Where the walk from height w to height t goes next, if all skip pointers are there: along the pointer, unless
      it leads too far, or the parent's leads further and not too far. */
  function Down(w: nat, t: nat): (next: nat)
    requires t < w
    ensures t <= next < w
  {
    SkipsBack(w);
    var heightSkip, heightSkipPrev := GetSkipHeight(w), GetSkipHeight(w - 1);
    if heightSkip == t || (heightSkip > t && !(heightSkipPrev < heightSkip - 2 && heightSkipPrev >= t)) then heightSkip
    else w - 1
  }

  function Steps(w: nat, t: nat): nat
    decreases w
  {
    if w <= t then 0 else 1 + Steps(Down(w, t), t)
  }

  /** If the parent's pointer does not lead further, the walk skips whenever it can. */
  lemma DownIs(w: nat, t: nat)
    requires t < w && GetSkipHeight(w - 1) >= GetSkipHeight(w) - 2
    ensures Down(w, t) == if GetSkipHeight(w) >= t then GetSkipHeight(w) else w - 1
  { }

  lemma SkipOfEven(m: nat)
    requires m > 0
    ensures GetSkipHeight(2 * m) == 2 * InvertLowestOne(m)
  {
    hide InvertLowestOne;
    Halves(m);
  }

  lemma SkipOfOdd(m: nat)
    requires m > 0
    ensures GetSkipHeight(2 * m + 1) == 2 * InvertLowestOne(InvertLowestOne(m)) + 1
  {
    hide InvertLowestOne;
    Halves(m);
    Halves(InvertLowestOne(m));
  }

  // ----- Within eight heights -----

  lemma SkipsInEight(a: nat)
    ensures GetSkipHeight(8 * a + 1) <= 8 * a && GetSkipHeight(8 * a + 2) == 8 * a
    ensures GetSkipHeight(8 * a + 4) == 8 * a && GetSkipHeight(8 * a + 6) == 8 * a + 4
    ensures GetSkipHeight(8 * a + 3) == GetSkipHeight(8 * a + 5) == 8 * InvertLowestOne(a) + 1
    ensures GetSkipHeight(8 * a + 7) == 8 * a + 1
    ensures if a == 0 then InvertLowestOne(a) == 0 else InvertLowestOne(a) <= a - 1
  {
    hide InvertLowestOne, GetSkipHeight;
    EvenInEight(a);
    OddInEight(a);
    FirstOfEight(a);
    if a > 0 { OneLess(a); } else { NoOnes(); }
  }

  lemma EvenInEight(a: nat)
    ensures GetSkipHeight(8 * a + 2) == 8 * a && GetSkipHeight(8 * a + 4) == 8 * a
    ensures GetSkipHeight(8 * a + 6) == 8 * a + 4
  {
    hide InvertLowestOne, GetSkipHeight;
    OnesInFour(a);
    SkipOfEven(4 * a + 1);
    SkipOfEven(4 * a + 2);
    SkipOfEven(4 * a + 3);
    assert 2 * (4 * a + 1) == 8 * a + 2 && 2 * (4 * a + 2) == 8 * a + 4 && 2 * (4 * a + 3) == 8 * a + 6;
  }

  lemma OddInEight(a: nat)
    ensures GetSkipHeight(8 * a + 3) == GetSkipHeight(8 * a + 5) == 8 * InvertLowestOne(a) + 1
    ensures GetSkipHeight(8 * a + 7) == 8 * a + 1
  {
    hide InvertLowestOne, GetSkipHeight;
    OnesInFour(a);
    SkipOfOdd(4 * a + 1);
    SkipOfOdd(4 * a + 2);
    SkipOfOdd(4 * a + 3);
    assert 2 * (4 * a + 1) + 1 == 8 * a + 3 && 2 * (4 * a + 2) + 1 == 8 * a + 5 && 2 * (4 * a + 3) + 1 == 8 * a + 7;
  }

  lemma FirstOfEight(a: nat)
    ensures GetSkipHeight(8 * a + 1) <= 8 * a
  {
    if a > 0 {
      hide GetSkipHeight;
      SkipOfOdd(4 * a);
      OneLess(4 * a);
      NotMore(InvertLowestOne(4 * a));
      assert 2 * (4 * a) + 1 == 8 * a + 1;
    }
  }

  lemma OnesInFour(a: nat)
    ensures InvertLowestOne(4 * a + 1) == 4 * a && InvertLowestOne(4 * a + 2) == 4 * a
    ensures InvertLowestOne(4 * a + 3) == 4 * a + 2 && InvertLowestOne(4 * a) == 4 * InvertLowestOne(a)
  {
    hide InvertLowestOne;
    Halves(a);
    Halves(2 * a);
    Halves(2 * a + 1);
    assert 2 * (2 * a) == 4 * a && 2 * (2 * a + 1) == 4 * a + 2;
  }

  /** A bound for d heights above a multiple of eight to e heights above it. */
  function Table(d: nat, e: nat): nat
    requires d < 8
  {
    if d <= e then 0
    else if d <= 2 then 1
    else if d == 3 then if e == 2 then 1 else 2
    else if d == 4 then if e == 0 then 1 else 4 - e
    else if d == 5 then if e == 0 then 2 else 5 - e
    else if d == 6 then if e == 0 then 3 else if e == 5 then 1 else 5 - e
    else if e <= 1 then 2 else if e == 5 then 2 else if e == 6 then 1 else 6 - e
  }

  lemma {:induction false} InEight(a: nat, d: nat, e: nat)
    requires d < 8 && e < 8
    ensures Steps(8 * a + d, 8 * a + e) <= Table(d, e) <= 4
    decreases d
  {
    SkipsInEight(a);
    hide GetSkipHeight, InvertLowestOne;
    if d > e {
      var next := Down(8 * a + d, 8 * a + e) - 8 * a;
      InEight(a, next, e);
    }
  }

  // ----- Down to the other side of a power of two -----

  /** A multiple of 2^j. */
  ghost function At(j: nat, a: nat): nat {
    PowPos(2, j);
    MulMono(0, a, Pow(2, j));
    Pow(2, j) * a
  }

  /** Half a height that is an odd multiple of 2^(j + 1). */
  ghost function Peak(j: nat, c: nat): nat { At(j, 2 * c + 1) }

  /** The target is on the other side of the peak, within as many heights as it is a multiple of. */
  ghost predicate Across(j: nat, c: nat, t: nat) {
    j >= 2 && 2 * (Peak(j, c) - Pow(2, j)) <= t < 2 * Peak(j, c)
  }

  lemma PeakIs(j: nat, c: nat)
    requires j >= 2
    ensures Pow(2, j) >= 4 && InvertLowestOne(Peak(j, c)) == Peak(j, c) - Pow(2, j) >= 0
    ensures Peak(j, c) - Pow(2, j) == At(j, 2 * c) && Peak(j, c) == At(j, 2 * c + 1)
  {
    hide Pow, InvertLowestOne;
    LowestOneGoes(j, c);
    DoublePow(j, c);
    PowPos(2, j - 2);
    Twice(j - 1);
    Twice(j - 2);
    PeakAlgebra(Pow(2, j), c);
  }

  lemma PeakAlgebra(p: int, c: nat)
    requires p > 0
    ensures p * (2 * c + 1) == p * (2 * c) + p && p * (2 * c) == 2 * (p * c) >= 0
  {
    MulMono(0, c, p);
  }

  lemma AbovePeak(j: nat, c: nat, x: nat)
    requires 0 < x < Pow(2, j)
    ensures InvertLowestOne(Peak(j, c) + x) == Peak(j, c) + InvertLowestOne(x)
  {
    LowPart(j, 2 * c + 1, x);
  }

  lemma TwoGo(j: nat, c: nat, x: nat)
    requires x < Pow(2, j) && Ones(x) >= 2
    ensures var y := InvertLowestOne(x);
      0 < y < x && InvertLowestOne(y) < y && Ones(InvertLowestOne(y)) == Ones(x) - 2
    ensures var y := InvertLowestOne(x);
      InvertLowestOne(Peak(j, c) + x) == Peak(j, c) + y &&
      InvertLowestOne(Peak(j, c) + y) == Peak(j, c) + InvertLowestOne(y)
  {
    hide InvertLowestOne, Ones, Pow, Peak, At;
    assert x > 0 by { NoOnes(); }
    OneLess(x);
    var y := InvertLowestOne(x);
    assert y > 0 by { NoOnes(); }
    OneLess(y);
    AbovePeak(j, c, x);
    AbovePeak(j, c, y);
  }

  lemma OneGoes(j: nat, c: nat, x: nat)
    requires j >= 2 && x < Pow(2, j) && Ones(x) <= 1
    ensures InvertLowestOne(InvertLowestOne(Peak(j, c) + x)) <= Peak(j, c) - Pow(2, j)
  {
    hide InvertLowestOne, Ones, Pow, Peak, At;
    PeakIs(j, c);
    if x > 0 {
      AbovePeak(j, c, x);
      OneLess(x);
      NoneLeft(InvertLowestOne(x));
    } else {
      NotMore(Peak(j, c) - Pow(2, j));
    }
  }

  /** From an odd height the walk takes two ones off, or skips to the other side, or takes off the last one. */
  lemma OddStep(j: nat, c: nat, x: nat, t: nat)
    requires Across(j, c, t) && x < Pow(2, j)
    ensures var w := 2 * (Peak(j, c) + x) + 1;
      if Ones(x) >= 2 then Down(w, t) == 2 * (Peak(j, c) + InvertLowestOne(InvertLowestOne(x))) + 1
      else if GetSkipHeight(w) >= t then
        var v := InvertLowestOne(InvertLowestOne(Peak(j, c) + x));
        Down(w, t) == 2 * v + 1 && v <= Peak(j, c) - Pow(2, j)
      else Down(w, t) == w - 1
  {
    hide InvertLowestOne, Ones, Pow, Peak, At, GetSkipHeight, Down;
    var h := Peak(j, c) + x;
    PeakIs(j, c);
    SkipOfOdd(h);
    SkipOfEven(h);
    NotMore(InvertLowestOne(h));
    DownIs(2 * h + 1, t);
    if Ones(x) >= 2 { TwoGo(j, c, x); } else { OneGoes(j, c, x); }
  }

  /** From a peak the walk goes to its foot, or steps back once. */
  lemma PeakStep(j: nat, c: nat, t: nat)
    requires Across(j, c, t)
    ensures Down(2 * Peak(j, c), t) == if t == 2 * (Peak(j, c) - Pow(2, j)) then t else 2 * Peak(j, c) - 1
  {
    hide InvertLowestOne, Pow, Peak, At, GetSkipHeight;
    PeakIs(j, c);
    SkipOfEven(Peak(j, c));
  }

  /** From a multiple of eight above a peak the walk takes one off. */
  lemma EightStep(j: nat, c: nat, a: nat, t: nat)
    requires Across(j, c, t) && 0 < 4 * a < Pow(2, j)
    ensures Down(2 * (Peak(j, c) + 4 * a), t) == 2 * (Peak(j, c) + 4 * InvertLowestOne(a))
  {
    hide InvertLowestOne, Pow, Peak, At, GetSkipHeight, Down;
    var h := Peak(j, c) + 4 * a;
    OnesInFour(a);
    AbovePeak(j, c, 4 * a);
    OneLess(a);
    SkipOfEven(h);
    SkipBeforeEight(j, c, a);
    DownIs(2 * h, t);
  }

  lemma SkipBeforeEight(j: nat, c: nat, a: nat)
    requires 0 < 4 * a < Pow(2, j)
    ensures GetSkipHeight(2 * (Peak(j, c) + 4 * a) - 1) == 2 * (Peak(j, c) + 4 * a) - 7
  {
    hide InvertLowestOne, Pow, Peak, At, GetSkipHeight;
    OnesInFour(a - 1);
    AbovePeak(j, c, 4 * a - 1);
    AbovePeak(j, c, 4 * a - 2);
    SkipOfOdd(Peak(j, c) + 4 * a - 1);
  }

  /** From other even heights it does, or else it steps back once and then can skip; with three ones or more it
      does step back. */
  lemma EvenStep(j: nat, c: nat, x: nat, t: nat)
    requires Across(j, c, t) && 0 < x < Pow(2, j)
    ensures var w := 2 * (Peak(j, c) + x);
      if Down(w, t) == w - 1 then GetSkipHeight(w - 1) >= t else Down(w, t) == 2 * (Peak(j, c) + InvertLowestOne(x))
  {
    hide InvertLowestOne, Pow, Peak, At, GetSkipHeight;
    AbovePeak(j, c, x);
    SkipOfEven(Peak(j, c) + x);
    OneLess(x);
  }

  lemma FurtherOdd(j: nat, c: nat, m: nat, t: nat)
    requires Across(j, c, t) && 2 * m + 1 < Pow(2, j) && Ones(2 * m + 1) >= 3
    ensures var w := 2 * (Peak(j, c) + 2 * m + 1); Down(w, t) == w - 1
  {
    hide InvertLowestOne, Ones, Pow, Peak, At, GetSkipHeight;
    var h := Peak(j, c) + 2 * m + 1;
    Halves(m);
    OnesDigit(m, 1);
    OnesDigit(m, 0);
    AbovePeak(j, c, 2 * m + 1);
    TwoGo(j, c, 2 * m);
    Halves(InvertLowestOne(m));
    SkipOfEven(h);
    SkipOfOdd(h - 1);
  }

  lemma FurtherEven(j: nat, c: nat, a: nat, t: nat)
    requires Across(j, c, t) && 4 * a + 2 < Pow(2, j) && Ones(4 * a + 2) >= 3
    ensures var w := 2 * (Peak(j, c) + 4 * a + 2); Down(w, t) == w - 1
  {
    hide InvertLowestOne, Ones, Pow, Peak, At, GetSkipHeight;
    var h := Peak(j, c) + 4 * a + 2;
    OnesInFour(a);
    OnesLow(a);
    AbovePeak(j, c, 4 * a + 2);
    AbovePeak(j, c, 4 * a + 1);
    TwoGo(j, c, 4 * a);
    SkipOfEven(h);
    SkipOfOdd(h - 1);
  }

  lemma OnesLow(a: nat)
    ensures Ones(4 * a + 2) == Ones(4 * a + 1) == Ones(a) + 1 && Ones(4 * a) == Ones(a)
  {
    hide Ones;
    OnesDigit(a, 0);
    OnesDigit(a, 1);
    OnesDigit(2 * a, 0);
    OnesDigit(2 * a, 1);
    OnesDigit(2 * a + 1, 0);
  }

  // ----- How many steps -----

  /** Steps enough from any odd height to any lower one among the same 2^i. */
  function Rest(i: nat): nat { if i <= 3 then 4 else 1 + Rest(i - 1) + (i + 1) / 2 }

  /** Steps from an odd height with q ones after the peak, to get across it: a skip takes two ones off. */
  function OddCost(q: nat, canSkip: bool): nat {
    if q >= 2 then (q + 2) / 2 + q % 2 else if canSkip then 0 else q + 1
  }

  /** Steps from an even height, of which half is x above the peak. */
  function EvenCost(x: nat): nat {
    var q := Ones(x);
    if q <= 1 || x % 4 == 0 then q else 1 + (q + 2) / 2 + q % 2
  }

  lemma {:induction false} EvenWalk(j: nat, c: nat, x: nat, t: nat)
    requires Across(j, c, t) && x < Pow(2, j)
    ensures Steps(2 * (Peak(j, c) + x), t) <= 1 + Rest(j + 1) + EvenCost(x)
    decreases Peak(j, c) + x, 1, 0
  {
    hide InvertLowestOne, Ones, Pow, Peak, At, GetSkipHeight, Rest, Down;
    PeakIs(j, c);
    NoOnes();
    if x == 0 {
      PeakStep(j, c, t);
      if t != 2 * (Peak(j, c) - Pow(2, j)) { OddBelow(2 * c, j, Peak(j, c) - 1, t); }
    } else {
      var a := x / 4;
      if x == 4 * a {
        EightStep(j, c, a, t);
        OnesInFour(a);
        OneLess(x);
        EvenWalk(j, c, 4 * InvertLowestOne(a), t);
      } else {
        NotByEight(j, c, x, a, t);
      }
    }
  }

  lemma {:induction false} NotByEight(j: nat, c: nat, x: nat, a: nat, t: nat)
    requires Across(j, c, t) && x < Pow(2, j) && 4 * a < x < 4 * a + 4
    ensures Steps(2 * (Peak(j, c) + x), t) <= 1 + Rest(j + 1) + EvenCost(x)
    decreases Peak(j, c) + x, 0, 0
  {
    hide InvertLowestOne, Ones, Pow, Peak, At, GetSkipHeight, Rest, Down;
    var w, q := 2 * (Peak(j, c) + x), Ones(x);
    OneLess(x);
    EvenStep(j, c, x, t);
    if Down(w, t) == w - 1 {
      OddWalk(j, c, x - 1, t);
      LastOnes(x, a);
      assert w - 1 == 2 * (Peak(j, c) + (x - 1)) + 1;
    } else {
      if q >= 3 { DoesStepBack(j, c, x, a, t); }
      EvenWalk(j, c, InvertLowestOne(x), t);
    }
  }

  lemma LastOnes(x: nat, a: nat)
    requires 4 * a < x < 4 * a + 4
    ensures Ones(x - 1) <= Ones(x)
  {
    hide Ones;
    OnesLow(a);
    OnesDigit(2 * a + 1, 0);
    OnesDigit(2 * a + 1, 1);
  }

  lemma DoesStepBack(j: nat, c: nat, x: nat, a: nat, t: nat)
    requires Across(j, c, t) && x < Pow(2, j) && 4 * a < x < 4 * a + 4 && Ones(x) >= 3
    ensures var w := 2 * (Peak(j, c) + x); Down(w, t) == w - 1
  {
    hide Ones, Pow, Peak, At, Down;
    if x == 4 * a + 2 {
      FurtherEven(j, c, a, t);
    } else {
      var m := if x == 4 * a + 1 then 2 * a else 2 * a + 1;
      FurtherOdd(j, c, m, t);
      assert Peak(j, c) + 2 * m + 1 == Peak(j, c) + x;
    }
  }

  lemma {:induction false} OddWalk(j: nat, c: nat, x: nat, t: nat)
    requires Across(j, c, t) && x < Pow(2, j)
    ensures var w := 2 * (Peak(j, c) + x) + 1;
      Steps(w, t) <= 1 + Rest(j + 1) + OddCost(Ones(x), GetSkipHeight(w) >= t)
    decreases Peak(j, c) + x, 2, 0
  {
    hide InvertLowestOne, Ones, Pow, Peak, At, GetSkipHeight, Rest, Down;
    PeakIs(j, c);
    OddStep(j, c, x, t);
    var w := 2 * (Peak(j, c) + x) + 1;
    if Ones(x) >= 2 {
      TwoGo(j, c, x);
      OddWalk(j, c, InvertLowestOne(InvertLowestOne(x)), t);
    } else if GetSkipHeight(w) >= t {
      OddBelow(2 * c, j, InvertLowestOne(InvertLowestOne(Peak(j, c) + x)), t);
    } else {
      EvenWalk(j, c, x, t);
    }
  }

  /** From an odd height to a lower one among the same 2^(j + 1). */
  lemma {:induction false} OddBelow(a: nat, j: nat, v: nat, t: nat)
    requires j >= 2 && At(j, a) <= v < At(j, a + 1) && 2 * At(j, a) <= t
    ensures Steps(2 * v + 1, t) <= Rest(j + 1)
    decreases v, 3, j
  {
    hide Ones, Pow, GetSkipHeight, Peak, Rest, At, Steps;
    if 2 * v + 1 <= t {
      NoSteps(2 * v + 1, t);
    } else if j == 2 {
      FourTimes(a);
      InEight(a, 2 * v + 1 - 8 * a, t - 8 * a);
      RestIs(3);
    } else {
      Split(j, a);
      RestIs(j + 1);
      if v < Peak(j - 1, a) {
        OddBelow(2 * a, j - 1, v, t);
      } else if 2 * Peak(j - 1, a) <= t {
        OddBelow(2 * a + 1, j - 1, v, t);
      } else {
        var x := v - Peak(j - 1, a);
        OddWalk(j - 1, a, x, t);
        OnesBound(x, j - 1);
      }
    }
  }

  lemma NoSteps(w: nat, t: nat)
    requires w <= t
    ensures Steps(w, t) == 0
  { }

  lemma FourTimes(a: nat)
    ensures At(2, a) == 4 * a && At(2, a + 1) == 4 * a + 4
  {
    assert Pow(2, 2) == 4;
  }

  lemma RestIs(i: nat)
    ensures Rest(i) == if i <= 3 then 4 else 1 + Rest(i - 1) + (i + 1) / 2
  { }

  /** The two halves of 2^j numbers. */
  lemma Split(j: nat, a: nat)
    requires j >= 1
    ensures At(j - 1, 2 * a) == At(j, a) && At(j - 1, 2 * a + 1) == Peak(j - 1, a) == At(j, a) + Pow(2, j - 1)
    ensures At(j - 1, 2 * a + 2) == At(j, a + 1) == Peak(j - 1, a) + Pow(2, j - 1)
  {
    hide Pow;
    Twice(j - 1);
    SplitAlgebra(Pow(2, j - 1), a);
  }

  lemma SplitAlgebra(q: int, a: int)
    ensures q * (2 * a) == 2 * q * a && q * (2 * a + 2) == 2 * q * (a + 1) && q * (2 * a + 1) == 2 * q * a + q
    ensures 2 * q * (a + 1) == 2 * q * a + 2 * q
  { }

  /** Steps enough from any height to any lower one among the same 2^i. */
  function Most(i: nat): nat {
    if i <= 3 then 4 else Max(Most(i - 1), 1 + Rest(i - 1) + Max(i - 4, 2 + (i - 1) / 2))
  }

  function Max(a: int, b: int): int { if a < b then b else a }

  lemma {:induction false} AnyBelow(a: nat, j: nat, w: nat, t: nat)
    requires j >= 2 && 2 * At(j, a) <= t < w < 2 * At(j, a + 1)
    ensures Steps(w, t) <= Most(j + 1)
    decreases j
  {
    hide Ones, Pow, GetSkipHeight, Peak, Rest, At, Steps, Most, EvenCost, OddCost;
    MostIs(j + 1);
    if j == 2 {
      FourTimes(a);
      InEight(a, w - 8 * a, t - 8 * a);
    } else {
      Split(j, a);
      var h := Peak(j - 1, a);
      if w < 2 * h {
        AnyBelow(2 * a, j - 1, w, t);
      } else if 2 * h <= t {
        AnyBelow(2 * a + 1, j - 1, w, t);
      } else {
        var x := w / 2 - h;
        CostBound(x, j - 1);
        if w == 2 * (h + x) {
          EvenWalk(j - 1, a, x, t);
        } else {
          OddWalk(j - 1, a, x, t);
          assert w == 2 * (h + x) + 1;
        }
      }
    }
  }

  lemma MostIs(i: nat)
    ensures Most(i) == if i <= 3 then 4 else Max(Most(i - 1), 1 + Rest(i - 1) + Max(i - 4, 2 + (i - 1) / 2))
  { }

  lemma CostBound(x: nat, j: nat)
    requires x < Pow(2, j) && j >= 2
    ensures EvenCost(x) <= Max(j - 2, 2 + (j + 1) / 2)
    ensures OddCost(Ones(x), true) <= 2 + (j + 1) / 2 && OddCost(Ones(x), false) <= 2 + (j + 1) / 2
  {
    hide Ones, Pow;
    OnesBound(x, j);
    if x % 4 == 0 { OnesOfFour(x / 4, j); }
  }

  lemma {:induction false} RestClosed(i: nat)
    requires i >= 3
    ensures Rest(i) == i + (i + 1) * (i + 1) / 4 - 3
  {
    RestIs(i);
    hide Rest;
    if i > 3 {
      RestClosed(i - 1);
      Quarters(i);
    }
  }

  lemma Quarters(n: nat)
    ensures (n + 1) * (n + 1) / 4 == n * n / 4 + (n + 1) / 2
  {
    var m := n / 2;
    Squares(m);
    if n == 2 * m {
      DivUnique(n * n, 4, m * m, 0);
      DivUnique((n + 1) * (n + 1), 4, m * m + m, 1);
    } else {
      DivUnique(n * n, 4, m * m + m, 1);
      DivUnique((n + 1) * (n + 1), 4, m * m + m + (m + 1), 0);
    }
  }

  lemma Squares(m: int)
    ensures (2 * m) * (2 * m) == 4 * (m * m) && (2 * m + 1) * (2 * m + 1) == 4 * (m * m + m) + 1
    ensures (2 * m + 2) * (2 * m + 2) == 4 * (m * m + m + (m + 1))
  { }

  lemma {:induction false} MostClosed(i: nat)
    requires i >= 10
    ensures Most(i) == i * i / 4 + 2 * i - 7
  {
    MostIs(i);
    RestClosed(i - 1);
    if i > 10 {
      hide Most, Rest;
      MostClosed(i - 1);
      Quarters(i - 1);
    } else {
      MostOf9();
    }
  }

  lemma MostOf9()
    ensures Most(9) == 32
  {
    assert Rest(4) == 7 && Rest(5) == 11 && Rest(6) == 15 && Rest(7) == 20 && Rest(8) == 25;
    assert Most(4) == 8 && Most(5) == 12 && Most(6) == 16 && Most(7) == 21 && Most(8) == 26;
  }

  /** To go back from a height below 2^b the walk takes at most b^2 / 4 + 2 b - 7 steps. */
  lemma FewSteps(w: nat, t: nat, b: nat)
    requires w < Pow(2, b) && b >= 10
    ensures Steps(w, t) <= b * b / 4 + 2 * b - 7
  {
    hide Pow, Steps, Most;
    MostClosed(b);
    if t < w {
      Twice(b - 1);
      AtStart(b - 1);
      AnyBelow(0, b - 1, w, t);
    } else {
      NoSteps(w, t);
    }
  }

  lemma AtStart(j: nat)
    ensures At(j, 0) == 0 && At(j, 1) == Pow(2, j)
  { }

  // ----- There are walks as long as that -----

  /** The ones from bit k to below bit j. */
  lemma TopBits(j: nat, k: nat)
    requires k < j
    ensures 0 < Pow(2, j) - Pow(2, k) < Pow(2, j) && 0 <= Pow(2, j) - Pow(2, k + 1)
    ensures InvertLowestOne(Pow(2, j) - Pow(2, k)) == Pow(2, j) - Pow(2, k + 1)
  {
    hide Pow, InvertLowestOne;
    var m := Pow(2, j - k - 1) - 1;
    PowPos(2, j - k - 1);
    PowPos(2, k);
    LowestOneGoes(k, m);
    PowAdd(2, k, j - k);
    PowAdd(2, k + 1, j - k - 1);
    Twice(j - k - 1);
    Twice(k);
    BitsAlgebra(Pow(2, k), Pow(2, j - k - 1));
  }

  lemma BitsAlgebra(p: int, q: int)
    requires p > 0 && q > 0
    ensures p * (2 * (q - 1) + 1) == p * (2 * q) - p && 2 * p * (q - 1) == p * (2 * q) - 2 * p >= 0
    ensures p * (2 * q) == 2 * p * q > p
  {
    MulMono(1, q, 2 * p);
  }

  lemma {:induction false} OnesOfBits(j: nat, k: nat)
    requires k <= j
    ensures Pow(2, j) >= Pow(2, k) && Ones(Pow(2, j) - Pow(2, k)) == j - k
    decreases j - k
  {
    hide Pow, InvertLowestOne, Ones;
    if k == j {
      NoOnes();
    } else {
      TopBits(j, k);
      OnesOfBits(j, k + 1);
      OneLess(Pow(2, j) - Pow(2, k));
    }
  }

  lemma PeakOf0(j: nat)
    requires j >= 2
    ensures Peak(j, 0) == Pow(2, j) >= 4 && Across(j, 0, 2)
  {
    PowPos(2, j - 2);
    Twice(j - 1);
    Twice(j - 2);
    AtStart(j);
  }

  /** All the ones below 2^j but for the last k. */
  ghost function Bits(j: nat, k: nat): nat
    requires k <= j
  {
    OnesOfBits(j, k);
    Pow(2, j) - Pow(2, k)
  }

  lemma BitsAre(j: nat, k: nat)
    requires k <= j
    ensures Bits(j, k) < Pow(2, j) && Ones(Bits(j, k)) == j - k && (k == j ==> Bits(j, k) == 0)
    ensures k + 1 <= j ==> InvertLowestOne(Bits(j, k)) == Bits(j, k + 1)
  {
    hide InvertLowestOne, Ones;
    OnesOfBits(j, k);
    PowPos(2, k);
    if k < j { TopBits(j, k); }
  }

  /** From there to height 2 every skip takes just two ones off, down to the peak. */
  lemma {:induction false} OddRun(j: nat, k: nat)
    requires j >= 2 && k <= j && (j == 2 ==> k != 1)
    ensures Steps(2 * (Peak(j, 0) + Bits(j, k)) + 1, 2) == (j - k + 3) / 2 + Steps(2 * Peak(j, 0), 2)
    decreases j - k
  {
    hide InvertLowestOne, Ones, Pow, Peak, At, Bits, GetSkipHeight, Down;
    PeakOf0(j);
    BitsAre(j, k);
    OddStep(j, 0, Bits(j, k), 2);
    if j - k >= 2 {
      BitsAre(j, k + 1);
      OddRun(j, k + 2);
    } else {
      if j - k == 1 { LastBit(j, k); }
    }
  }

  lemma LastBit(j: nat, k: nat)
    requires j >= 3 && k == j - 1
    ensures Steps(2 * (Peak(j, 0) + Bits(j, k)), 2) == 1 + Steps(2 * Peak(j, 0), 2)
  {
    hide InvertLowestOne, Ones, Peak, At, GetSkipHeight, Down;
    Twice(j - 1);
    Twice(j - 2);
    Twice(j - 3);
    PowPos(2, j - 3);
    hide Pow;
    var a := Pow(2, j - 3);
    PeakOf0(j);
    EightStep(j, 0, a, 2);
    LowestOneGoes(j - 3, 0);
    assert Pow(2, j - 2) * 0 == 0 && a * (2 * 0 + 1) == a;
  }

  lemma {:induction false} LongFromPeak(j: nat)
    requires j >= 2
    ensures Steps(2 * Peak(j, 0), 2) == 1 + Rest(j + 1)
  {
    hide InvertLowestOne, Ones, Pow, Peak, At, Bits, GetSkipHeight, Down, Rest;
    PeakOf0(j);
    RestIs(j + 1);
    if j == 2 {
      FiveSteps();
    } else {
      PeakStep(j, 0, 2);
      AllBits(j);
      OddRun(j - 1, 0);
      LongFromPeak(j - 1);
    }
  }

  lemma AllBits(j: nat)
    requires j >= 3
    ensures 2 * (Peak(j - 1, 0) + Bits(j - 1, 0)) + 1 == 2 * Peak(j, 0) - 1
  {
    hide Peak;
    PeakOf0(j);
    PeakOf0(j - 1);
    Twice(j - 1);
    OneToThe0();
  }

  lemma FiveSteps()
    ensures Steps(2 * Peak(2, 0), 2) == 5
  {
    hide Peak, GetSkipHeight;
    PeakOf0(2);
    FourTimes(0);
    SkipsInEight(0);
    NoOnes();
    PeakStep(2, 0, 2);
    assert Peak(2, 0) == 4 by { FourTimes(1); }
    assert Down(3, 2) == 2 && Down(4, 2) == 3 && Down(6, 2) == 4 && Down(7, 2) == 6 && Down(8, 2) == 7;
  }

  lemma {:induction false} EightRun(j: nat, a: nat)
    requires j >= 2 && 4 * a < Pow(2, j)
    ensures Steps(2 * (Peak(j, 0) + 4 * a), 2) == Ones(a) + Steps(2 * Peak(j, 0), 2)
  {
    hide InvertLowestOne, Ones, Pow, Peak, At, GetSkipHeight, Down;
    PeakOf0(j);
    if a > 0 {
      EightStep(j, 0, a, 2);
      OneLess(a);
      EightRun(j, InvertLowestOne(a));
    } else {
      NoOnes();
    }
  }

  /** The bound is reached from height 2^b - 8 to height 2, for every b. */
  lemma LongestWalk(b: nat)
    requires b >= 10
    ensures Pow(2, b) > 8 && Steps(Pow(2, b) - 8, 2) == b * b / 4 + 2 * b - 7
  {
    hide Steps, Ones, Peak, Bits, Rest, Pow;
    var j := b - 2;
    Twice(b - 1);
    PeakOf0(j);
    BitsAre(j - 2, 0);
    AllButThree(j);
    EightRun(j, Bits(j - 2, 0));
    LongFromPeak(j);
    RestClosed(j + 1);
    assert Pow(2, b) - 8 == 2 * (Peak(j, 0) + 4 * Bits(j - 2, 0)) by { Twice(b - 2); }
    assert Pow(2, b) > 8 by { Twice(b - 2); }
  }

  /** The number of steps that the program's authors found for heights below 2^18 is the exact maximum. */
  lemma OneHundredAndTen(w: nat, t: nat)
    requires w < 0x4_0000
    ensures Steps(w, t) <= 110 && Steps(0x3_FFF8, 2) == 110
  {
    hide Steps;
    assert Pow(2, 18) == 0x4_0000 by { TwoToThe18(); }
    FewSteps(w, t, 18);
    LongestWalk(18);
  }

  lemma TwoToThe18()
    ensures Pow(2, 18) == 0x4_0000
  {
    assert Pow(2, 6) == 64;
    PowMul(2, 6, 3);
    assert Pow(64, 3) == 0x4_0000;
  }

  lemma AllButThree(j: nat)
    requires j >= 2
    ensures 4 * Bits(j - 2, 0) == Pow(2, j) - 4
  {
    Twice(j - 1);
    Twice(j - 2);
    OneToThe0();
  }
}

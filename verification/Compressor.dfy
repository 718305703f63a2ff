/** The short forms of amounts and of common scripts. */
module Compressor {
  import opened Arith
  import opened Wrappers
  import opened VarInt

  const COIN := 100_000_000
  const MAX_MONEY := 100_000_000 * COIN

  // ----- Amounts, on naturals -----

  /** n without factors of ten, and how many went, up to nine in all. */
  function Strip(n: nat, e: nat): (nat, nat)
    decreases 9 - e
  {
    if n % 10 == 0 && e < 9 then Strip(n / 10, e + 1) else (n, e)
  }

  function Short(n: nat): nat {
    if n == 0 then 0
    else
      var (m, e) := Strip(n, 0);
      StripIs(n, 0);
      if e < 9 then 1 + (m / 10 * 9 + m % 10 - 1) * 10 + e else 1 + (m - 1) * 10 + 9
  }

  function Long(x: nat): nat {
    if x == 0 then 0
    else
      var e, y := (x - 1) % 10, (x - 1) / 10;
      PowPos(10, e);
      (if e < 9 then y / 9 * 10 + y % 9 + 1 else y + 1) * Pow(10, e)
  }

  lemma {:induction false} StripIs(n: nat, e: nat)
    requires n > 0 && e <= 9
    ensures var (m, f) := Strip(n, e);
      m > 0 && e <= f <= 9 && n == m * Pow(10, f - e) && (f < 9 ==> m % 10 != 0)
    decreases 9 - e
  {
    hide Pow;
    if n % 10 == 0 && e < 9 {
      StripIs(n / 10, e + 1);
      var (m, f) := Strip(n, e);
      TenTimes(m, f - e - 1);
    } else {
      TenTimes(n, 0);
    }
  }

  lemma TenTimes(m: int, k: nat)
    ensures Pow(10, 0) == 1 && m * Pow(10, k + 1) == 10 * (m * Pow(10, k)) == m * Pow(10, k) * 10
  { }

  lemma {:induction false} StripOf(m: nat, k: nat, e: nat)
    requires m > 0 && e + k <= 9 && (e + k < 9 ==> m % 10 != 0)
    ensures m * Pow(10, k) >= 0 && Strip(m * Pow(10, k), e) == (m, e + k)
    decreases k
  {
    PowPos(10, k);
    MulMono(0, m, Pow(10, k));
    if k > 0 {
      var n := m * Pow(10, k - 1);
      StripOf(m, k - 1, e + 1);
      assert m * Pow(10, k) == 10 * n;
    }
  }

  lemma LongOfShort(n: nat)
    ensures Long(Short(n)) == n
  {
    if n > 0 {
      StripIs(n, 0);
      var (m, e) := Strip(n, 0);
      hide Strip, Pow, Long, Short;
      ShortIs(n, m, e);
      if e < 9 {
        NineFields(m / 10, m % 10);
        LongOf(m / 10 * 9 + m % 10 - 1, e);
      } else {
        LongOf(m - 1, 9);
      }
    }
  }

  lemma ShortIs(n: nat, m: nat, e: nat)
    requires n > 0 && Strip(n, 0) == (m, e)
    ensures m > 0 && (e < 9 ==> m % 10 != 0)
    ensures Short(n) == if e < 9 then 1 + (m / 10 * 9 + m % 10 - 1) * 10 + e else 1 + (m - 1) * 10 + 9
  {
    StripIs(n, 0);
    hide Strip, Pow;
  }

  /** The short form of an amount with e zeros at its end, up to nine, after m. */
  lemma ShortForm(m: nat, e: nat)
    requires m > 0 && e <= 9 && (e < 9 ==> m % 10 != 0)
    ensures m * Pow(10, e) > 0 && Short(0) == 0
    ensures Short(m * Pow(10, e)) == if e < 9 then 10 * (9 * (m / 10) + m % 10 - 1) + e + 1 else 10 * m
  {
    StripOf(m, e, 0);
    PowPos(10, e);
    MulMono(1, m, Pow(10, e));
    ShortIs(m * Pow(10, e), m, e);
  }

  /** Amounts and their short forms: 1, a hundredth of a coin, a coin, 50 coins and 21 million coins. */
  lemma AmountExamples()
    ensures Short(0) == 0 && Short(1) == 1 && Short(1_000_000) == 7 && Short(COIN) == 9 && Short(50 * COIN) == 0x32
    ensures Short(21_000_000 * COIN) == 0x140_6F40
  {
    TensAre();
    hide Pow, Short;
    ShortForm(1, 0);
    ShortForm(1, 6);
    ShortForm(1, 8);
    ShortForm(5, 9);
    ShortForm(2_100_000, 9);
  }

  lemma TensAre()
    ensures Pow(10, 0) == 1 && Pow(10, 6) == 1_000_000 && Pow(10, 8) == 100_000_000 && Pow(10, 9) == 1_000_000_000
  {
    assert Pow(10, 3) == 1000;
    assert Pow(10, 6) == 1_000_000;
  }

  lemma LongOf(y: nat, e: nat)
    requires e < 10
    ensures Long(1 + y * 10 + e) == (if e < 9 then y / 9 * 10 + y % 9 + 1 else y + 1) * Pow(10, e)
  {
    hide Pow;
    assert (y * 10 + e) % 10 == e && (y * 10 + e) / 10 == y;
  }

  lemma NineFields(q: nat, d: nat)
    requires 1 <= d <= 9
    ensures (q * 9 + d - 1) / 9 == q && (q * 9 + d - 1) % 9 == d - 1
  { }

  lemma ShortOfLong(x: nat)
    ensures Short(Long(x)) == x
  {
    if x > 0 {
      var e, y := (x - 1) % 10, (x - 1) / 10;
      var m := if e < 9 then y / 9 * 10 + y % 9 + 1 else y + 1;
      LongDigits(y);
      StripOf(m, e, 0);
      PowPos(10, e);
      MulMono(1, m, Pow(10, e));
    }
  }

  lemma LongDigits(y: nat)
    ensures var m := y / 9 * 10 + y % 9 + 1; m % 10 == y % 9 + 1 && m / 10 == y / 9 && y / 9 * 9 + y % 9 == y
  { }

  /** The short form is at most nine times the amount. */
  lemma ShortFits(n: nat)
    ensures Short(n) <= 9 * n
  {
    if n > 0 {
      StripIs(n, 0);
      var (m, e) := Strip(n, 0);
      assert m == m / 10 * 10 + m % 10;
      if e > 0 {
        assert n == m * (10 * Pow(10, e - 1));
        PowPos(10, e - 1);
        MulMono(1, Pow(10, e - 1), 10 * m);
        assert n >= 10 * m;
      } else {
        assert Pow(10, 0) == 1;
      }
    }
  }

  // ----- Amounts, on 64-bit words -----

  method CompressAmount(n0: nat) returns (r: nat)
    requires n0 < UINT64
    ensures r == Short(n0) % UINT64
  {
    hide Strip, Pow;
    if n0 == 0 { return 0; }
    var n, e := StripTens(n0);
    StripIs(n0, 0);
    if e < 9 {
      var d := n % 10;
      assert 1 <= d <= 9;
      n := n / 10;
      assert n * 9 + d - 1 < UINT64;
      r := (1 + (n * 9 + d - 1) * 10 % UINT64 + e) % UINT64;
      WrapSum((n * 9 + d - 1) * 10, 1 + e);
      assert Short(n0) == (n * 9 + d - 1) * 10 + (1 + e);
    } else {
      r := (1 + (n - 1) * 10 % UINT64 + 9) % UINT64;
      WrapSum((n - 1) * 10, 10);
    }
  }

  method StripTens(n0: nat) returns (n: nat, e: nat)
    requires n0 > 0
    ensures (n, e) == Strip(n0, 0) && 0 < n <= n0
  {
    n, e := n0, 0;
    while n % 10 == 0 && e < 9
      invariant 0 < n <= n0 && 0 <= e <= 9 && Strip(n0, 0) == Strip(n, e)
    {
      n := n / 10;
      e := e + 1;
    }
  }

  lemma WrapSum(x: int, y: int)
    ensures (x % UINT64 + y) % UINT64 == (x + y) % UINT64
  {
    ModAddLeft(x, y, UINT64);
  }

  method DecompressAmount(x0: nat) returns (n: nat)
    requires x0 < UINT64
    ensures n == Long(x0) % UINT64
  {
    if x0 == 0 { return 0; }
    var x: nat := x0 - 1;
    var e: nat := x % 10;
    x := x / 10;
    if e < 9 {
      var d := x % 9 + 1;
      x := x / 9;
      n := x * 10 + d;
    } else {
      n := x + 1;
    }
    assert n < UINT64;
    assert Long(x0) == n * Pow(10, e);
    n := TimesTens(n, e);
  }

  method TimesTens(m: nat, e: nat) returns (n: nat)
    requires m < UINT64
    ensures n == m * Pow(10, e) % UINT64
  {
    hide Pow;
    var k := e;
    n := m;
    TenTimes(m, 0);
    while k > 0
      invariant 0 <= k <= e && 0 <= n && n == m * Pow(10, e - k) % UINT64
    {
      ModMulLeft(m * Pow(10, e - k), 10, UINT64);
      TenTimes(m, e - k);
      n := n * 10 % UINT64;
      k := k - 1;
    }
  }

  /** Every amount of money survives, with no word wrapping on the way. */
  lemma MoneySurvives(n: nat)
    requires n <= MAX_MONEY
    ensures Short(n) < UINT64 && Long(Short(n) % UINT64) % UINT64 == n
  {
    hide Short, Long;
    ShortFits(n);
    LongOfShort(n);
    assert Short(n) % UINT64 == Short(n);
  }

  // ----- Amounts that do not fit -----

  /** When the short form of an amount fits a word. */
  predicate Fits(n: nat) { n % 10 == 0 || 9 * n + n % 10 - 9 < UINT64 }

  lemma FitsIs(n: nat)
    requires n < UINT64
    ensures Short(n) < UINT64 <==> Fits(n)
    ensures n % 10 != 0 ==> Short(n) == 9 * n + n % 10 - 9
  {
    if n > 0 {
      StripIs(n, 0);
      var (m, e) := Strip(n, 0);
      ShortIs(n, m, e);
      hide Short, Strip, Pow;
      if n % 10 == 0 {
        assert e > 0 by { StripStart(n); }
        TenFold(m, e);
        assert m / 10 * 9 + m % 10 <= m;
      } else {
        assert (m, e) == (n, 0) by { StripStart(n); }
      }
    }
  }

  lemma StripStart(n: nat)
    requires n > 0
    ensures n % 10 == 0 ==> Strip(n, 0).1 > 0
    ensures n % 10 != 0 ==> Strip(n, 0) == (n, 0)
  {
    if n % 10 == 0 { StripIs(n / 10, 1); }
  }

  lemma TenFold(m: nat, e: nat)
    requires e > 0
    ensures m * Pow(10, e) >= 10 * m
  {
    PowPos(10, e - 1);
    MulMono(1, Pow(10, e - 1), 10 * m);
    TenTimes(m, e - 1);
  }

  /** The digit that a short form which wrapped around k times is read to end in. */
  function Tail(k: nat): nat { 4 * k % 10 }

  /** How much the number read falls short of the amount, or one less. */
  function Lag(k: nat): nat { var d := (k * UINT64 + Tail(k)) / 10; d / 9 * 10 + d % 9 }

  /** What is read for a short form that wrapped around k times. */
  lemma WrappedLong(n: nat, k: nat) returns (c: nat)
    requires n % 10 != 0 && 1 <= k <= 8 && k * UINT64 <= 9 * n + n % 10 - 9 < (k + 1) * UINT64
    ensures (c == Lag(k) || c == Lag(k) + 1) && Long(9 * n + n % 10 - 9 - k * UINT64) == (n - c) * Pow(10, Tail(k))
  {
    hide Long, Pow;
    var e, d := Tail(k), (k * UINT64 + Tail(k)) / 10;
    assert k * UINT64 + e == 10 * d by { TailFits(k); }
    var y := n / 10 * 9 + n % 10 - 1 - d;
    assert 9 * n + n % 10 - 9 - k * UINT64 == 1 + y * 10 + e;
    c := if n % 10 - 1 >= d % 9 then Lag(k) else Lag(k) + 1;
    LongOf(y, e);
    ShiftNines(n / 10, n % 10, d);
  }

  lemma TailFits(k: nat)
    requires 1 <= k <= 8
    ensures (k * UINT64 + Tail(k)) % 10 == 0 && Tail(k) < 9
  { }

  /** Taking d off the digits in base nine takes it off the number, but for the digits that are left out. */
  lemma ShiftNines(q: nat, r: nat, d: nat)
    requires 1 <= r <= 9 && q * 9 + r - 1 >= d
    ensures var y := q * 9 + r - 1 - d;
      y / 9 * 10 + y % 9 + 1 == 10 * q + r - (d / 9 * 10 + d % 9) - (if r - 1 >= d % 9 then 0 else 1)
  {
    var y, g := q * 9 + r - 1 - d, r - 1 - d % 9;
    assert y == 9 * (q - d / 9) + g;
    if g >= 0 { DivUnique(y, 9, q - d / 9, g); } else { DivUnique(y, 9, q - d / 9 - 1, g + 9); }
  }

  /** The amount that is c less, times p, is the amount itself on 64 bits. */
  ghost predicate Returns(n: nat, c: int, p: int) { (n - c) * p % UINT64 == n }

  /** As p - 1 has an inverse, one amount at most returns. */
  lemma OneReturns(n: nat, c: int, p: int, inv: int, u: int, key: int, w: int)
    requires n < UINT64 && Returns(n, c, p) && (p - 1) * inv == UINT64 * u + 1
    requires c * p * inv == UINT64 * w + key && 0 <= key < UINT64
    ensures n == key
  {
    var t := (n - c) * p / UINT64;
    assert (n - c) * p == UINT64 * t + n;
    ReturnAlgebra(n, c, p, inv, t, u, UINT64);
    DivUnique(c * p * inv, UINT64, w, key);
    DivUnique(c * p * inv, UINT64, n * u - t * inv, n);
  }

  lemma ReturnAlgebra(n: int, c: int, p: int, inv: int, t: int, u: int, m: int)
    requires (n - c) * p == m * t + n && (p - 1) * inv == m * u + 1
    ensures c * p * inv == m * (n * u - t * inv) + n
  {
    assert n * (p - 1) == c * p + m * t;
    assert n * (p - 1) * inv == n * ((p - 1) * inv) == n * (m * u + 1);
    assert (c * p + m * t) * inv == c * p * inv + m * t * inv;
    assert n * (m * u + 1) == m * (n * u) + n && m * t * inv == m * (t * inv);
  }

  /** n is an amount whose short form wraps around k times. */
  ghost predicate Wraps(n: nat, k: nat) {
    n < UINT64 && n % 10 != 0 && k * UINT64 <= 9 * n + n % 10 - 9 < (k + 1) * UINT64
  }

  lemma Tens()
    ensures Pow(10, 2) == 100 && Pow(10, 4) == 10_000 && Pow(10, 6) == 1_000_000 && Pow(10, 8) == 100_000_000
  {
    assert Pow(10, 2) == 100;
    PowAdd(10, 2, 2);
    PowAdd(10, 4, 2);
    PowAdd(10, 4, 4);
  }

  lemma Lags()
    ensures Lag(1) == 2_049_638_230_412_172_402 && Lag(2) == 4_099_276_460_824_344_804
    ensures Lag(3) == 6_148_914_691_236_517_205 && Lag(4) == 8_198_552_921_648_689_607
    ensures Lag(5) == 10_248_191_152_060_862_008 && Lag(6) == 12_297_829_382_473_034_411
    ensures Lag(7) == 14_347_467_612_885_206_813 && Lag(8) == 16_397_105_843_297_379_214
  { }

  /** The amount that could return never wraps around as often as it would have to. */
  lemma NoneReturns(n: nat, k: nat, c: nat)
    requires 1 <= k <= 8 && Wraps(n, k) && (c == Lag(k) || c == Lag(k) + 1)
    ensures !Returns(n, c, Pow(10, Tail(k)))
  {
    Tens();
    Lags();
    hide Pow, Lag, Wraps, Returns;
    match k {
      case 1 => NotAfter1(n, c);
      case 2 => NotAfter2(n, c);
      case 3 => NotAfter3(n, c);
      case 4 => NotAfter4(n, c);
      case 5 => NotAfter5(n, c);
      case 6 => NotAfter6(n, c);
      case 7 => NotAfter7(n, c);
      case 8 => NotAfter8(n, c);
    }
  }

  lemma NotAfter1(n: nat, c: nat)
    requires Wraps(n, 1) && (c == 2_049_638_230_412_172_402 || c == 2_049_638_230_412_172_403)
    ensures !Returns(n, c, 10_000)
  {
    hide Returns;
    if Returns(n, c, 10_000) {
      if c == 2_049_638_230_412_172_402 {
        OneReturns(n, c, 10_000, 13_458_245_626_333_751_279, 7_295,
                   15_288_550_632_769_423_584, 14_953_606_251_481_945_867_176);
      } else {
        OneReturns(n, c, 10_000, 13_458_245_626_333_751_279, 7_295,
                   10_300_052_185_393_623_248, 14_953_606_251_481_945_874_472);
      }
    }
  }

  lemma NotAfter2(n: nat, c: nat)
    requires Wraps(n, 2) && (c == 4_099_276_460_824_344_804 || c == 4_099_276_460_824_344_805)
    ensures !Returns(n, c, 100_000_000)
  {
    hide Returns;
    if Returns(n, c, 100_000_000) {
      if c == 4_099_276_460_824_344_804 {
        OneReturns(n, c, 100_000_000, 300_153_063_250_403_071, 1_627_133,
                   14_480_868_974_329_830_400, 6_670_068_072_231_179_356_278_725);
      } else {
        OneReturns(n, c, 100_000_000, 300_153_063_250_403_071, 1_627_133,
                   14_781_022_037_580_233_472, 6_670_068_072_231_179_357_905_858);
      }
    }
  }

  lemma NotAfter3(n: nat, c: nat)
    requires Wraps(n, 3) && (c == 6_148_914_691_236_517_205 || c == 6_148_914_691_236_517_206)
    ensures !Returns(n, c, 100)
  {
    hide Returns;
    if Returns(n, c, 100) {
      if c == 6_148_914_691_236_517_205 {
        OneReturns(n, c, 100, 12_670_490_878_911_611_211, 68,
                   1_925_417_731_599_313_468, 422_349_695_963_720_373_677);
      } else {
        OneReturns(n, c, 100, 12_670_490_878_911_611_211, 68,
                   14_595_908_610_510_924_680, 422_349_695_963_720_373_745);
      }
    }
  }

  lemma NotAfter4(n: nat, c: nat)
    requires Wraps(n, 4) && (c == 8_198_552_921_648_689_607 || c == 8_198_552_921_648_689_608)
    ensures !Returns(n, c, 1_000_000)
  {
    hide Returns;
    if Returns(n, c, 1_000_000) {
      if c == 8_198_552_921_648_689_607 {
        OneReturns(n, c, 1_000_000, 1_672_254_362_768_354_751, 90_653,
                   14_161_661_572_577_611_840, 743_224_161_230_379_889_323_260);
      } else {
        OneReturns(n, c, 1_000_000, 1_672_254_362_768_354_751, 90_653,
                   15_833_915_935_345_966_592, 743_224_161_230_379_889_413_913);
      }
    }
  }

  lemma NotAfter5(n: nat, c: nat)
    requires Wraps(n, 5) && 0 < c < UINT64
    ensures !Returns(n, c, Pow(10, 0))
  {
    assert Pow(10, 0) == 1;
    if n >= c { DivUnique(n - c, UINT64, 0, n - c); } else { DivUnique(n - c, UINT64, -1, n - c + UINT64); }
  }

  lemma NotAfter6(n: nat, c: nat)
    requires Wraps(n, 6) && (c == 12_297_829_382_473_034_411 || c == 12_297_829_382_473_034_412)
    ensures !Returns(n, c, 10_000)
  {
    hide Returns;
    if Returns(n, c, 10_000) {
      if c == 12_297_829_382_473_034_411 {
        OneReturns(n, c, 10_000, 13_458_245_626_333_751_279, 7_295,
                   4_486_081_875_444_583_760, 89_721_637_508_891_675_195_765);
      } else {
        OneReturns(n, c, 10_000, 13_458_245_626_333_751_279, 7_295,
                   17_944_327_501_778_335_040, 89_721_637_508_891_675_203_060);
      }
    }
  }

  lemma NotAfter7(n: nat, c: nat)
    requires Wraps(n, 7) && (c == 14_347_467_612_885_206_813 || c == 14_347_467_612_885_206_814)
    ensures !Returns(n, c, 100_000_000)
  {
    hide Returns;
    if Returns(n, c, 100_000_000) {
      if c == 14_347_467_612_885_206_813 {
        OneReturns(n, c, 100_000_000, 300_153_063_250_403_071, 1_627_133,
                   4_266_028_162_630_124_288, 23_345_238_252_809_127_745_348_407);
      } else {
        OneReturns(n, c, 100_000_000, 300_153_063_250_403_071, 1_627_133,
                   4_566_181_225_880_527_360, 23_345_238_252_809_127_746_975_540);
      }
    }
  }

  lemma NotAfter8(n: nat, c: nat)
    requires Wraps(n, 8) && (c == 16_397_105_843_297_379_214 || c == 16_397_105_843_297_379_215)
    ensures !Returns(n, c, 100)
  {
    hide Returns;
    if Returns(n, c, 100) {
      if c == 16_397_105_843_297_379_214 {
        OneReturns(n, c, 100, 12_670_490_878_911_611_211, 68,
                   7_432_526_512_302_726_184, 1_126_265_855_903_254_329_851);
      } else {
        OneReturns(n, c, 100, 12_670_490_878_911_611_211, 68,
                   1_656_273_317_504_785_780, 1_126_265_855_903_254_329_920);
      }
    }
  }

  /** A short form that wraps around is never read as the amount it was made from. */
  lemma WrappedIsLost(n: nat)
    requires n < UINT64 && Short(n) >= UINT64
    ensures Long(Short(n) % UINT64) % UINT64 != n
  {
    hide Short, Long, Pow;
    FitsIs(n);
    var k := Short(n) / UINT64;
    assert Short(n) % UINT64 == Short(n) - k * UINT64 && 1 <= k <= 8;
    var c := WrappedLong(n, k);
    NoneReturns(n, k, c);
  }

  // ----- Scripts -----

  const OP_RETURN: Byte := 0x6a
  const OP_DUP: Byte := 0x76
  const OP_EQUAL: Byte := 0x87
  const OP_EQUALVERIFY: Byte := 0x88
  const OP_HASH160: Byte := 0xa9
  const OP_CHECKSIG: Byte := 0xac
  const SPECIAL_SCRIPTS := 6
  const MAX_SCRIPT_SIZE := 10000

  type Bytes = seq<Byte>

  /** What is used of the curve library: whether a full public key is on the curve, and the full key
      for a compressed one. */
  datatype Curve = Curve(fullyValid: Bytes -> bool, decompress: Bytes -> Option<Bytes>)

  /** The parity of a point's second coordinate and its first coordinate determine the point. */
  ghost predicate Sound(c: Curve) {
    && (forall k :: |k| == 65 && k[0] == 4 && c.fullyValid(k) ==> c.decompress([2 + k[64] % 2] + k[1..33]) == Some(k))
    && (forall k :: c.decompress(k).Some? ==> |c.decompress(k).value| == 65)
  }

  predicate IsToKeyID(s: Bytes) {
    |s| == 25 && s[0] == OP_DUP && s[1] == OP_HASH160 && s[2] == 20 && s[23] == OP_EQUALVERIFY && s[24] == OP_CHECKSIG
  }

  predicate IsToScriptID(s: Bytes) {
    |s| == 23 && s[0] == OP_HASH160 && s[1] == 20 && s[22] == OP_EQUAL
  }

  predicate IsToPubKey(c: Curve, s: Bytes) {
    || (|s| == 35 && s[0] == 33 && s[34] == OP_CHECKSIG && (s[1] == 2 || s[1] == 3))
    || (|s| == 67 && s[0] == 65 && s[66] == OP_CHECKSIG && s[1] == 4 && c.fullyValid(s[1..66]))
  }

  /** The short form of a script, if it has one. */
  function CompressScript(c: Curve, s: Bytes): Option<Bytes> {
    if IsToKeyID(s) then Some([0] + s[3..23])
    else if IsToScriptID(s) then Some([1] + s[2..22])
    else if IsToPubKey(c, s) then
      if s[1] == 4 then Some([4 + s[65] % 2] + s[2..34]) else Some([s[1]] + s[2..34])
    else None
  }

  function GetSpecialSize(n: nat): nat {
    if n <= 1 then 20 else if n <= 5 then 32 else 0
  }

  /** The script that a short form stands for; None if the key in it is not on the curve. */
  function DecompressScript(c: Curve, n: nat, x: Bytes): Option<Bytes>
    requires n < SPECIAL_SCRIPTS && |x| == GetSpecialSize(n)
  {
    if n == 0 then Some([OP_DUP, OP_HASH160, 20] + x + [OP_EQUALVERIFY, OP_CHECKSIG])
    else if n == 1 then Some([OP_HASH160, 20] + x + [OP_EQUAL])
    else if n <= 3 then Some([33, n] + x + [OP_CHECKSIG])
    else
      match c.decompress([n - 2] + x)
      case None => None
      case Some(k) => Some([65] + k + [OP_CHECKSIG])
  }

  /** A short form has the size its first byte announces, and stands for the script it was made from. */
  ghost predicate StandsFor(c: Curve, x: Bytes, s: Bytes) {
    |x| > 0 && x[0] < SPECIAL_SCRIPTS && |x| == 1 + GetSpecialSize(x[0]) &&
    DecompressScript(c, x[0], x[1..]) == Some(s)
  }

  lemma ScriptComesBack(c: Curve, s: Bytes)
    requires Sound(c) && CompressScript(c, s).Some?
    ensures StandsFor(c, CompressScript(c, s).value, s)
  {
    if IsToKeyID(s) {
      KeyIDComesBack(c, s);
    } else if IsToScriptID(s) {
      ScriptIDComesBack(c, s);
    } else if s[1] == 4 {
      FullKeyComesBack(c, s);
    } else {
      ShortKeyComesBack(c, s);
    }
  }

  lemma KeyIDComesBack(c: Curve, s: Bytes)
    requires IsToKeyID(s)
    ensures StandsFor(c, [0] + s[3..23], s)
  {
    assert ([0] + s[3..23])[1..] == s[3..23];
    assert s == [OP_DUP, OP_HASH160, 20] + s[3..23] + [OP_EQUALVERIFY, OP_CHECKSIG];
  }

  lemma ScriptIDComesBack(c: Curve, s: Bytes)
    requires IsToScriptID(s)
    ensures StandsFor(c, [1] + s[2..22], s)
  {
    assert ([1] + s[2..22])[1..] == s[2..22];
    assert s == [OP_HASH160, 20] + s[2..22] + [OP_EQUAL];
  }

  lemma ShortKeyComesBack(c: Curve, s: Bytes)
    requires |s| == 35 && IsToPubKey(c, s)
    ensures StandsFor(c, [s[1]] + s[2..34], s)
  {
    assert ([s[1]] + s[2..34])[1..] == s[2..34];
    assert s == [33, s[1]] + s[2..34] + [OP_CHECKSIG];
  }

  lemma FullKeyComesBack(c: Curve, s: Bytes)
    requires Sound(c) && |s| == 67 && IsToPubKey(c, s)
    ensures StandsFor(c, [4 + s[65] % 2] + s[2..34], s)
  {
    var k, x := s[1..66], [4 + s[65] % 2] + s[2..34];
    SliceOfSlice(s, 1, 66, 1, 33);
    assert k[64] == s[65];
    assert x[1..] == s[2..34];
    assert [x[0] - 2] + x[1..] == [2 + k[64] % 2] + k[1..33];
    assert s == [65] + k + [OP_CHECKSIG];
  }

  lemma SliceOfSlice(s: Bytes, a: nat, b: nat, c: nat, d: nat)
    requires a <= b <= |s| && c <= d <= b - a
    ensures s[a..b][c..d] == s[a + c..a + d]
  {
    var x, y := s[a..b][c..d], s[a + c..a + d];
    forall i | 0 <= i < d - c ensures x[i] == y[i] { assert x[i] == s[a..b][c + i]; }
    assert x == y;
  }

  /** The stored form; a size takes a 32-bit word. */
  function ScriptBytes(c: Curve, s: Bytes): Bytes {
    match CompressScript(c, s)
    case Some(x) => x
    case None => VarBytes((|s| + SPECIAL_SCRIPTS) % UINT32) + s
  }

  /** The scripts that pay to a key hash, to a script hash and to a public key. */
  function ToKeyHash(x: Bytes): Bytes { [0x76, 0xa9, 20] + x + [0x88, 0xac] }
  function ToScriptHash(x: Bytes): Bytes { [0xa9, 20] + x + [0x87] }
  function ToKey(k: Bytes): Bytes { [|k| % 0x100] + k + [0xac] }

  /** The bytes written for each kind of script that has a short form. */
  lemma ShortForms(c: Curve, x: Bytes)
    ensures |x| == 20 ==> ScriptBytes(c, ToKeyHash(x)) == [0] + x && ScriptBytes(c, ToScriptHash(x)) == [1] + x
    ensures |x| == 33 && (x[0] == 2 || x[0] == 3) ==> ScriptBytes(c, ToKey(x)) == x
    ensures |x| == 65 && x[0] == 4 && c.fullyValid(x) ==> ScriptBytes(c, ToKey(x)) == [4 + x[64] % 2] + x[1..33]
  {
    if |x| == 20 {
      assert ToKeyHash(x)[3..23] == x;
      assert ToScriptHash(x)[2..22] == x;
    } else if |x| == 33 && (x[0] == 2 || x[0] == 3) {
      assert [ToKey(x)[1]] + ToKey(x)[2..34] == x;
    } else if |x| == 65 && x[0] == 4 && c.fullyValid(x) {
      assert ToKey(x)[1..66] == x;
      SliceOfSlice(ToKey(x), 1, 66, 1, 33);
    }
  }

  ghost predicate PaysKeyHash(s: Bytes) { exists x :: |x| == 20 && s == ToKeyHash(x) }
  ghost predicate PaysScriptHash(s: Bytes) { exists x :: |x| == 20 && s == ToScriptHash(x) }
  ghost predicate PaysShortKey(s: Bytes) { exists k :: |k| == 33 && (k[0] == 2 || k[0] == 3) && s == ToKey(k) }
  ghost predicate PaysFullKey(c: Curve, s: Bytes) {
    exists k :: |k| == 65 && k[0] == 4 && c.fullyValid(k) && s == ToKey(k)
  }

  /** A script that is not one of these is written whole, after its size plus six. */
  lemma NoOtherShortForms(c: Curve, s: Bytes)
    requires !PaysKeyHash(s) && !PaysScriptHash(s) && !PaysShortKey(s) && !PaysFullKey(c, s)
    ensures CompressScript(c, s).None? && ScriptBytes(c, s) == VarBytes((|s| + 6) % UINT32) + s
  {
    hide PaysKeyHash, PaysScriptHash, PaysShortKey, PaysFullKey, VarBytes;
    if IsToKeyID(s) {
      assert false by { KeyHashIs(s); }
    } else if IsToScriptID(s) {
      assert false by { ScriptHashIs(s); }
    } else if IsToPubKey(c, s) {
      assert false by { KeyIs(c, s); }
    }
  }

  lemma KeyHashIs(s: Bytes)
    requires IsToKeyID(s)
    ensures PaysKeyHash(s)
  {
    assert s == ToKeyHash(s[3..23]);
  }

  lemma ScriptHashIs(s: Bytes)
    requires IsToScriptID(s)
    ensures PaysScriptHash(s)
  {
    assert s == ToScriptHash(s[2..22]);
  }

  lemma KeyIs(c: Curve, s: Bytes)
    requires IsToPubKey(c, s)
    ensures PaysShortKey(s) || PaysFullKey(c, s)
  {
    assert s == ToKey(s[1..|s| - 1]);
  }

  /** Reads a script that replaces an empty one, and gives what is left. */
  function ReadScript(c: Curve, s: Bytes): Option<(Bytes, Bytes)> {
    match ReadVar(s)
    case None => None
    case Some((nSize, t)) => ReadSized(c, nSize % UINT32, t)
  }

  function ReadSized(c: Curve, n: nat, t: Bytes): Option<(Bytes, Bytes)> {
    if n < SPECIAL_SCRIPTS then
      if |t| < GetSpecialSize(n) then None
      else
        var sc := DecompressScript(c, n, t[..GetSpecialSize(n)]);
        Some((if sc.Some? then sc.value else [], t[GetSpecialSize(n)..]))
    else if |t| < n - SPECIAL_SCRIPTS then None
    else Some((if n - SPECIAL_SCRIPTS > MAX_SCRIPT_SIZE then [OP_RETURN] else t[..n - SPECIAL_SCRIPTS],
               t[n - SPECIAL_SCRIPTS..]))
  }

  /** A script whose size the stored form can tell. */
  predicate Sizable(c: Curve, s: Bytes) { CompressScript(c, s).Some? || |s| + SPECIAL_SCRIPTS < UINT32 }

  /** What is read for a script: itself, unless it has no short form and is too long to be spent, and then an
      unspendable script in its place. That is so exactly if its size can be told. */
  lemma ScriptRoundTrip(c: Curve, s: Bytes, t: Bytes)
    requires Sound(c)
    ensures var kept := if CompressScript(c, s).None? && |s| > 10000 then [0x6a] else s;
      ReadScript(c, ScriptBytes(c, s) + t) == Some((kept, t)) <==> Sizable(c, s)
  {
    if CompressScript(c, s).Some? {
      ScriptComesBack(c, s);
      hide CompressScript;
      ReadShortForm(c, CompressScript(c, s).value, s, t);
    } else {
      hide CompressScript;
      ReadPlainScript(c, s, t);
    }
  }

  lemma ReadShortForm(c: Curve, x: Bytes, s: Bytes, t: Bytes)
    requires StandsFor(c, x, s)
    ensures ReadScript(c, x + t) == Some((s, t))
  {
    hide DecompressScript;
    var u := x[1..] + t;
    VarRoundTrip(x[0], u);
    assert x + t == VarBytes(x[0]) + u;
    hide ReadVar;
    assert u[..|x| - 1] == x[1..] && u[|x| - 1..] == t;
  }

  lemma ReadPlainScript(c: Curve, s: Bytes, t: Bytes)
    ensures var n, kept := (|s| + SPECIAL_SCRIPTS) % UINT32, if |s| > MAX_SCRIPT_SIZE then [OP_RETURN] else s;
      ReadScript(c, VarBytes(n) + s + t) == Some((kept, t)) <==> |s| + SPECIAL_SCRIPTS < UINT32
  {
    hide DecompressScript, ReadVar, VarBytes;
    var n := (|s| + SPECIAL_SCRIPTS) % UINT32;
    VarRoundTrip(n, s + t);
    assert VarBytes(n) + s + t == VarBytes(n) + (s + t);
    SizeWraps(|s| + SPECIAL_SCRIPTS);
    SizedIs(c, s, t);
    hide ReadSized;
    assert ReadScript(c, VarBytes(n) + s + t) == ReadSized(c, n, s + t);
  }

  lemma SizeWraps(n: nat)
    ensures n % UINT32 % UINT32 == n % UINT32 && (n % UINT32 == n <==> n < UINT32)
  { }

  lemma SizedIs(c: Curve, s: Bytes, t: Bytes)
    ensures var n, kept := (|s| + SPECIAL_SCRIPTS) % UINT32, if |s| > MAX_SCRIPT_SIZE then [OP_RETURN] else s;
      ReadSized(c, n, s + t) == Some((kept, t)) <==> |s| + SPECIAL_SCRIPTS < UINT32
  {
    hide DecompressScript;
    SizeWraps(|s| + SPECIAL_SCRIPTS);
    if |s| + SPECIAL_SCRIPTS < UINT32 {
      assert (s + t)[..|s|] == s && (s + t)[|s|..] == t;
    }
  }
}

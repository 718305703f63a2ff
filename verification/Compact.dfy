/** The compact encoding of a 256-bit target (an 8-bit size, a sign bit and a 23-bit mantissa), and the
    amount of work that a target stands for. */
module Compact {
  import opened Arith
  import opened Limbs
  import opened BigNum
  import opened Wrappers

  const TOP := 0x100_0000
  const SIGN := 0x80_0000

  // ----- Reading an encoding -----

  function Size(n: nat): nat { n / TOP }

  function Mantissa(n: nat): nat { n % SIGN }

  /** The mantissa, cut down to the bytes the size leaves it. */
  function Word(n: nat): nat {
    var m, s := Mantissa(n), Size(n);
    if s >= 3 then m else if s == 2 then m / 0x100 else if s == 1 then m / 0x10000 else m / TOP
  }

  /** The magnitude an encoding denotes, without any bound on its width. */
  function Exact(n: nat): int {
    if Size(n) <= 3 then Word(n) else Word(n) * Pow(256, Size(n) - 3)
  }

  predicate NegativeFlag(n: nat) { Word(n) != 0 && n / SIGN % 2 == 1 }

  predicate OverflowFlag(n: nat) {
    Word(n) != 0 && (Size(n) > 34 || (Word(n) > 0xff && Size(n) > 33) || (Word(n) > 0xffff && Size(n) > 32))
  }

  // ----- Writing an encoding -----

  /** The number of bytes v takes. */
  function Bytes(v: nat): nat { if v == 0 then 0 else 1 + Bytes(v / 256) }

  /** The three leading bytes of v. */
  function Lead(v: nat): int {
    var k := Bytes(v);
    if k <= 3 then v * Pow(256, 3 - k) else PowPos(256, k - 3); v / Pow(256, k - 3)
  }

  function Exponent(v: nat): nat { if Lead(v) >= SIGN then Bytes(v) + 1 else Bytes(v) }

  function Fraction(v: nat): int { if Lead(v) >= SIGN then Lead(v) / 256 else Lead(v) }

  function Encode(v: nat): int { Exponent(v) * TOP + Fraction(v) }

  // ----- Powers of 256 -----

  lemma Powers()
    ensures Pow(256, 0) == 1 && Pow(256, 1) == 256 && Pow(256, 2) == 0x10000 && Pow(256, 3) == TOP
  {
    assert Pow(256, 2) == 256 * Pow(256, 1);
    assert Pow(256, 3) == 256 * Pow(256, 2);
  }

  lemma WordOf256(e: nat)
    ensures Pow(2, 8 * e) == Pow(256, e)
  {
    PowMul(2, 8, e);
    PowAdd(2, 4, 4);
    assert Pow(2, 4) == 2 * Pow(2, 3) == 16;
  }

  /** The modulus of an eight-limb number, in bytes. */
  lemma Width()
    ensures Pow(BASE, 8) == Pow(256, 32)
  {
    PowMul(256, 4, 8);
    Powers();
    assert Pow(256, 4) == 256 * Pow(256, 3) == BASE;
  }

  /** A number with k significant bytes, scaled by e bytes. */
  lemma Scaled(w: int, e: nat, k: nat)
    requires Pow(256, k) <= w < Pow(256, k + 1)
    ensures Pow(256, e + k) <= w * Pow(256, e) < Pow(256, e + k + 1)
  {
    PowPos(256, e);
    PowAdd(256, e, k);
    PowAdd(256, e, k + 1);
    ScaledAlgebra(w, Pow(256, e), Pow(256, k), Pow(256, k + 1));
  }

  lemma ScaledAlgebra(w: int, p: int, lo: int, hi: int)
    requires p > 0 && lo <= w < hi
    ensures p * lo <= w * p < p * hi
  {
    MulMono(lo, w, p);
    MulMono(w + 1, hi, p);
  }

  /** What an encoding denotes: its lower 23 bits times a power of 256, the exponent being its top byte less three,
      rounded down; and the bit between is the sign of a number that is not zero. */
  lemma Denotes(n: nat)
    ensures Exact(n) == n % 0x80_0000 * Pow(256, n / 0x100_0000) / 0x100_0000
    ensures NegativeFlag(n) <==> Exact(n) != 0 && n / 0x80_0000 % 2 == 1
  {
    var m, s := Mantissa(n), Size(n);
    Powers();
    hide Pow;
    if s > 3 {
      PowAdd(256, s - 3, 3);
      PowPos(256, s - 3);
      DenotesAlgebra(m, Pow(256, s - 3));
    } else if s == 2 {
      DivUnique(m * 0x10000, TOP, m / 0x100, m % 0x100 * 0x10000);
    } else if s == 1 {
      DivUnique(m * 0x100, TOP, m / 0x10000, m % 0x10000 * 0x100);
    }
  }

  lemma DenotesAlgebra(m: nat, p: nat)
    requires p > 0
    ensures m * (p * TOP) / TOP == m * p && (m * p != 0 <==> m != 0)
  {
    assert m * (p * TOP) == TOP * (m * p);
    DivUnique(m * (p * TOP), TOP, m * p, 0);
    if m > 0 { MulMono(1, m, p); }
  }

  /** The overflow flag is set exactly when the number denoted does not fit 256 bits. */
  lemma OverflowIsExact(n: nat)
    ensures OverflowFlag(n) <==> Exact(n) >= Pow(256, 32)
  {
    var w, s := Word(n), Size(n);
    Powers();
    if s <= 3 {
      PowGrows(256, 3, 32);
    } else if w > 0 {
      var k := if w > 0xffff then 2 else if w > 0xff then 1 else 0;
      Scaled(w, s - 3, k);
      if s - 3 + k >= 32 {
        PowGrows(256, 32, s - 3 + k);
      } else {
        PowGrows(256, s - 3 + k + 1, 32);
      }
    } else {
      PowPos(256, 32);
    }
  }

  // ----- The size of a number -----

  lemma {:induction false} BytesBound(v: nat)
    ensures v < Pow(256, Bytes(v))
    ensures v > 0 ==> Bytes(v) > 0 && Pow(256, Bytes(v) - 1) <= v
  {
    if v > 0 {
      BytesBound(v / 256);
      var k := Bytes(v / 256);
      assert Pow(256, k + 1) == 256 * Pow(256, k);
      if v / 256 > 0 {
        assert Pow(256, k) == 256 * Pow(256, k - 1);
      }
    }
  }

  lemma BytesIs(v: nat, k: nat)
    requires k > 0 && Pow(256, k - 1) <= v < Pow(256, k)
    ensures Bytes(v) == k
  {
    PowPos(256, k - 1);
    BytesBound(v);
    hide Pow, Bytes;
    var b := Bytes(v);
    if b < k {
      PowGrows(256, b, k - 1);
    } else if b > k {
      PowGrows(256, k, b - 1);
    }
  }

  lemma {:induction false} BytesGrow(v: nat, w: nat)
    requires v <= w
    ensures Bytes(v) <= Bytes(w)
  {
    if v > 0 { BytesGrow(v / 256, w / 256); }
  }

  lemma BytesFit(v: nat)
    requires v < Pow(256, 32)
    ensures Bytes(v) <= 32
  {
    BytesBound(v);
    if Bytes(v) > 32 {
      PowGrows(256, 32, Bytes(v) - 1);
    }
  }

  lemma LeadRange(v: nat)
    requires v > 0
    ensures 0x10000 <= Lead(v) < TOP
  {
    BytesBound(v);
    Powers();
    var k := Bytes(v);
    if k <= 3 {
      PowAdd(256, k - 1, 3 - k);
      PowAdd(256, k, 3 - k);
      PowPos(256, 3 - k);
      ScaledAlgebra(v, Pow(256, 3 - k), Pow(256, k - 1), Pow(256, k));
    } else {
      PowAdd(256, 2, k - 3);
      PowAdd(256, 3, k - 3);
      PowPos(256, k - 3);
      QuotientRange(v, Pow(256, k - 3), 0x10000, TOP);
    }
  }

  lemma QuotientRange(v: int, p: int, lo: int, hi: int)
    requires p > 0 && lo * p <= v < hi * p
    ensures lo <= v / p < hi
  {
    var q := v / p;
    if q < lo { MulMono(q + 1, lo, p); assert false; }
    if q >= hi { MulMono(hi, q, p); assert false; }
  }

  /** The fields of an encoding are the size and the mantissa that went into it. */
  lemma Fields(v: nat)
    ensures 0 <= Fraction(v) < SIGN && Encode(v) >= 0
    ensures Size(Encode(v)) == Exponent(v) && Mantissa(Encode(v)) == Fraction(v)
    ensures Encode(v) / SIGN % 2 == 0
  {
    if v > 0 { LeadRange(v); }
    SplitFields(Exponent(v), Fraction(v));
  }

  lemma SplitFields(s: nat, m: int)
    requires 0 <= m < SIGN
    ensures (s * TOP + m) / TOP == s && (s * TOP + m) % SIGN == m
    ensures (s * TOP + m) / SIGN == 2 * s
    ensures (s * TOP + SIGN + m) / TOP == s && (s * TOP + SIGN + m) % SIGN == m
    ensures (s * TOP + SIGN + m) / SIGN == 2 * s + 1
  { }

  /** The encoding of a number that is not zero has no leading zero byte in its mantissa that it could do without. */
  lemma Normal(v: nat)
    requires v > 0
    ensures Encode(v) >= 0 && 0x8000 <= Encode(v) % 0x100_0000 < 0x80_0000
  {
    LeadRange(v);
    Fields(v);
    hide Lead, Bytes;
    SplitFields(Exponent(v), Fraction(v));
    DivUnique(Encode(v), TOP, Exponent(v), Fraction(v));
  }

  /** Encodings and the numbers they stand for. */
  lemma Examples()
    ensures Exact(0x0112_3456) == 0x12 && Exact(0x0200_8000) == 0x80 && Exact(0x0500_9234) == 0x9234_0000
    ensures Exact(0x0492_3456) == 0x1234_5600 && NegativeFlag(0x0492_3456)
    ensures Encode(0x12) == 0x0112_0000 && Encode(0x80) == 0x0200_8000 && Encode(0x9234_0000) == 0x0500_9234
    ensures Encode(0x1234_5600) == 0x0412_3456
  {
    Powers();
    assert Bytes(0x12) == 1 && Bytes(0x80) == 1;
    assert Bytes(0x1234_5600) == 4 && Bytes(0x9234_0000) == 4;
  }

  /** How many low bytes an encoding drops. */
  function Dropped(v: nat): nat { if Exponent(v) > 3 then Exponent(v) - 3 else 0 }

  /** Encoding rounds down to a multiple of a power of 256. */
  lemma RoundsDown(v: nat)
    requires v > 0
    ensures Encode(v) >= 0 && Pow(256, Dropped(v)) > 0
    ensures Exact(Encode(v)) == v / Pow(256, Dropped(v)) * Pow(256, Dropped(v))
  {
    Fields(v);
    LeadRange(v);
    Powers();
    PowPos(256, Dropped(v));
    var k := Bytes(v);
    BytesBound(v);
    if k > 3 {
      PowPos(256, k - 3);
      if Lead(v) >= SIGN {
        DivDiv(v, Pow(256, k - 3), 256);
        assert Pow(256, k - 2) == 256 * Pow(256, k - 3);
      }
    } else {
      RoundsDownShort(v);
    }
  }

  lemma RoundsDownShort(v: nat)
    requires v > 0 && Bytes(v) <= 3
    ensures Encode(v) >= 0 && Exact(Encode(v)) == if Exponent(v) == 4 then v / 256 * 256 else v
  {
    Fields(v);
    Powers();
    BytesBound(v);
    var k := Bytes(v);
    assert Lead(v) == v * Pow(256, 3 - k);
    if k == 1 {
      assert Lead(v) == v * 0x10000;
    } else if k == 2 {
      assert Lead(v) == v * 0x100;
    } else {
      assert Lead(v) == v;
    }
  }

  /** The least a mantissa can be, once bytes are dropped. */
  lemma DroppedFraction(v: nat)
    requires v > 0 && Dropped(v) > 0
    ensures Pow(256, Dropped(v)) > 0 && v / Pow(256, Dropped(v)) == Fraction(v) >= 0x8000
  {
    LeadRange(v);
    PowPos(256, Dropped(v));
    var k := Bytes(v);
    Powers();
    if k > 3 {
      PowPos(256, k - 3);
      if Lead(v) >= SIGN {
        DivDiv(v, Pow(256, k - 3), 256);
        assert Pow(256, k - 2) == 256 * Pow(256, k - 3);
      }
    } else {
      assert k == 3 && Lead(v) == v;
    }
  }

  // ----- What an encoding keeps -----

  /** Encoding and decoding gives the largest number not above v that has an encoding at all. */
  lemma LargestNotAbove(v: nat, n: nat)
    requires Exact(n) <= v
    ensures Encode(v) >= 0 && Exact(n) <= Exact(Encode(v)) <= v
  {
    Fields(v);
    if v == 0 {
      assert Encode(0) == 0;
      ExactNonNegative(n);
    } else {
      RoundsDown(v);
      var e := Dropped(v);
      if e > 0 {
        DroppedFraction(v);
        NothingBetween(n, v, e);
      }
      FloorBelow(v, Pow(256, e));
    }
  }

  lemma FloorBelow(v: int, p: int)
    requires p > 0
    ensures v / p * p <= v
  { }

  lemma ExactNonNegative(n: nat)
    ensures Exact(n) >= 0
  {
    if Size(n) > 3 {
      PowPos(256, Size(n) - 3);
      MulMono(0, Word(n), Pow(256, Size(n) - 3));
    }
  }

  lemma NothingBetween(n: nat, v: nat, e: nat)
    requires e > 0 && Exact(n) <= v
    requires Pow(256, e) > 0 && v / Pow(256, e) >= 0x8000
    ensures Exact(n) <= v / Pow(256, e) * Pow(256, e)
  {
    var p := Pow(256, e);
    var d: nat := if Size(n) > 3 then Size(n) - 3 else 0;
    assert Exact(n) == Word(n) * Pow(256, d) by { assert Pow(256, 0) == 1; }
    assert p == 256 * Pow(256, e - 1);
    assert Word(n) < SIGN;
    Between(Word(n), v, d, e);
  }

  lemma Between(x: nat, v: int, d: nat, e: nat)
    requires e > 0 && x < SIGN && x * Pow(256, d) <= v
    requires Pow(256, e) == 256 * Pow(256, e - 1) > 0 && v / Pow(256, e) >= 0x8000
    ensures x * Pow(256, d) <= v / Pow(256, e) * Pow(256, e)
  {
    hide Pow;
    if d >= e {
      PowAdd(256, d - e, e);
      assert x * Pow(256, d) == x * Pow(256, d - e) * Pow(256, e);
      MultipleBelow(v, Pow(256, e), x * Pow(256, d - e));
    } else {
      PowGrows(256, d, e - 1);
      PowPos(256, d);
      BetweenSmall(x, Pow(256, d), Pow(256, e - 1), v / Pow(256, e));
    }
  }

  lemma BetweenSmall(x: nat, q: int, r: int, f: int)
    requires x < SIGN && 0 < q <= r && f >= 0x8000
    ensures x * q <= f * (256 * r)
  {
    MulMono(x, SIGN, q);
    MulMono(0x8000, f, 256 * r);
  }

  lemma MultipleBelow(v: int, p: int, x: int)
    requires p > 0 && x * p <= v
    ensures x * p <= v / p * p
  {
    if v / p < x {
      MulMono(v / p + 1, x, p);
    }
    MulMono(x, if v / p < x then x else v / p, p);
  }

  /** The decoded number sets neither flag, and encoding it once more changes nothing. */
  lemma Idempotent(v: nat)
    requires v < Pow(256, 32)
    ensures Encode(v) >= 0 && 0 <= Exact(Encode(v)) < Pow(256, 32)
    ensures !NegativeFlag(Encode(v)) && !OverflowFlag(Encode(v))
    ensures Encode(Exact(Encode(v))) == Encode(v)
  {
    Fields(v);
    ExactNonNegative(Encode(v));
    LargestNotAbove(v, 0);
    OverflowIsExact(Encode(v));
    if v > 0 {
      RoundsDown(v);
      if Dropped(v) > 0 { SameFields(v); } else { assert Pow(256, 0) == 1; }
    }
  }

  lemma SameFields(v: nat)
    requires v > 0 && Dropped(v) > 0
    ensures Pow(256, Dropped(v)) > 0 && v / Pow(256, Dropped(v)) * Pow(256, Dropped(v)) >= 0
    ensures Encode(v / Pow(256, Dropped(v)) * Pow(256, Dropped(v))) == Encode(v)
  {
    hide Pow;
    DroppedFraction(v);
    LeadRange(v);
    var k, p := Bytes(v), Pow(256, Dropped(v));
    var w := Fraction(v) * p;
    MulMono(0, Fraction(v), p);
    SameLead(v, w);
  }

  lemma SameLead(v: nat, w: nat)
    requires v > 0 && Dropped(v) > 0
    requires Pow(256, Dropped(v)) > 0 && v / Pow(256, Dropped(v)) == Fraction(v) >= 0x8000
    requires w == Fraction(v) * Pow(256, Dropped(v))
    ensures Bytes(w) == Bytes(v)
    ensures Lead(w) == if Lead(v) >= SIGN then 256 * Fraction(v) else Lead(v)
  {
    hide Pow, Bytes;
    LeadRange(v);
    FloorBelow(v, Pow(256, Dropped(v)));
    SameBytes(v, w, if Lead(v) >= SIGN then 1 else 2);
    if Lead(v) >= SIGN {
      LeadOf(w, Bytes(v) - 3, Fraction(v) * 256);
    } else {
      LeadOf(w, Bytes(v) - 3, Fraction(v));
    }
  }

  lemma SameBytes(v: nat, w: nat, j: nat)
    requires v > 0 && Dropped(v) > 0 && Bytes(v) == Dropped(v) + j + 1 && 1 <= j <= 2
    requires Fraction(v) >= (if j == 1 then 256 else 0x10000)
    requires w == Fraction(v) * Pow(256, Dropped(v)) <= v
    requires Pow(256, Dropped(v)) > 0
    ensures Bytes(w) == Bytes(v)
    ensures Dropped(v) == Bytes(v) - j - 1
    ensures j == 1 ==> w == Fraction(v) * 256 * Pow(256, Bytes(v) - 3)
  {
    Powers();
    var e := Dropped(v);
    BytesBound(v);
    PowAdd(256, e, j);
    hide Pow, Bytes, Fraction;
    MulMono(if j == 1 then 256 else 0x10000, Fraction(v), Pow(256, e));
    BytesIs(w, Bytes(v));
    if j == 1 { OneByteLess(Fraction(v), e); }
  }

  lemma OneByteLess(f: int, e: nat)
    requires e > 0
    ensures f * Pow(256, e) == f * 256 * Pow(256, e - 1)
  { }

  lemma LeadOf(w: nat, e: nat, q: int)
    requires Bytes(w) == e + 3 && w == q * Pow(256, e)
    ensures Lead(w) == q
  {
    hide Bytes;
    if e == 0 {
      assert Pow(256, 0) == 1;
    } else {
      PowPos(256, e);
      QuotientOf(w, Pow(256, e), q);
    }
  }

  lemma QuotientOf(w: int, p: int, q: int)
    requires p > 0 && w == q * p
    ensures w / p == q
  {
    DivUnique(w, p, q, 0);
  }

  /** Larger targets have larger encodings. */
  lemma Monotone(v: nat, w: nat)
    requires v <= w
    ensures Encode(v) <= Encode(w)
  {
    Fields(v);
    Fields(w);
    BytesGrow(v, w);
    if v > 0 {
      LeadRange(v);
      LeadRange(w);
      if Bytes(v) == Bytes(w) {
        var k := Bytes(v);
        if k <= 3 {
          PowPos(256, 3 - k);
          MulMono(v, w, Pow(256, 3 - k));
        } else {
          PowPos(256, k - 3);
          DivMono(v, w, Pow(256, k - 3));
        }
      }
    } else {
      assert Encode(0) == 0;
    }
  }

  lemma ExactPositive(v: nat)
    requires v > 0
    ensures Encode(v) >= 0 && Exact(Encode(v)) > 0
  {
    hide Exact, Lead, Bytes;
    RoundsDown(v);
    if Dropped(v) > 0 {
      DroppedFraction(v);
      MulMono(1, Fraction(v), Pow(256, Dropped(v)));
    } else {
      assert Pow(256, 0) == 1;
    }
  }

  /** A sign asked for comes back, except on zero, and does not touch the magnitude. */
  lemma SignComesBack(v: nat)
    requires v > 0
    ensures Encode(v) >= 0
    ensures NegativeFlag(Encode(v) + SIGN) && Exact(Encode(v) + SIGN) == Exact(Encode(v))
  {
    hide Lead, Bytes, Pow;
    Fields(v);
    ExactPositive(v);
    SplitFields(Exponent(v), Fraction(v));
    SameWord(Encode(v), Encode(v) + SIGN);
  }

  lemma SameWord(m: nat, n: nat)
    requires Size(m) == Size(n) && Mantissa(m) == Mantissa(n)
    ensures Word(m) == Word(n) && Exact(m) == Exact(n)
    ensures Exact(m) != 0 ==> Word(m) != 0
  { }

  // ----- The operations on limbs -----

  /** Loads the number an encoding stands for, wrapped to 256 bits, with its two flags. */
  method SetCompact(a: BaseUint, nCompact: nat) returns (fNegative: bool, fOverflow: bool)
    requires a.Valid() && a.pn.Length == 8 && nCompact < BASE
    modifies a.pn
    ensures a.Valid() && Pow(256, 32) > 0 && a.V() == Exact(nCompact) % Pow(256, 32)
    ensures fNegative == NegativeFlag(nCompact)
    ensures fOverflow == OverflowFlag(nCompact)
    ensures fOverflow <==> a.V() != Exact(nCompact)
  {
    var nSize := nCompact / TOP;
    var nWord := nCompact % SIGN;
    Width();
    PowPos(256, 32);
    ExactNonNegative(nCompact);
    OverflowIsExact(nCompact);
    if nSize <= 3 {
      nWord := ShiftDown(nWord, 3 - nSize);
      a.Assign(nWord);
      SmallMod(nWord);
    } else {
      a.Assign(nWord);
      a.ShiftLeft(8 * (nSize - 3));
      WordOf256(nSize - 3);
    }
    fNegative := nWord != 0 && nCompact / SIGN % 2 != 0;
    fOverflow := nWord != 0 && (nSize > 34 || (nWord > 0xff && nSize > 33) || (nWord > 0xffff && nSize > 32));
    ModKeeps(Exact(nCompact), Pow(256, 32));
  }

  /** A 32-bit word shifted down by k bytes. */
  function ShiftDown(w: nat, k: nat): nat
    requires k <= 3
  {
    if k == 0 then w else if k == 1 then w / 0x100 else if k == 2 then w / 0x10000 else w / TOP
  }

  lemma SmallMod(x: nat)
    requires x < TOP
    ensures Pow(256, 32) > 0 && x % Pow(256, 32) == x
  {
    Powers();
    PowGrows(256, 3, 32);
    DivUnique(x, Pow(256, 32), 0, x);
  }

  lemma ModKeeps(x: int, m: int)
    requires m > 0 && x >= 0
    ensures x % m == x <==> x < m
  {
    if x < m { DivUnique(x, m, 0, x); }
  }

  /** The size of the number held and its three leading bytes. */
  method LeadingBytes(a: BaseUint) returns (nSize: nat, nCompact: nat)
    requires a.Valid() && a.pn.Length == 8
    ensures a.V() >= 0 && nSize == Bytes(a.V()) && nCompact == Lead(a.V()) < TOP
  {
    hide Pow, Value, Bytes;
    ValueBound(a.pn[..]);
    ghost var v: nat := a.V();
    var bits := a.Bits();
    BytesOfBits(v, bits);
    LeadBelowTop(v);
    nSize := (bits + 7) / 8;
    if nSize <= 3 {
      var low := a.GetLow64();
      LowIsAll(v, nSize);
      nCompact := ShiftUp(low, 3 - nSize);
    } else {
      var bn := new BaseUint.CopyOf(a);
      bn.ShiftRight(8 * (nSize - 3));
      WordOf256(nSize - 3);
      var low := bn.GetLow64();
      nCompact := low % BASE;
      Narrow(Lead(v));
    }
  }

  /** A 64-bit word shifted up by k bytes and cut to 32 bits. */
  function ShiftUp(w: nat, k: nat): nat
    requires k <= 3
  {
    w * (if k == 0 then 1 else if k == 1 then 0x100 else if k == 2 then 0x10000 else TOP) % UINT64 % BASE
  }

  lemma Narrow(x: nat)
    requires x < BASE
    ensures x % UINT64 == x && x % BASE == x
  { }

  lemma LeadBelowTop(v: nat)
    ensures 0 <= Lead(v) < TOP
  {
    if v > 0 { LeadRange(v); }
  }

  /** The encoding of the number held, with a sign if one is asked for and the number is not zero. */
  method GetCompact(a: BaseUint, fNegative: bool) returns (nCompact: nat)
    requires a.Valid() && a.pn.Length == 8
    ensures a.V() >= 0 && nCompact == Encode(a.V()) + (if fNegative && a.V() != 0 then SIGN else 0) < BASE
  {
    hide Pow, Value, Bytes, Lead;
    Width();
    ValueBound(a.pn[..]);
    ghost var v: nat := a.V();
    BytesFit(v);
    Fields(v);
    FractionZero(v);
    var nSize;
    nSize, nCompact := LeadingBytes(a);
    if nCompact / SIGN % 2 != 0 {
      nCompact := nCompact / 256;
      nSize := nSize + 1;
    }
    assert nCompact < SIGN;
    assert nSize < 256;
    nCompact := nCompact + nSize * TOP;
    if fNegative && nCompact % SIGN != 0 {
      nCompact := nCompact + SIGN;
    }
  }

  lemma FractionZero(v: nat)
    ensures Fraction(v) == 0 <==> v == 0
  {
    if v > 0 { LeadRange(v); }
  }

  /** Rounding a bit count up to bytes counts the bytes. */
  lemma BytesOfBits(v: nat, bits: nat)
    requires bits == 0 <==> v == 0
    requires bits > 0 ==> Pow(2, bits - 1) <= v < Pow(2, bits)
    ensures (bits + 7) / 8 == Bytes(v)
  {
    if bits > 0 {
      var k := (bits + 7) / 8;
      WordOf256(k);
      WordOf256(k - 1);
      PowGrows(2, bits, 8 * k);
      PowGrows(2, 8 * (k - 1), bits - 1);
      BytesIs(v, k);
    }
  }

  lemma LowIsAll(v: nat, k: nat)
    requires k == Bytes(v) && k <= 3
    ensures ShiftUp(v % UINT64, 3 - k) == Lead(v)
  {
    Powers();
    BytesBound(v);
    LeadBelowTop(v);
    hide Bytes;
    assert v < TOP by { PowGrows(256, k, 3); }
    Narrow(v);
    Narrow(Lead(v));
  }

  // ----- Work -----

  /** An encoding that stands for a usable target. */
  ghost predicate GoodTarget(n: nat) {
    !NegativeFlag(n) && !OverflowFlag(n) && Exact(n) != 0
  }

  /** The expected number of hashes to meet a target: 2^256 over the number of hashes that do. */
  ghost function Work(n: nat): int {
    if !GoodTarget(n) || Exact(n) < 0 then 0 else Pow(256, 32) / (Exact(n) + 1)
  }

  lemma WordSmall(n: nat)
    ensures Word(n) < SIGN
  { }

  /** A target that fits leaves room for one more. */
  lemma TargetBelowTop(n: nat)
    requires !OverflowFlag(n)
    ensures 0 <= Exact(n) && Exact(n) + 1 < Pow(256, 32)
  {
    hide Pow, Word, OverflowFlag;
    WordSmall(n);
    ExactNonNegative(n);
    OverflowIsExact(n);
    if Size(n) <= 3 {
      SmallMod(Word(n) + 1);
    } else {
      PowAdd(256, 1, Size(n) - 4);
      PowAdd(256, 1, 31);
      Powers();
      Coarse(Word(n), Pow(256, Size(n) - 4), Pow(256, 31));
    }
  }

  lemma Coarse(w: int, p: int, q: int)
    requires w * (256 * p) < 256 * q
    ensures w * (256 * p) + 1 < 256 * q
  {
    assert w * (256 * p) == 256 * (w * p);
  }

  /** A usable target is worth some work, and an easier one is worth no more. */
  lemma WorkIsAntitone(m: nat, n: nat)
    requires GoodTarget(m) && GoodTarget(n) && Exact(m) <= Exact(n)
    ensures 1 <= Work(n) <= Work(m) <= Pow(256, 32) / 2
  {
    TargetBelowTop(m);
    TargetBelowTop(n);
    QuotientAntitone(Pow(256, 32), Exact(m) + 1, Exact(n) + 1);
    QuotientAntitone(Pow(256, 32), 2, Exact(m) + 1);
    QuotientAntitone(Pow(256, 32), Exact(n) + 1, Pow(256, 32));
    DivUnique(Pow(256, 32), Pow(256, 32), 1, 0);
  }

  lemma QuotientAntitone(x: int, a: int, b: int)
    requires 0 < a <= b && x >= 0
    ensures x / b <= x / a
  {
    var q := x / b;
    DivMono(0, x, b);
    MulMono(a, b, q);
    if q > x / a { MulMono(x / a + 1, q, a); }
  }

  /** The work of the block whose target is encoded in nBits: computed without ever holding 2^256. */
  method GetBlockProof(nBits: nat) returns (r: BaseUint)
    requires nBits < BASE
    ensures r.Valid() && fresh(r) && r.pn.Length == 8 && r.V() == Work(nBits)
  {
    hide Pow, Value, Exact, Word;
    Width();
    PowPos(256, 32);
    ExactNonNegative(nBits);
    var bnTarget := new BaseUint(8);
    var fNegative, fOverflow := SetCompact(bnTarget, nBits);
    var isZero := bnTarget.EqualTo(0);
    if fNegative || fOverflow || isZero {
      r := new BaseUint(8);
      return;
    }
    ghost var t := Exact(nBits);
    TargetBelowTop(nBits);
    r := new BaseUint.Complement(bnTarget);
    var d := new BaseUint.CopyOf(bnTarget);
    d.Increment();
    ModKeeps(t + 1, Pow(256, 32));
    var ok := r.Divide(d);
    DivShift(Pow(256, 32) - 1 - t, t + 1, 1);
    r.Increment();
    WorkIsAntitone(nBits, nBits);
    ModKeeps(Work(nBits), Pow(256, 32));
  }
}

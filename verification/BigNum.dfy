/** Fixed-width unsigned arithmetic on an array of 32-bit limbs, refined to arithmetic on integers
    modulo 2^(32 * width). The width is any number of limbs; the program uses 8 and 16. */
module BigNum {
  import opened Arith
  import opened Limbs
  import opened Wrappers

  class BaseUint {
    const pn: array<int>

    ghost predicate Valid()
      reads pn
    { pn.Length >= 1 && LimbsOk(pn[..]) }

    /** The number held. */
    ghost function V(): int
      reads pn
    { Value(pn[..]) }

    /** One more than the largest number that can be held. */
    ghost function Modulus(): int { Pow(BASE, pn.Length) }

    constructor (width: nat)
      requires width >= 1
      ensures Valid() && fresh(pn) && pn.Length == width && V() == 0
    {
      pn := new int[width](i => 0);
      new;
      ValueZeros(width);
      assert pn[..] == Zeros(width);
    }

    constructor CopyOf(b: BaseUint)
      requires b.Valid()
      ensures Valid() && fresh(pn) && pn[..] == b.pn[..]
    {
      pn := new int[b.pn.Length];
      new;
      for i := 0 to pn.Length
        invariant pn[..i] == b.pn[..i]
      {
        pn[i] := b.pn[i];
      }
      assert pn[..] == pn[..pn.Length] && b.pn[..] == b.pn[..pn.Length];
    }

    /** Assigns zero. */
    method Clear()
      requires Valid()
      modifies pn
      ensures Valid() && pn[..] == Zeros(pn.Length) && V() == 0
    {
      for i := 0 to pn.Length
        invariant forall k :: 0 <= k < i ==> pn[k] == 0
      {
        pn[i] := 0;
      }
      ValueZeros(pn.Length);
      assert pn[..] == Zeros(pn.Length);
    }

    /** *this += b; the two may be the same object. */
    method Add(b: BaseUint)
      requires Valid() && b.Valid() && b.pn.Length == pn.Length
      modifies pn
      ensures Valid() && Modulus() > 0 && V() == (old(V()) + old(b.V())) % Modulus()
    {
      ghost var x, y := pn[..], b.pn[..];
      var carry := 0;
      for i := 0 to pn.Length
        invariant LimbsOk(pn[..]) && 0 <= carry <= 1
        invariant pn[i..] == x[i..] && b.pn[i..] == y[i..]
        invariant Value(pn[..i]) + Pow(BASE, i) * carry == Value(x[..i]) + Value(y[..i])
      {
        assert pn[i] == x[i..][0] == x[i] && b.pn[i] == y[i..][0] == y[i];
        var n := carry + pn[i] + b.pn[i];
        assert 0 <= n < UINT64;
        ghost var before := pn[..];
        pn[i] := n % BASE;
        assert pn[..i] == before[..i];
        assert pn[i + 1..] == before[i..][1..] == x[i..][1..] == x[i + 1..];
        assert b.pn[i + 1..] == y[i..][1..] == y[i + 1..];
        ValueNext(pn[..], i);
        ValueNext(x, i);
        ValueNext(y, i);
        assert pn[..][..i] == pn[..i] && pn[..][..i + 1] == pn[..i + 1];
        AddAlgebra(Value(pn[..i]), Pow(BASE, i), carry, Value(x[..i]), Value(y[..i]), n, x[i], y[i]);
        carry := n / BASE;
      }
      assert pn[..pn.Length] == pn[..] && x[..pn.Length] == x && y[..pn.Length] == y;
      WrapsTo(pn[..], carry, old(V()) + old(b.V()));
    }

    /** ret = ~b. */
    constructor Complement(b: BaseUint)
      requires b.Valid()
      ensures Valid() && fresh(pn) && pn.Length == b.pn.Length && V() == Modulus() - 1 - b.V()
    {
      pn := new int[b.pn.Length];
      new;
      for i := 0 to pn.Length
        invariant LimbsOk(pn[..i])
        invariant Value(pn[..i]) + Value(b.pn[..i]) == Pow(BASE, i) - 1
      {
        ghost var before := pn[..i];
        pn[i] := BASE - 1 - b.pn[i];
        assert pn[..i] == before && pn[..i + 1] == before + [pn[i]];
        assert pn[..][..i] == pn[..i] && pn[..][..i + 1] == pn[..i + 1];
        assert b.pn[..][..i] == b.pn[..i] && b.pn[..][..i + 1] == b.pn[..i + 1];
        ValueNext(pn[..], i);
        ValueNext(b.pn[..], i);
        ComplementAlgebra(Pow(BASE, i), b.pn[i]);
      }
      assert pn[..pn.Length] == pn[..] && b.pn[..pn.Length] == b.pn[..];
    }

    /** ++*this: the carry runs up through limbs that wrap to zero. */
    method Increment()
      requires Valid()
      modifies pn
      ensures Valid() && Modulus() > 0 && V() == (old(V()) + 1) % Modulus()
    {
      ghost var x := pn[..];
      var i := 0;
      ghost var was := pn[0];
      pn[0] := (pn[0] + 1) % BASE;
      assert pn[..0] == [] && x[..0] == [];
      CarryStep(x, pn[..], 0);
      while pn[i] == 0 && i < pn.Length - 1
        invariant 0 <= i < pn.Length && LimbsOk(pn[..])
        invariant pn[i + 1..] == x[i + 1..]
        invariant Value(pn[..i + 1]) + Pow(BASE, i + 1) * (if pn[i] == 0 then 1 else 0) == Value(x[..i + 1]) + 1
        decreases pn.Length - i
      {
        i := i + 1;
        ghost var before := pn[..];
        assert pn[i] == before[i..][0] == x[i..][0] == x[i];
        pn[i] := (pn[i] + 1) % BASE;
        assert pn[..i] == before[..i];
        assert pn[i + 1..] == before[i..][1..] == x[i..][1..] == x[i + 1..];
        CarryStep(x, pn[..], i);
        assert pn[..][..i] == pn[..i] && pn[..][..i + 1] == pn[..i + 1];
      }
      CarryEnds(x, pn[..], i);
    }

    /** *this -= b, by adding the two's complement of b. */
    method Subtract(b: BaseUint)
      requires Valid() && b.Valid() && b.pn.Length == pn.Length
      modifies pn
      ensures Valid() && Modulus() > 0 && V() == (old(V()) - old(b.V())) % Modulus()
    {
      hide Pow, Value;
      ghost var x, y := V(), b.V();
      var neg := new BaseUint.Complement(b);
      neg.Increment();
      Add(neg);
      ModAddLeft(Modulus() - y, x, Modulus());
      assert x + (Modulus() - y) % Modulus() == (Modulus() - y) % Modulus() + x;
      ModUnique(x - y + Modulus(), x - y, Modulus(), 1);
    }

    /** *this *= b32. */
    method MulSmall(b32: int)
      requires Valid() && 0 <= b32 < BASE
      modifies pn
      ensures Valid() && Modulus() > 0 && V() == (old(V()) * b32) % Modulus()
    {
      ghost var x := pn[..];
      var carry := 0;
      for i := 0 to pn.Length
        invariant LimbsOk(pn[..]) && 0 <= carry < BASE
        invariant pn[i..] == x[i..]
        invariant Value(pn[..i]) + Pow(BASE, i) * carry == b32 * Value(x[..i])
      {
        assert pn[i] == x[i..][0] == x[i];
        ProductFits(b32, pn[i]);
        var n := carry + b32 * pn[i];
        assert 0 <= n < UINT64;
        ghost var before := pn[..];
        pn[i] := n % BASE;
        assert pn[..i] == before[..i];
        assert pn[i + 1..] == before[i..][1..] == x[i..][1..] == x[i + 1..];
        LimbStep(before, pn[..], i, carry, n, b32 * Value(x[..i]));
        assert pn[..][..i + 1] == pn[..i + 1] && before[..i] == before[..][..i];
        ScaleNext(x, i, b32);
        carry := n / BASE;
      }
      assert pn[..pn.Length] == pn[..] && x[..pn.Length] == x;
      WrapsTo(pn[..], carry, b32 * old(V()));
    }

    /** One row of the schoolbook product: adds aj * b, shifted up by j limbs. A zero stays zero if b is itself. */
    method AddRow(j: nat, aj: int, b: BaseUint)
      requires Valid() && b.Valid() && b.pn.Length == pn.Length && j < pn.Length
      requires 0 <= aj < BASE && (b.pn == pn ==> pn[..] == Zeros(pn.Length))
      modifies pn
      ensures Valid() && Modulus() > 0
      ensures b.pn == pn ==> pn[..] == Zeros(pn.Length)
      ensures b.pn != pn ==>
        V() == (old(V()) + aj * (Pow(BASE, j) * Value(b.pn[..pn.Length - j]))) % Modulus()
    {
      hide RowDone, Pow, Value;
      ghost var x, y := pn[..], b.pn[..];
      var carry := 0;
      RowStart(x, y, j, aj);
      for i := 0 to pn.Length - j
        invariant LimbsOk(pn[..]) && 0 <= carry < BASE
        invariant b.pn == pn ==> carry == 0 && pn[..] == Zeros(pn.Length)
        invariant pn[i + j..] == x[i + j..]
        invariant b.pn != pn ==> RowDone(x, y, pn[..], i, j, carry, aj)
      {
        assert pn[i + j] == x[i + j..][0] == x[i + j];
        ProductFits(aj, b.pn[i]);
        var n := carry + pn[i + j] + aj * b.pn[i];
        assert 0 <= n < UINT64;
        ghost var before := pn[..];
        pn[i + j] := n % BASE;
        assert pn[i + 1 + j..] == before[i + j..][1..] == x[i + j..][1..] == x[i + 1 + j..];
        if b.pn != pn { RowStep(x, y, before, pn[..], i, j, carry, n, aj); }
        carry := n / BASE;
      }
      PowPos(BASE, pn.Length);
      if b.pn != pn {
        RowEnd(x, y, pn[..], j, carry, aj);
        WrapsTo(pn[..], carry, Value(x) + aj * (Pow(BASE, j) * Value(y[..pn.Length - j])));
      }
    }

    /** *this *= b. The number is set to zero before b is read, so a number times itself in place is zero. */
    method Multiply(b: BaseUint)
      requires Valid() && b.Valid() && b.pn.Length == pn.Length
      modifies pn
      ensures Valid() && Modulus() > 0
      ensures V() == if b.pn == pn then 0 else (old(V()) * b.V()) % Modulus()
    {
      var a := pn[..];
      Clear();
      ghost var y := b.pn[..];
      PowPos(BASE, pn.Length);
      DivUnique(0, Modulus(), 0, 0);
      assert a[..0] == [];
      for j := 0 to pn.Length
        invariant Valid() && (b.pn == pn ==> pn[..] == Zeros(pn.Length))
        invariant b.pn != pn ==> b.pn[..] == y && V() == (Value(a[..j]) * Value(y)) % Modulus()
      {
        ghost var before := V();
        AddRow(j, a[j], b);
        if b.pn != pn { RowAdded(a, y, j, before, V()); }
      }
      assert a[..pn.Length] == a;
      if b.pn == pn { ValueZeros(pn.Length); }
    }

    /** *this <<= shift. */
    method ShiftLeft(shift: nat)
      requires Valid()
      modifies pn
      ensures Valid() && Modulus() > 0 && V() == (old(V()) * Pow(2, shift)) % Modulus()
    {
      hide Pow, BitOr, ShlLimb, ShlHigh;
      var a := pn[..];
      Clear();
      var k, s := shift / 32, shift % 32;
      ShlHighNone(a, s);
      for i := 0 to pn.Length
        invariant forall j :: 0 <= j < pn.Length ==> pn[j] == ShlState(a, s, k, i, j)
      {
        LeftBits(a[i], s);
        assert ShlHigh(a, s, i) == (Pow(2, s) * a[i]) / BASE by { ShlHighIs(a, s, i); }
        if i + k + 1 < pn.Length && s != 0 {
          OrZero(a[i] / Pow(2, 32 - s));
          pn[i + k + 1] := BitOr(a[i] / Pow(2, 32 - s), pn[i + k + 1]);
        }
        if i + k < pn.Length {
          ShlJoin(a, s, i);
          pn[i + k] := BitOr((Pow(2, s) * a[i]) % BASE, pn[i + k]);
        }
      }
      ShlTotal(a, pn[..], k, s);
      assert shift == 32 * k + s;
    }

    /** *this >>= shift. */
    method ShiftRight(shift: nat)
      requires Valid()
      modifies pn
      ensures Valid() && Pow(2, shift) > 0 && V() == old(V()) / Pow(2, shift)
    {
      hide Pow, BitOr, ShrLimb;
      var a := pn[..];
      Clear();
      var k, s := shift / 32, shift % 32;
      PowPos(2, s);
      for i := 0 to pn.Length
        invariant forall j :: 0 <= j < pn.Length ==> pn[j] == ShrState(a, s, k, i, j)
      {
        ghost var x := ShrSource(a, k);
        if i - k - 1 >= 0 && s != 0 {
          ShrJoin(x, s, i - k - 1);
          pn[i - k - 1] := BitOr((Pow(2, 32 - s) * a[i]) % BASE, pn[i - k - 1]);
        } else if i - k - 1 >= 0 {
          ShrNone(x, i - k - 1);
        }
        if i - k >= 0 {
          DivMono(0, a[i], Pow(2, s));
          OrZero(a[i] / Pow(2, s));
          pn[i - k] := BitOr(a[i] / Pow(2, s), pn[i - k]);
        }
      }
      ShrTotal(a, pn[..], k, s);
      assert shift == 32 * k + s;
    }

    /** -1, 0 or 1 as *this is less than, equal to or greater than b. */
    method CompareTo(b: BaseUint) returns (r: int)
      requires Valid() && b.Valid() && b.pn.Length == pn.Length
      ensures r == if V() < b.V() then -1 else if V() > b.V() then 1 else 0
    {
      hide Value, LimbsOk;
      ghost var x, y := pn[..], b.pn[..];
      var i := pn.Length - 1;
      while i >= 0
        invariant -1 <= i < pn.Length
        invariant forall j :: i < j < pn.Length ==> x[j] == y[j]
      {
        if pn[i] < b.pn[i] {
          assert x[i + 1..] == y[i + 1..];
          HigherLimbDecides(x, y, i);
          return -1;
        }
        if pn[i] > b.pn[i] {
          assert x[i + 1..] == y[i + 1..];
          HigherLimbDecides(y, x, i);
          return 1;
        }
        i := i - 1;
      }
      assert x == y;
      return 0;
    }

    /** The position of the highest bit set plus one, or zero if there is none. */
    method Bits() returns (r: nat)
      requires Valid()
      ensures r <= 32 * pn.Length
      ensures r == 0 <==> V() == 0
      ensures r > 0 ==> Pow(2, r - 1) <= V() < Pow(2, r)
    {
      hide Pow;
      var pos := pn.Length - 1;
      while pos >= 0
        invariant -1 <= pos < pn.Length
        invariant forall j :: pos < j < pn.Length ==> pn[j] == 0
      {
        if pn[pos] != 0 {
          TwoTo32();
          var bits := 31;
          while bits > 0
            invariant 0 <= bits <= 31
            invariant pn[pos] < Pow(2, bits + 1)
          {
            PowPos(2, bits);
            TopBit(pn[pos], bits);
            if (pn[pos] / Pow(2, bits)) % 2 == 1 {
              BitsValue(pn[..], pos, bits);
              return 32 * pos + bits + 1;
            }
            bits := bits - 1;
          }
          PowZero(2);
          BitsValue(pn[..], pos, 0);
          return 32 * pos + 1;
        }
        pos := pos - 1;
      }
      assert pn[..] == Zeros(pn.Length);
      ValueZeros(pn.Length);
      return 0;
    }

    /** Sets one bit of a number whose bits up to and including that one are clear. */
    method SetBit(shift: nat, ghost t: nat)
      requires Valid() && shift < 32 * pn.Length && V() == Pow(2, shift + 1) * t
      modifies pn
      ensures Valid() && V() == old(V()) + Pow(2, shift)
    {
      hide Pow, Value, BitOr;
      var k, r := shift / 32, shift % 32;
      ghost var x := pn[..];
      ghost var u := FreeBit(x, k, r, t);
      PowDouble(r);
      OrDisjoint(u, Pow(2, r), r + 1);
      pn[k] := BitOr(pn[k], Pow(2, r));
      assert pn[..] == x[k := x[k] + Pow(2, r)];
      ValueUpdate(x, k, x[k] + Pow(2, r));
      TwoTo32();
      PowMul(2, 32, k);
      PowAdd(2, r, 32 * k);
      assert shift == r + 32 * k;
    }

    /** The loop of the division: from the numerator `num` and the divisor `div`, already shifted up by
        `start` bits, builds the quotient in *this, which is zero. */
    method ShiftSubtract(num: BaseUint, div: BaseUint, start: nat, ghost d: int)
      requires Valid() && num.Valid() && div.Valid() && V() == 0
      requires pn != num.pn && pn != div.pn && num.pn != div.pn && num.pn.Length == div.pn.Length == pn.Length
      requires start < 32 * pn.Length && d > 0
      requires div.V() == d * Pow(2, start) && 0 <= num.V() < d * Pow(2, start + 1)
      modifies pn, num.pn, div.pn
      ensures Valid() && V() == old(num.V()) / d
    {
      hide Pow, Value, LimbsOk;
      ghost var n := num.V();
      var shift := start;
      ghost var t := 0;
      while shift >= 0
        invariant -1 <= shift < 32 * pn.Length && t >= 0
        invariant Valid() && div.Valid() && num.Valid()
        invariant shift >= 0 ==> div.V() == d * Pow(2, shift)
        invariant V() == Pow(2, shift + 1) * t
        invariant n == V() * d + num.V() && 0 <= num.V() < d * Pow(2, shift + 1)
        decreases shift
      {
        var c := num.CompareTo(div);
        QuotientStep(n, d, shift, t, V(), num.V(), div.V());
        if c >= 0 {
          num.SubtractSmaller(div);
          SetBit(shift, t);
          t := 2 * t + 1;
        } else {
          t := 2 * t;
        }
        div.ShiftRight(1);
        HalfDivisor(d, shift);
        shift := shift - 1;
      }
      PowZero(2);
      DivUnique(n, d, V(), num.V());
    }

    /** Subtraction of something not greater does not wrap. */
    method SubtractSmaller(b: BaseUint)
      requires Valid() && b.Valid() && b.pn != pn && b.pn.Length == pn.Length && b.V() <= V()
      modifies pn
      ensures Valid() && V() == old(V()) - b.V()
    {
      hide Pow, Value;
      ghost var x := V();
      ValueBound(pn[..]);
      ValueBound(b.pn[..]);
      Subtract(b);
      DivUnique(x - b.V(), Modulus(), 0, x - b.V());
    }

    /** *this /= b, by shifting and subtracting. Division by zero is reported, with *this left at zero. */
    method Divide(b: BaseUint) returns (ok: bool)
      requires Valid() && b.Valid() && b.pn.Length == pn.Length
      modifies pn
      ensures Valid()
      ensures ok <==> old(b.V()) != 0
      ensures V() == if old(b.V()) == 0 then 0 else old(V()) / old(b.V())
    {
      hide Pow, Value, LimbsOk;
      var div := new BaseUint.CopyOf(b);
      var num := new BaseUint.CopyOf(this);
      ghost var n, d := num.V(), div.V();
      ValueBound(div.pn[..]);
      ValueBound(num.pn[..]);
      Clear();
      var num_bits := num.Bits();
      var div_bits := div.Bits();
      if div_bits == 0 { return false; }
      if div_bits > num_bits {
        SmallQuotient(n, d, num_bits, div_bits);
        return true;
      }
      var shift := num_bits - div_bits;
      Aligned(n, d, num_bits, div_bits, pn.Length);
      div.ShiftLeft(shift);
      DivUnique(d * Pow(2, shift), div.Modulus(), 0, d * Pow(2, shift));
      ShiftSubtract(num, div, shift, d);
      return true;
    }

    /** *this = b, for a 64-bit b. */
    method Assign(b: int)
      requires Valid() && pn.Length >= 2 && 0 <= b < UINT64
      modifies pn
      ensures Valid() && V() == b
    {
      pn[0] := b % BASE;
      pn[1] := b / BASE;
      for i := 2 to pn.Length
        invariant pn[0] == b % BASE && pn[1] == b / BASE
        invariant forall k :: 2 <= k < i ==> pn[k] == 0
      {
        pn[i] := 0;
      }
      assert pn[..] == [b % BASE, b / BASE] + Zeros(pn.Length - 2);
      ValueConcat([b % BASE, b / BASE], Zeros(pn.Length - 2));
      ValueZeros(pn.Length - 2);
      TwoLimbs(b % BASE, b / BASE);
    }

    /** The lowest 64 bits. */
    method GetLow64() returns (r: int)
      requires Valid() && pn.Length >= 2
      ensures r == V() % UINT64
    {
      r := pn[0] + BASE * pn[1];
      ValueSplit(pn[..], 2);
      assert pn[..][..2] == [pn[0], pn[1]];
      TwoLimbs(pn[0], pn[1]);
      assert Pow(BASE, 2) == UINT64;
    }

    /** *this == b, for a 64-bit b. */
    method EqualTo(b: int) returns (r: bool)
      requires Valid() && pn.Length >= 2 && 0 <= b < UINT64
      ensures r <==> V() == b
    {
      hide Pow;
      ghost var x := pn[..];
      ValueSplit(x, 2);
      assert x[..2] == [x[0], x[1]];
      TwoLimbs(x[0], x[1]);
      PowTwoLimbs();
      LimbPairUnique(x[0], x[1], b);
      var i := pn.Length - 1;
      while i >= 2
        invariant 1 <= i < pn.Length
        invariant forall k :: i < k < pn.Length ==> x[k] == 0
      {
        if pn[i] != 0 {
          NonzeroLimb(x, 2, i);
          ValueBound(x[..2]);
          LimbsInRange(x, 2);
          ValueBound(x[2..]);
          return false;
        }
        i := i - 1;
      }
      assert x[2..] == Zeros(pn.Length - 2);
      ValueZeros(pn.Length - 2);
      r := pn[1] == b / BASE && pn[0] == b % BASE;
    }
  }

  lemma AddAlgebra(v: int, p: int, c: int, va: int, vb: int, n: int, x: int, y: int)
    requires v + p * c == va + vb && n == c + x + y
    ensures v + p * (n % BASE) + (BASE * p) * (n / BASE) == (va + p * x) + (vb + p * y)
  {
    assert n == BASE * (n / BASE) + n % BASE;
    assert p * (BASE * (n / BASE) + n % BASE) == (BASE * p) * (n / BASE) + p * (n % BASE);
  }

  /** Limbs with a carry out are the total modulo the width. */
  lemma WrapsTo(s: seq<int>, carry: int, total: int)
    requires LimbsOk(s) && Value(s) + Pow(BASE, |s|) * carry == total
    ensures Pow(BASE, |s|) > 0 && Value(s) == total % Pow(BASE, |s|)
  {
    ValueBound(s);
    DivUnique(total, Pow(BASE, |s|), carry, Value(s));
  }

  lemma ComplementAlgebra(p: int, x: int)
    ensures p * (BASE - 1 - x) + p * x == BASE * p - p
  {
    assert p * (BASE - 1 - x) + p * x == p * (BASE - 1);
  }

  /** One limb of an increment. */
  lemma CarryStep(x: seq<int>, z: seq<int>, i: nat)
    requires i < |x| == |z| && LimbsOk(x) && z[i] == (x[i] + 1) % BASE
    requires Value(z[..i]) + Pow(BASE, i) == Value(x[..i]) + 1
    ensures Value(z[..i + 1]) + Pow(BASE, i + 1) * (if z[i] == 0 then 1 else 0) == Value(x[..i + 1]) + 1
  {
    hide Pow, Value;
    ValueNext(z, i);
    ValueNext(x, i);
    assert Pow(BASE, i + 1) == BASE * Pow(BASE, i) by { PowNext(i); }
    CarryAlgebra(Pow(BASE, i), x[i]);
  }

  lemma PowNext(i: nat)
    ensures Pow(BASE, i + 1) == BASE * Pow(BASE, i)
  { }

  lemma CarryAlgebra(p: int, d: int)
    requires 0 <= d < BASE
    ensures p * ((d + 1) % BASE) + BASE * p * (if (d + 1) % BASE == 0 then 1 else 0) == p * d + p
  {
    if d + 1 == BASE {
      assert (d + 1) % BASE == 0;
    } else {
      assert (d + 1) % BASE == d + 1;
    }
  }

  lemma ValueNil()
    ensures Value([]) == 0
  { }

  lemma CarryEnds(x: seq<int>, z: seq<int>, i: nat)
    requires i < |x| == |z| && LimbsOk(x) && LimbsOk(z) && x[i + 1..] == z[i + 1..]
    requires Value(z[..i + 1]) + Pow(BASE, i + 1) * (if z[i] == 0 then 1 else 0) == Value(x[..i + 1]) + 1
    requires z[i] != 0 || i == |x| - 1
    ensures Pow(BASE, |x|) > 0 && Value(z) == (Value(x) + 1) % Pow(BASE, |x|)
  {
    hide Pow, Value;
    ValueSplit(z, i + 1);
    ValueSplit(x, i + 1);
    ValueNil();
    if z[i] == 0 {
      assert z[i + 1..] == [] && x[i + 1..] == [];
      WrapsTo(z, 1, Value(x) + 1);
    } else {
      WrapsTo(z, 0, Value(x) + 1);
    }
  }

  /** A product of limbs with two limbs added still fits in 64 bits, and its carry in one limb. */
  lemma ProductFits(x: int, y: int)
    requires 0 <= x < BASE && 0 <= y < BASE
    ensures 0 <= x * y <= (BASE - 1) * (BASE - 1)
  {
    MulMono(0, x, y);
    MulMono(x, BASE - 1, y);
    MulMono(y, BASE - 1, BASE - 1);
  }

  /** Writing one limb of a running total: the digit stays, the rest is carried. */
  lemma LimbStep(z: seq<int>, z': seq<int>, k: nat, c: int, n: int, w: int)
    requires k < |z| && z' == z[k := n % BASE]
    requires Value(z[..k]) + Pow(BASE, k) * c == w
    ensures Value(z'[..k + 1]) + Pow(BASE, k + 1) * (n / BASE) == w + Pow(BASE, k) * (n - c)
  {
    ValueNext(z', k);
    assert z'[..k] == z[..k];
    LimbAlgebra(Value(z[..k]), Pow(BASE, k), c, n, w);
  }

  lemma LimbAlgebra(v: int, p: int, c: int, n: int, w: int)
    requires v + p * c == w
    ensures v + p * (n % BASE) + (BASE * p) * (n / BASE) == w + p * (n - c)
  {
    assert n == BASE * (n / BASE) + n % BASE;
    assert p * (BASE * (n / BASE) + n % BASE) == (BASE * p) * (n / BASE) + p * (n % BASE);
    assert p * (n - c) == p * n - p * c;
  }

  lemma ScaleNext(x: seq<int>, i: nat, b: int)
    requires i < |x|
    ensures b * Value(x[..i + 1]) == b * Value(x[..i]) + Pow(BASE, i) * (b * x[i])
  {
    ValueNext(x, i);
    var v, p, y := Value(x[..i]), Pow(BASE, i), x[i];
    assert b * (v + p * y) == b * v + p * (b * y);
  }

  /** With the carry out of them, the limbs of z that row j of the product has reached. */
  ghost predicate RowDone(x: seq<int>, y: seq<int>, z: seq<int>, i: nat, j: nat, c: int, aj: int)
    requires i + j <= |x| == |y| == |z|
  {
    Value(z[..i + j]) + Pow(BASE, i + j) * c == Value(x[..i + j]) + aj * (Pow(BASE, j) * Value(y[..i]))
  }

  lemma RowStart(x: seq<int>, y: seq<int>, j: nat, aj: int)
    requires j < |x| == |y|
    ensures RowDone(x, y, x, 0, j, 0, aj)
  {
    hide Pow;
    assert y[..0] == [];
  }

  lemma RowEnd(x: seq<int>, y: seq<int>, z: seq<int>, j: nat, c: int, aj: int)
    requires j < |x| == |y| == |z| && RowDone(x, y, z, |x| - j, j, c, aj)
    ensures Value(z) + Pow(BASE, |z|) * c == Value(x) + aj * (Pow(BASE, j) * Value(y[..|x| - j]))
  {
    assert z[..|x|] == z && x[..|x|] == x;
  }

  lemma RowStep(x: seq<int>, y: seq<int>, z: seq<int>, z': seq<int>, i: nat, j: nat, c: int, n: int, aj: int)
    requires i + j < |x| == |y| == |z|
    requires z' == z[i + j := n % BASE] && n == c + x[i + j] + aj * y[i]
    requires RowDone(x, y, z, i, j, c, aj)
    ensures RowDone(x, y, z', i + 1, j, n / BASE, aj)
  {
    hide Pow;
    LimbStep(z, z', i + j, c, n, Value(x[..i + j]) + aj * (Pow(BASE, j) * Value(y[..i])));
    ValueNext(x, i + j);
    ValueNext(y, i);
    PowAdd(BASE, i, j);
    RowAlgebra(aj, Pow(BASE, i), Pow(BASE, j), Value(y[..i]), y[i], x[i + j]);
  }

  lemma RowAlgebra(aj: int, pi: int, pj: int, v: int, yi: int, xk: int)
    ensures (pi * pj) * (xk + aj * yi) + aj * (pj * v) == (pi * pj) * xk + aj * (pj * (v + pi * yi))
  {
    assert pj * (v + pi * yi) == pj * v + (pi * pj) * yi;
    assert aj * (pj * v + (pi * pj) * yi) == aj * (pj * v) + (pi * pj) * (aj * yi);
    assert (pi * pj) * (xk + aj * yi) == (pi * pj) * xk + (pi * pj) * (aj * yi);
  }

  /** Adding row j to the product of the lower limbs gives the product of one limb more. */
  lemma RowAdded(a: seq<int>, y: seq<int>, j: nat, before: int, after: int)
    requires LimbsOk(a) && LimbsOk(y) && j < |a| == |y| && Pow(BASE, |a|) > 0
    requires before == (Value(a[..j]) * Value(y)) % Pow(BASE, |a|)
    requires after == (before + a[j] * (Pow(BASE, j) * Value(y[..|y| - j]))) % Pow(BASE, |a|)
    ensures after == (Value(a[..j + 1]) * Value(y)) % Pow(BASE, |a|)
  {
    hide Pow, Value;
    var m, p := Pow(BASE, |a|), Pow(BASE, j);
    ValueNext(a, j);
    ValueSplit(y, |y| - j);
    PowAdd(BASE, j, |y| - j);
    var lo, hi, q := Value(y[..|y| - j]), Value(y[|y| - j..]), Pow(BASE, |y| - j);
    ModAddLeft(Value(a[..j]) * Value(y), a[j] * (p * lo), m);
    RowsAlgebra(Value(a[..j]), a[j], p, q, lo, hi);
    ModUnique((Value(a[..j]) + p * a[j]) * (lo + q * hi), Value(a[..j]) * (lo + q * hi) + a[j] * (p * lo), m,
      a[j] * hi);
  }

  lemma RowsAlgebra(v: int, aj: int, p: int, q: int, lo: int, hi: int)
    ensures (v + p * aj) * (lo + q * hi) == v * (lo + q * hi) + aj * (p * lo) + (aj * hi) * (p * q)
  {
    var y := lo + q * hi;
    assert (v + p * aj) * y == v * y + (p * aj) * y;
    assert (p * aj) * (lo + q * hi) == aj * (p * lo) + (aj * hi) * (p * q);
  }

  // ---------- shifting left ----------

  /** The bits that limb `i` gives to the limb above it. */
  function ShlHigh(a: seq<int>, s: nat, i: int): int {
    if 0 <= i < |a| then (Pow(2, s) * a[i]) / BASE else 0
  }

  lemma ShlHighIs(a: seq<int>, s: nat, i: int)
    requires 0 <= i < |a|
    ensures ShlHigh(a, s, i) == (Pow(2, s) * a[i]) / BASE
  { }

  lemma ShlHighNone(a: seq<int>, s: nat)
    ensures ShlHigh(a, s, -1) == 0
  { }

  /** Limb `j` once the first `i` limbs have been moved up by `k` limbs and `s` bits. */
  function ShlState(a: seq<int>, s: nat, k: int, i: int, j: int): int {
    if j < k || j > i + k then 0
    else if j < i + k then ShlLimb(a, s, j - k)
    else ShlHigh(a, s, i - 1)
  }

  /** The two parts of a shifted limb as the program computes them. */
  lemma LeftBits(x: int, s: nat)
    requires 0 <= x < BASE && s < 32
    ensures Pow(2, 32 - s) > 0 && Pow(2, s) > 0
    ensures x / Pow(2, 32 - s) == (Pow(2, s) * x) / BASE
    ensures 0 <= (Pow(2, s) * x) / BASE < Pow(2, s)
    ensures (Pow(2, s) * x) % BASE == Pow(2, s) * (x % Pow(2, 32 - s))
    ensures s == 0 ==> (Pow(2, s) * x) / BASE == 0
  {
    hide Pow;
    PowPos(2, s);
    PowPos(2, 32 - s);
    PowAdd(2, s, 32 - s);
    TwoTo32();
    LeftBitsAlgebra(x, Pow(2, s), Pow(2, 32 - s));
    if s == 0 { PowZero(2); }
  }

  lemma PowZero(b: int)
    ensures Pow(b, 0) == 1
  { }

  lemma LeftBitsAlgebra(x: int, p: int, m: int)
    requires 0 <= x < BASE && p > 0 && m > 0 && p * m == BASE
    ensures x / m == (p * x) / BASE
    ensures 0 <= (p * x) / BASE < p
    ensures (p * x) % BASE == p * (x % m)
  {
    DivUnique(p * x, p, x, 0);
    DivDiv(p * x, p, m);
    ModScale(p, x, m);
    DivMono(0, x, m);
    var q := x / m;
    assert x == m * q + x % m;
    if q >= p {
      MulMono(p, q, m);
      assert false;
    }
  }

  lemma ShlJoin(a: seq<int>, s: nat, i: nat)
    requires LimbsOk(a) && i < |a| && s < 32
    ensures ShlHigh(a, s, i - 1) >= 0 && (Pow(2, s) * a[i]) % BASE >= 0
    ensures BitOr((Pow(2, s) * a[i]) % BASE, ShlHigh(a, s, i - 1)) == ShlLimb(a, s, i)
  {
    hide Pow, BitOr;
    LeftBits(a[i], s);
    if i > 0 { LeftBits(a[i - 1], s); }
    OrDisjoint(a[i] % Pow(2, 32 - s), ShlHigh(a, s, i - 1), s);
  }

  lemma ShlLimbBound(a: seq<int>, s: nat, i: int)
    requires LimbsOk(a) && 0 <= i < |a| && s < 32
    ensures 0 <= ShlLimb(a, s, i) < BASE
  {
    hide Pow;
    LeftBits(a[i], s);
    if i > 0 { LeftBits(a[i - 1], s); }
    var p, m := Pow(2, s), Pow(2, 32 - s);
    PowAdd(2, s, 32 - s);
    TwoTo32();
    MulMono(a[i] % m, m - 1, p);
    assert p * (m - 1) == BASE - p;
  }

  /** Limbs moved up by `k` places and `s` bits stand for the product with 2^(32k + s), modulo the width. */
  lemma ShlTotal(a: seq<int>, z: seq<int>, k: nat, s: nat)
    requires LimbsOk(a) && |z| == |a| && s < 32
    requires forall j :: 0 <= j < |z| ==> z[j] == if j < k then 0 else ShlLimb(a, s, j - k)
    ensures LimbsOk(z) && Pow(BASE, |a|) > 0
    ensures Value(z) == (Value(a) * Pow(2, 32 * k + s)) % Pow(BASE, |a|)
  {
    forall j | 0 <= j < |z|
      ensures 0 <= z[j] < BASE
    {
      if j >= k { ShlLimbBound(a, s, j - k); }
    }
    hide Pow, ShlLimb;
    var w := |a|;
    PowPos(BASE, w);
    PowAdd(2, 32 * k, s);
    PowMul(2, 32, k);
    TwoTo32();
    if k >= w {
      assert z == Zeros(w);
      ValueZeros(w);
      PowAdd(BASE, w, k - w);
      MultipleVanishes(Value(a), Pow(BASE, w), Pow(BASE, k - w), Pow(2, s));
    } else {
      var n := w - k;
      var l := ShlLimbs(a, s);
      assert z == Zeros(k) + l[..n];
      ValueConcat(Zeros(k), l[..n]);
      ValueZeros(k);
      ShlValue(a, s, n);
      ValueSplit(a, n);
      PowAdd(BASE, k, n);
      ValueBound(z);
      ShlTotalAlgebra(Pow(BASE, k), Pow(BASE, n), Pow(2, s), Value(l[..n]), ShlCarry(a, s, n), Value(a[..n]),
        Value(a[n..]));
    }
  }

  lemma MultipleVanishes(v: int, m: int, p: int, q: int)
    requires m > 0
    ensures (v * ((m * p) * q)) % m == 0
  {
    assert v * ((m * p) * q) == (v * p * q) * m;
    ModUnique((v * p * q) * m, 0, m, v * p * q);
    DivUnique(0, m, 0, 0);
  }

  lemma ShlTotalAlgebra(pk: int, pn: int, p: int, l: int, c: int, lo: int, hi: int)
    requires l + pn * c == p * lo && pk * pn > 0 && 0 <= pk * l < pk * pn
    ensures pk * l == ((lo + pn * hi) * (pk * p)) % (pk * pn)
  {
    var m := pk * pn;
    assert (lo + pn * hi) * (pk * p) == pk * (p * lo) + (p * hi) * m;
    assert pk * (l + pn * c) == pk * l + c * m;
    assert (lo + pn * hi) * (pk * p) == m * (c + p * hi) + pk * l;
    DivUnique((lo + pn * hi) * (pk * p), m, c + p * hi, pk * l);
  }

  // ---------- shifting right ----------

  /** The limbs that take part in a shift right by `k` limbs. */
  function ShrSource(a: seq<int>, k: nat): seq<int> { if k <= |a| then a[k..] else [] }

  /** Limb `j` once the first `i` limbs have been moved down by `k` limbs and `s` bits. */
  function ShrState(a: seq<int>, s: nat, k: nat, i: int, j: int): int
    requires s < 32
  {
    PowPos(2, s);
    if j < i - k - 1 then ShrLimb(ShrSource(a, k), s, j)
    else if j == i - k - 1 && 0 <= i - 1 < |a| then a[i - 1] / Pow(2, s)
    else 0
  }

  lemma ShrJoin(x: seq<int>, s: nat, j: nat)
    requires LimbsOk(x) && j + 1 < |x| && 0 < s < 32
    ensures Pow(2, s) > 0 && x[j] / Pow(2, s) >= 0 && (Pow(2, 32 - s) * x[j + 1]) % BASE >= 0
    ensures BitOr((Pow(2, 32 - s) * x[j + 1]) % BASE, x[j] / Pow(2, s)) == ShrLimb(x, s, j)
  {
    hide Pow, BitOr;
    PowPos(2, s);
    LeftBits(x[j + 1], 32 - s);
    DivMono(0, x[j], Pow(2, s));
    RightBits(x[j], s);
    OrDisjoint(x[j + 1] % Pow(2, s), x[j] / Pow(2, s), 32 - s);
  }

  lemma RightBits(x: int, s: nat)
    requires 0 <= x < BASE && s < 32
    ensures Pow(2, s) > 0 && x / Pow(2, s) < Pow(2, 32 - s)
  {
    hide Pow;
    PowPos(2, s);
    PowAdd(2, 32 - s, s);
    TwoTo32();
    var p, m := Pow(2, s), Pow(2, 32 - s);
    var q := x / p;
    assert x == p * q + x % p;
    if q >= m {
      MulMono(m, q, p);
      assert false;
    }
  }

  /** With nothing to shift in, a limb is just cut. */
  lemma ShrNone(x: seq<int>, j: nat)
    requires LimbsOk(x) && j < |x|
    ensures Pow(2, 0) == 1 && ShrLimb(x, 0, j) == x[j] / Pow(2, 0)
  {
    TwoTo32();
    if j + 1 < |x| {
      MultipleVanishes(x[j + 1], BASE, 1, 1);
      assert x[j + 1] * ((BASE * 1) * 1) == BASE * x[j + 1];
    }
  }

  lemma ShrLimbBound(x: seq<int>, s: nat, j: int)
    requires LimbsOk(x) && 0 <= j < |x| && s < 32
    ensures 0 <= ShrLimb(x, s, j) < BASE
  {
    hide Pow;
    PowPos(2, s);
    DivMono(0, x[j], Pow(2, s));
    RightBits(x[j], s);
    var p, m := Pow(2, s), Pow(2, 32 - s);
    PowAdd(2, 32 - s, s);
    TwoTo32();
    MulMono(1, p, m);
    if j + 1 < |x| {
      if s == 0 {
        ShrNone(x, j);
      } else {
        LeftBits(x[j + 1], 32 - s);
        MulMono(x[j + 1] % p, p - 1, m);
        assert m * (p - 1) == BASE - m;
      }
    }
  }

  /** Limbs moved down by `k` places and `s` bits stand for the quotient by 2^(32k + s). */
  lemma ShrTotal(a: seq<int>, z: seq<int>, k: nat, s: nat)
    requires LimbsOk(a) && |z| == |a| && s < 32
    requires forall j :: 0 <= j < |z| ==> z[j] == ShrState(a, s, k, |a|, j)
    ensures LimbsOk(z) && Pow(2, 32 * k + s) > 0
    ensures Value(z) == Value(a) / Pow(2, 32 * k + s)
  {
    hide Pow, ShrLimb;
    PowPos(2, s);
    PowPos(BASE, k);
    PowAdd(2, 32 * k, s);
    PowMul(2, 32, k);
    TwoTo32();
    PowPos(2, 32 * k + s);
    var x, n := ShrSource(a, k), |ShrSource(a, k)|;
    if k > |a| {
      assert z == Zeros(|a|);
      ValueZeros(|a|);
      ValueBound(a);
      PowGrows(BASE, |a|, k);
      MulMono(1, Pow(2, s), Pow(BASE, k));
      DivUnique(Value(a), Pow(2, 32 * k + s), 0, Value(a));
    } else {
      forall j | 0 <= j < n
        ensures z[j] == ShrLimb(x, s, j)
      {
        if j == n - 1 { ShrLast(x, s); }
      }
      assert z == ShrLimbs(x, s) + Zeros(k);
      forall j | 0 <= j < |z|
        ensures 0 <= z[j] < BASE
      {
        if j < n { ShrLimbBound(x, s, j); }
      }
      ValueConcat(ShrLimbs(x, s), Zeros(k));
      ValueZeros(k);
      ValueSplit(a, k);
      ShrValue(x, s);
      ShrOutSmall(x, s);
      DivUnique(Value(x), Pow(2, s), Value(ShrLimbs(x, s)), ShrOut(x, s));
      DivDiv(Value(a), Pow(BASE, k), Pow(2, s));
    }
  }

  lemma ShrLast(x: seq<int>, s: nat)
    requires x != [] && s < 32
    ensures Pow(2, s) > 0 && ShrLimb(x, s, |x| - 1) == x[|x| - 1] / Pow(2, s)
  {
    PowPos(2, s);
  }

  lemma ShrOutSmall(x: seq<int>, s: nat)
    ensures Pow(2, s) > 0 && 0 <= ShrOut(x, s) < Pow(2, s)
  {
    PowPos(2, s);
  }

  // ---------- comparing and measuring ----------

  lemma HigherLimbDecides(x: seq<int>, y: seq<int>, i: nat)
    requires LimbsOk(x) && LimbsOk(y) && i < |x| == |y|
    requires x[i + 1..] == y[i + 1..] && x[i] < y[i]
    ensures Value(x) < Value(y)
  {
    hide Pow, Value;
    ValueSplit(x, i + 1);
    ValueSplit(y, i + 1);
    ValueNext(x, i);
    ValueNext(y, i);
    ValueBound(x[..i]);
    ValueBound(y[..i]);
    LimbDecidesAlgebra(Value(x[..i]), Value(y[..i]), Pow(BASE, i), x[i], y[i]);
  }

  lemma LimbDecidesAlgebra(vx: int, vy: int, p: int, x: int, y: int)
    requires 0 <= vx < p && 0 <= vy && x < y
    ensures vx + p * x < vy + p * y
  {
    MulMono(x + 1, y, p);
  }

  /** Testing a bit from the top decides the size of a limb. */
  lemma TopBit(x: int, b: nat)
    requires 0 <= x < Pow(2, b + 1) && Pow(2, b) > 0
    ensures (x / Pow(2, b)) % 2 == 1 <==> x >= Pow(2, b)
    ensures b == 0 && x != 0 ==> x >= Pow(2, b)
  {
    var p := Pow(2, b);
    if x >= p {
      DivUnique(x, p, 1, x - p);
    } else {
      DivUnique(x, p, 0, x);
    }
  }

  lemma BitsValue(x: seq<int>, pos: nat, b: nat)
    requires LimbsOk(x) && pos < |x| && forall j :: pos < j < |x| ==> x[j] == 0
    requires Pow(2, b) <= x[pos] < Pow(2, b + 1)
    ensures 0 < Pow(2, 32 * pos + b) <= Value(x) < Pow(2, 32 * pos + b + 1)
  {
    hide Pow, Value;
    assert x[pos + 1..] == Zeros(|x| - pos - 1);
    ValueZeros(|x| - pos - 1);
    ValueSplit(x, pos + 1);
    ValueNext(x, pos);
    ValueBound(x[..pos]);
    TwoTo32();
    PowMul(2, 32, pos);
    PowAdd(2, 32 * pos, b);
    PowAdd(2, 32 * pos, b + 1);
    PowPos(2, 32 * pos + b);
    BitsAlgebra(Value(x[..pos]), Pow(BASE, pos), x[pos], Pow(2, b), Pow(2, b + 1));
  }

  lemma BitsAlgebra(v: int, p: int, x: int, lo: int, hi: int)
    requires 0 <= v < p && lo <= x < hi
    ensures p * lo <= v + p * x < p * hi
  {
    MulMono(lo, x, p);
    MulMono(x + 1, hi, p);
  }

  // ---------- dividing ----------

  /** A number divisible by 2^(32k + r + 1) has no bit up to r set in limb k. */
  lemma FreeBit(x: seq<int>, k: nat, r: nat, t: nat) returns (u: nat)
    requires LimbsOk(x) && k < |x| && r < 32 && Value(x) == Pow(2, 32 * k + r + 1) * t
    ensures x[k] == Pow(2, r + 1) * u && 0 <= x[k] + Pow(2, r) < BASE
  {
    hide Pow, Value;
    PowPos(2, r + 1);
    PowPos(2, 31 - r);
    PowAdd(2, 32 * k, r + 1);
    PowMul(2, 32, k);
    TwoTo32();
    PowAdd(2, r + 1, 31 - r);
    PowDouble(r);
    var p, q, m := Pow(BASE, k), Pow(2, r + 1), Pow(2, 31 - r);
    ValueSplit(x, k);
    TimesInTurn(p, q, t);
    DivUnique(Value(x), p, q * t, 0);
    LimbIsRemainder(x, k);
    ModScale(q, t, m);
    u := t % m;
    MulMono(u, m - 1, q);
    TimesLess(q, m);
  }

  lemma TimesInTurn(p: int, q: int, t: int)
    ensures p * q * t == p * (q * t)
  { }

  lemma TimesLess(q: int, m: int)
    ensures q * (m - 1) == q * m - q
  { }

  lemma PowDouble(r: nat)
    ensures Pow(2, r + 1) == 2 * Pow(2, r) && Pow(2, r) > 0
  {
    PowPos(2, r);
  }

  lemma LimbIsRemainder(x: seq<int>, k: nat)
    requires LimbsOk(x) && k < |x|
    ensures x[k] == Value(x[k..]) % BASE
  {
    var y := x[k..];
    DivUnique(Value(y), BASE, Value(y[1..]), y[0]);
  }

  lemma SmallQuotient(n: int, d: int, nb: nat, db: nat)
    requires nb < db && 0 <= n && 0 < d && (nb == 0 ==> n == 0) && (nb > 0 ==> n < Pow(2, nb)) && Pow(2, db - 1) <= d
    ensures n / d == 0
  {
    if nb > 0 { PowGrows(2, nb, db - 1); }
    DivUnique(n, d, 0, n);
  }

  /** Shifting the divisor up until the highest bits line up keeps it in range, and the numerator below twice that. */
  lemma Aligned(n: int, d: int, nb: nat, db: nat, width: nat)
    requires 0 < db <= nb <= 32 * width
    requires n < Pow(2, nb) && Pow(2, db - 1) <= d < Pow(2, db)
    ensures Pow(BASE, width) > 0 && 0 <= d * Pow(2, nb - db) < Pow(BASE, width)
    ensures n < d * Pow(2, nb - db + 1)
  {
    hide Pow;
    PowPos(2, nb - db);
    PowPos(2, nb - db + 1);
    PowPos(2, db - 1);
    PowPos(BASE, width);
    PowAdd(2, db, nb - db);
    PowAdd(2, db - 1, nb - db + 1);
    PowMul(2, 32, width);
    TwoTo32();
    PowGrows(2, nb, 32 * width);
    MulMono(Pow(2, db - 1), d, Pow(2, nb - db + 1));
    MulMono(0, d, Pow(2, nb - db));
    AlignedAlgebra(d, Pow(2, db), Pow(2, nb - db));
  }

  lemma AlignedAlgebra(d: int, p: int, q: int)
    requires d < p && q > 0
    ensures d * q < p * q
  {
    MulMono(d + 1, p, q);
    assert (d + 1) * q == d * q + q;
  }

  /** One step of the division: whether the shifted divisor fits decides the next bit of the quotient. */
  lemma QuotientStep(n: int, d: int, shift: nat, t: int, q: int, rest: int, div: int)
    requires d > 0 && div == d * Pow(2, shift) && q == Pow(2, shift + 1) * t
    requires n == q * d + rest && 0 <= rest < d * Pow(2, shift + 1)
    ensures q == Pow(2, shift) * (2 * t) && q + Pow(2, shift) == Pow(2, shift) * (2 * t + 1)
    ensures n == (q + Pow(2, shift)) * d + (rest - div)
    ensures rest - div < d * Pow(2, shift)
  {
    PowDouble(shift);
    hide Pow;
    QuotientAlgebra(Pow(2, shift), t, q, d, rest, div);
  }

  lemma QuotientAlgebra(p: int, t: int, q: int, d: int, rest: int, div: int)
    requires q == (2 * p) * t && div == d * p && rest < d * (2 * p)
    ensures q == p * (2 * t) && q + p == p * (2 * t + 1)
    ensures q * d + rest == (q + p) * d + (rest - div)
    ensures rest - div < d * p
  {
    assert d * (2 * p) == d * p + d * p;
    assert (q + p) * d == q * d + d * p;
  }

  lemma HalfDivisor(d: int, shift: nat)
    ensures Pow(2, 1) == 2
    ensures shift > 0 ==> (d * Pow(2, shift)) / 2 == d * Pow(2, shift - 1)
  {
    assert Pow(2, 1) == 2 * Pow(2, 0);
    if shift > 0 {
      PowDouble(shift - 1);
      assert d * (2 * Pow(2, shift - 1)) == 2 * (d * Pow(2, shift - 1));
    }
  }

  lemma TwoLimbs(x: int, y: int)
    ensures Value([x, y]) == x + BASE * y
  {
    assert [x, y][1..] == [y];
    assert Value([y]) == y;
  }

  lemma PowTwoLimbs()
    ensures Pow(BASE, 2) == UINT64
  { }

  lemma LimbPairUnique(x: int, y: int, b: int)
    requires 0 <= x < BASE
    ensures x + BASE * y == b <==> x == b % BASE && y == b / BASE
  {
    if x + BASE * y == b { DivUnique(b, BASE, y, x); }
  }

  lemma LimbsInRange(x: seq<int>, k: nat)
    requires LimbsOk(x) && k <= |x|
    ensures LimbsOk(x[k..])
  { }

  lemma NonzeroLimb(x: seq<int>, k: nat, i: nat)
    requires LimbsOk(x) && k <= i < |x| && x[i] != 0
    ensures Value(x[k..]) != 0
  {
    LimbsInRange(x, k);
    if Value(x[k..]) == 0 {
      assert x[k..][i - k] == x[i];
      ZeroIsZeros(x[k..]);
    }
  }
}

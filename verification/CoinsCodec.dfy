/** The stored form of a transaction's unspent outputs: a header code, a bit mask of the outputs that are
    left, and those outputs in short form. */
module CoinsCodec {
  import opened Arith
  import opened CoinsView
  import opened Wrappers
  import opened CoinsCache
  import opened VarInt
  import opened Compressor

  // ----- The bit mask -----

  predicate Alive(vout: seq<TxOut>, i: nat) { i < |vout| && !vout[i].IsNull() }

  function Bit(b: bool): nat { if b then 1 else 0 }

  /** n availabilities from output `at` on, the first in the lowest bit. */
  function Pack(vout: seq<TxOut>, at: nat, n: nat): nat
    decreases n
  {
    if n == 0 then 0 else Bit(Alive(vout, at)) + 2 * Pack(vout, at + 1, n - 1)
  }

  function Unpack(x: nat, n: nat): seq<bool>
    decreases n
  {
    if n == 0 then [] else [x % 2 == 1] + Unpack(x / 2, n - 1)
  }

  ghost function Avail(vout: seq<TxOut>, at: nat, n: nat): seq<bool> {
    seq(n, i requires i >= 0 => Alive(vout, at + i))
  }

  lemma {:induction false} UnpackPack(vout: seq<TxOut>, at: nat, n: nat)
    ensures Unpack(Pack(vout, at, n), n) == Avail(vout, at, n)
    decreases n
  {
    if n > 0 {
      UnpackPack(vout, at + 1, n - 1);
      var x := Pack(vout, at, n);
      assert x % 2 == Bit(Alive(vout, at)) && x / 2 == Pack(vout, at + 1, n - 1);
      assert Avail(vout, at, n) == [Alive(vout, at)] + Avail(vout, at + 1, n - 1);
    }
  }

  lemma {:induction false} PackBound(vout: seq<TxOut>, at: nat, n: nat)
    ensures Pack(vout, at, n) < Pow(2, n)
    ensures Pack(vout, at, n) == 0 <==> forall i :: at <= i < at + n ==> !Alive(vout, i)
    decreases n
  {
    if n > 0 { PackBound(vout, at + 1, n - 1); }
  }

  lemma {:induction false} PackNext(vout: seq<TxOut>, at: nat, n: nat)
    ensures Pack(vout, at, n + 1) == Pack(vout, at, n) + Pow(2, n) * Bit(Alive(vout, at + n))
    decreases n
  {
    if n > 0 {
      PackNext(vout, at + 1, n - 1);
      PackAlgebra(Pack(vout, at + 1, n - 1), Pow(2, n - 1), Bit(Alive(vout, at + n)));
    }
  }

  lemma PackAlgebra(x: int, p: int, b: int)
    ensures 2 * (x + p * b) == 2 * x + 2 * p * b
  { }

  /** Mask byte b covers outputs 2 + 8b to 9 + 8b. */
  function MaskByte(vout: seq<TxOut>, b: nat): Byte {
    PackBound(vout, 2 + 8 * b, 8);
    assert Pow(2, 8) == 256 by { assert Pow(2, 4) == 16; PowAdd(2, 4, 4); }
    Pack(vout, 2 + 8 * b, 8)
  }

  /** How many mask bytes the outputs reach into. */
  function Blocks(vout: seq<TxOut>): nat { if |vout| <= 2 then 0 else (|vout| + 5) / 8 }

  /** How many of the first n mask bytes there are up to the last one in use. */
  function LastUsed(vout: seq<TxOut>, n: nat): nat {
    if n == 0 then 0 else if MaskByte(vout, n - 1) != 0 then n else LastUsed(vout, n - 1)
  }

  /** How many of the first n mask bytes are in use. */
  function InUse(vout: seq<TxOut>, n: nat): nat {
    if n == 0 then 0 else InUse(vout, n - 1) + (if MaskByte(vout, n - 1) != 0 then 1 else 0)
  }

  function MaskFrom(vout: seq<TxOut>, b: nat, n: nat): seq<Byte>
    decreases n - b
  {
    if b >= n then [] else [MaskByte(vout, b)] + MaskFrom(vout, b + 1, n)
  }

  function Mask(vout: seq<TxOut>): seq<Byte> { MaskFrom(vout, 0, LastUsed(vout, Blocks(vout))) }

  lemma {:induction false} LastUsedIs(vout: seq<TxOut>, n: nat)
    ensures LastUsed(vout, n) <= n
    ensures LastUsed(vout, n) > 0 ==> MaskByte(vout, LastUsed(vout, n) - 1) != 0
    ensures forall b :: LastUsed(vout, n) <= b < n ==> MaskByte(vout, b) == 0
    ensures InUse(vout, n) == InUse(vout, LastUsed(vout, n))
  {
    hide MaskByte;
    if n > 0 { LastUsedIs(vout, n - 1); }
  }

  /** The mask ends after the last output that is left. */
  lemma MaskReaches(vout: seq<TxOut>, i: nat)
    requires Alive(vout, i)
    ensures i < 2 + 8 * LastUsed(vout, Blocks(vout))
  {
    if i >= 2 {
      var b := (i - 2) / 8;
      LastUsedIs(vout, Blocks(vout));
      PackBound(vout, 2 + 8 * b, 8);
      assert MaskByte(vout, b) != 0;
      assert b < Blocks(vout);
    }
  }

  /** Reads mask bytes until k of them had a bit set. */
  function ReadMask(s: seq<Byte>, k: nat): Option<(seq<bool>, seq<Byte>)>
    decreases |s|
  {
    if k == 0 then Some(([], s))
    else if s == [] then None
    else
      match ReadMask(s[1..], if s[0] != 0 then k - 1 else k)
      case None => None
      case Some((bits, t)) => Some((Unpack(s[0], 8) + bits, t))
  }

  /** The decoder stops at exactly the byte where the mask ends. */
  lemma {:induction false} MaskFromReadBack(vout: seq<TxOut>, b: nat, n: nat, t: seq<Byte>)
    requires b <= n && (n > 0 ==> MaskByte(vout, n - 1) != 0)
    ensures InUse(vout, b) <= InUse(vout, n)
    ensures ReadMask(MaskFrom(vout, b, n) + t, InUse(vout, n) - InUse(vout, b)) ==
      Some((Avail(vout, 2 + 8 * b, 8 * (n - b)), t))
    decreases n - b
  {
    hide InUse, Pack, Unpack, MaskByte, Avail, MaskFrom;
    InUseGrows(vout, b, n);
    MaskFromStep(vout, b, n, t);
    if b < n {
      MaskFromReadBack(vout, b + 1, n, t);
      MaskByteUnpacks(vout, b);
      AvailSplit(vout, 2 + 8 * b, 8, 8 * (n - b - 1));
      InUseStep(vout, b, n);
    } else {
      AvailNone(vout, 2 + 8 * b);
    }
  }

  lemma MaskFromStep(vout: seq<TxOut>, b: nat, n: nat, t: seq<Byte>)
    requires b <= n
    ensures var s := MaskFrom(vout, b, n) + t;
      if b == n then s == t else s != [] && s[0] == MaskByte(vout, b) && s[1..] == MaskFrom(vout, b + 1, n) + t
  {
    if b < n {
      assert MaskFrom(vout, b, n) + t == [MaskByte(vout, b)] + (MaskFrom(vout, b + 1, n) + t);
    }
  }

  lemma MaskByteUnpacks(vout: seq<TxOut>, b: nat)
    ensures Unpack(MaskByte(vout, b), 8) == Avail(vout, 2 + 8 * b, 8)
  {
    UnpackPack(vout, 2 + 8 * b, 8);
  }

  lemma AvailSplit(vout: seq<TxOut>, at: nat, m: nat, n: nat)
    ensures Avail(vout, at, m + n) == Avail(vout, at, m) + Avail(vout, at + m, n)
  { }

  lemma AvailNone(vout: seq<TxOut>, at: nat)
    ensures Avail(vout, at, 0) == []
  { }

  lemma InUseStep(vout: seq<TxOut>, b: nat, n: nat)
    requires b < n && MaskByte(vout, n - 1) != 0
    ensures InUse(vout, b + 1) == InUse(vout, b) + (if MaskByte(vout, b) != 0 then 1 else 0)
    ensures InUse(vout, b) < InUse(vout, n)
  {
    hide MaskByte;
    InUseGrows(vout, b, n - 1);
  }

  lemma {:induction false} InUseGrows(vout: seq<TxOut>, b: nat, n: nat)
    requires b <= n
    ensures InUse(vout, b) <= InUse(vout, n) <= n
  {
    hide MaskByte;
    if b < n { InUseGrows(vout, b, n - 1); } else if b > 0 { InUseGrows(vout, b - 1, b - 1); }
  }

  // ----- Outputs -----

  function ToInt32(x: nat): int { var y := x % UINT32; if y < UINT32 / 2 then y else y - UINT32 }

  function ToInt64(x: nat): Int64 { var y := x % UINT64; if y < UINT64 / 2 then y else y - UINT64 }

  /** A word is read as the signed number of its width that agrees with it modulo that width. */
  lemma ToIntIs(x: nat)
    ensures -0x8000_0000 <= ToInt32(x) < 0x8000_0000 && (x - ToInt32(x)) % 0x1_0000_0000 == 0
    ensures (x - ToInt64(x)) % 0x1_0000_0000_0000_0000 == 0
  { }

  function OutBytes(cv: Curve, o: TxOut): Bytes {
    VarBytes(Short(o.nValue % UINT64) % UINT64) + ScriptBytes(cv, o.scriptPubKey)
  }

  function ReadOut(cv: Curve, s: Bytes): Option<(TxOut, Bytes)> {
    match ReadVar(s)
    case None => None
    case Some((n, t)) =>
      match ReadScript(cv, t)
      case None => None
      case Some((sc, u)) => Some((TxOut(ToInt64(Long(n % UINT64)), sc), u))
  }

  /** A script that the stored form keeps. */
  predicate Kept(cv: Curve, s: Bytes) { CompressScript(cv, s).Some? || |s| <= MAX_SCRIPT_SIZE }

  /** What becomes of an amount that is stored and read. */
  function BackAmount(v: Int64): Int64 { ToInt64(Long(Short(v % UINT64) % UINT64)) }

  /** What becomes of an output that is stored and read. */
  function BackOut(cv: Curve, o: TxOut): TxOut {
    if o.IsNull() then NULL_OUT
    else TxOut(BackAmount(o.nValue), if Kept(cv, o.scriptPubKey) then o.scriptPubKey else [OP_RETURN])
  }

  /** An amount comes back exactly if its short form fits 64 bits, so every amount of money does. */
  lemma AmountComesBack(v: Int64)
    ensures BackAmount(v) == v <==> Short(v % UINT64) < UINT64
    ensures Short(v % UINT64) < UINT64 <==> Fits(v % UINT64)
    ensures 0 <= v <= MAX_MONEY ==> BackAmount(v) == v
  {
    hide Short, Long, Fits, ToInt64;
    var n := v % UINT64;
    FitsIs(n);
    WordComesBack(n);
    SameWord(v, Long(Short(n) % UINT64));
    if 0 <= v <= MAX_MONEY {
      Narrow64(v);
      MoneySurvives(v);
    }
  }

  lemma WordComesBack(n: nat)
    requires n < UINT64
    ensures Long(Short(n) % UINT64) % UINT64 == n <==> Short(n) < UINT64
  {
    hide Short, Long;
    if Short(n) < UINT64 {
      LongOfShort(n);
      Narrow64(Short(n));
    } else {
      WrappedIsLost(n);
    }
  }

  lemma SameWord(v: Int64, x: nat)
    ensures ToInt64(x) == v <==> x % UINT64 == v % UINT64
  { }

  /** Of those that are larger, this one comes back as another, and negative. */
  lemma LargeAmountIsLost()
    ensures BackAmount(9_000_000_000_000_000_001) == -8_611_419_148_496_060_352
  {
    hide Short, Long, Pow;
    ShortOf9();
    LongOf9();
    assert 81_000_000_000_000_000_001 == 4 * UINT64 + 7_213_023_705_161_793_537;
    assert 801_447_078_351_310_393_000_000 == 43446 * UINT64 + 9_835_324_925_213_491_264;
  }

  lemma LongOf9()
    ensures Long(7_213_023_705_161_793_537) == 801_447_078_351_310_393_000_000
  {
    hide Long, Pow;
    LongOf(721_302_370_516_179_353, 6);
    assert Pow(10, 6) == 1_000_000 by { TenToThe6(); }
  }

  lemma ShortOf9()
    ensures Short(9_000_000_000_000_000_001) == 81_000_000_000_000_000_001
  {
    assert Strip(9_000_000_000_000_000_001, 0) == (9_000_000_000_000_000_001, 0);
  }

  lemma TenToThe6()
    ensures Pow(10, 6) == 1_000_000
  {
    assert Pow(10, 3) == 1000;
    PowAdd(10, 3, 3);
  }

  lemma OutRoundTrip(cv: Curve, o: TxOut, t: Bytes)
    requires Sound(cv) && !o.IsNull() && Sizable(cv, o.scriptPubKey)
    ensures ReadOut(cv, OutBytes(cv, o) + t) == Some((BackOut(cv, o), t))
  {
    hide Short, Long, Sound, ReadVar, VarBytes, ReadScript, ScriptBytes, CompressScript, ToInt64;
    var n, u := Short(o.nValue % UINT64) % UINT64, ScriptBytes(cv, o.scriptPubKey) + t;
    Narrow64(n);
    VarRoundTrip(n, u);
    ScriptRoundTrip(cv, o.scriptPubKey, t);
    assert OutBytes(cv, o) + t == VarBytes(n) + u;
  }

  lemma Narrow64(x: nat)
    requires x < UINT64
    ensures x % UINT64 == x
  { }

  function Outs(cv: Curve, vout: seq<TxOut>, at: nat): Bytes
    decreases |vout| - at
  {
    if at >= |vout| then []
    else (if vout[at].IsNull() then [] else OutBytes(cv, vout[at])) + Outs(cv, vout, at + 1)
  }

  function ReadOuts(cv: Curve, s: Bytes, avail: seq<bool>): Option<(seq<TxOut>, Bytes)>
    decreases |avail|
  {
    if avail == [] then Some(([], s))
    else if !avail[0] then
      match ReadOuts(cv, s, avail[1..])
      case None => None
      case Some((os, u)) => Some(([NULL_OUT] + os, u))
    else
      match ReadOut(cv, s)
      case None => None
      case Some((o, t)) =>
        match ReadOuts(cv, t, avail[1..])
        case None => None
        case Some((os, u)) => Some(([o] + os, u))
  }

  function BackAt(cv: Curve, vout: seq<TxOut>, i: nat): TxOut {
    if i < |vout| then BackOut(cv, vout[i]) else NULL_OUT
  }

  ghost function BackOuts(cv: Curve, vout: seq<TxOut>, at: nat, n: nat): seq<TxOut> {
    seq(n, i requires i >= 0 => BackAt(cv, vout, at + i))
  }

  lemma {:induction false} NoMoreOuts(cv: Curve, vout: seq<TxOut>, at: nat)
    requires forall i :: at <= i < |vout| ==> vout[i].IsNull()
    ensures Outs(cv, vout, at) == []
    decreases |vout| - at
  {
    if at < |vout| { NoMoreOuts(cv, vout, at + 1); }
  }

  /** Every script left is one whose size can be told. */
  ghost predicate AllSizable(cv: Curve, vout: seq<TxOut>) {
    forall i :: 0 <= i < |vout| && !vout[i].IsNull() ==> Sizable(cv, vout[i].scriptPubKey)
  }

  lemma {:induction false} OutsReadBack(cv: Curve, vout: seq<TxOut>, at: nat, n: nat, t: Bytes)
    requires Sound(cv) && AllSizable(cv, vout)
    requires forall i :: at + n <= i < |vout| ==> vout[i].IsNull()
    ensures ReadOuts(cv, Outs(cv, vout, at) + t, Avail(vout, at, n)) == Some((BackOuts(cv, vout, at, n), t))
    decreases n
  {
    hide Sound, OutBytes, ReadOut, BackOut;
    if n == 0 {
      NoMoreOuts(cv, vout, at);
      AvailNone(vout, at);
      assert BackOuts(cv, vout, at, 0) == [] && [] + t == t;
    } else {
      OutsReadBack(cv, vout, at + 1, n - 1, t);
      AvailStep(vout, at, n);
      BackOutsStep(cv, vout, at, n);
      if Alive(vout, at) {
        OutRoundTrip(cv, vout[at], Outs(cv, vout, at + 1) + t);
        assert Outs(cv, vout, at) + t == OutBytes(cv, vout[at]) + (Outs(cv, vout, at + 1) + t);
      } else {
        BackDead(cv, vout, at);
      }
    }
  }

  lemma AvailStep(vout: seq<TxOut>, at: nat, n: nat)
    requires n > 0
    ensures Avail(vout, at, n) != [] && Avail(vout, at, n)[0] == Alive(vout, at)
    ensures Avail(vout, at, n)[1..] == Avail(vout, at + 1, n - 1)
  { }

  lemma BackOutsStep(cv: Curve, vout: seq<TxOut>, at: nat, n: nat)
    requires n > 0
    ensures BackOuts(cv, vout, at, n) == [BackAt(cv, vout, at)] + BackOuts(cv, vout, at + 1, n - 1)
  { }

  lemma BackDead(cv: Curve, vout: seq<TxOut>, at: nat)
    requires !Alive(vout, at)
    ensures BackAt(cv, vout, at) == NULL_OUT && Outs(cv, vout, at) == Outs(cv, vout, at + 1)
  { }

  // ----- Coins -----

  /** An int written as a variable-length integer: a negative one comes out as a single byte. */
  function SignedBytes(n: int): Bytes { if n < 0 then [n % 128] else VarBytes(n) }

  function BackInt(n: int): int { if n < 0 then n % 128 else n }

  lemma SignedRoundTrip(n: int, t: Bytes)
    requires n < UINT32 / 2
    ensures ReadVar(SignedBytes(n) + t) == Some((BackInt(n), t)) && ToInt32(BackInt(n)) == BackInt(n)
  {
    VarRoundTrip(BackInt(n), t);
  }

  function HeaderCode(c: Coins): int {
    var first, second := Alive(c.vout, 0), Alive(c.vout, 1);
    16 * (InUse(c.vout, Blocks(c.vout)) - (if first || second then 0 else 1))
      + Bit(c.fCoinBase) + 2 * Bit(c.fCoinStake) + 4 * Bit(first) + 8 * Bit(second)
  }

  /** What the database may be asked to store: not all spent, and no more outputs than the header code can count
      in its 32 bits. */
  ghost predicate Storable(c: Coins) {
    !c.IsPruned() && |c.vout| < UINT32 / 2 - 12 && c.nVersion < UINT32 / 2 && c.nHeight < UINT32 / 2
  }

  lemma HeaderCodeFits(c: Coins)
    requires Storable(c)
    ensures 0 <= HeaderCode(c) < UINT32
    ensures Alive(c.vout, 0) || Alive(c.vout, 1) || InUse(c.vout, Blocks(c.vout)) > 0
  {
    hide InUse;
    InUseGrows(c.vout, 0, Blocks(c.vout));
    if !Alive(c.vout, 0) && !Alive(c.vout, 1) { SomeInUse(c.vout); }
  }

  lemma SomeInUse(vout: seq<TxOut>)
    requires exists i :: 0 <= i < |vout| && !vout[i].IsNull()
    requires !Alive(vout, 0) && !Alive(vout, 1)
    ensures InUse(vout, Blocks(vout)) > 0
  {
    hide MaskByte;
    var i :| 0 <= i < |vout| && !vout[i].IsNull();
    assert Alive(vout, i) && i >= 2;
    var b := (i - 2) / 8;
    ByteInUse(vout, i, b);
    InUseGrows(vout, b + 1, Blocks(vout));
  }

  lemma ByteInUse(vout: seq<TxOut>, i: nat, b: nat)
    requires Alive(vout, i) && 2 + 8 * b <= i < 10 + 8 * b
    ensures MaskByte(vout, b) != 0 && b < Blocks(vout) && InUse(vout, b + 1) > 0
  {
    PackBound(vout, 2 + 8 * b, 8);
    hide Pack;
  }

  function CoinBytes(cv: Curve, c: Coins): Bytes
    requires HeaderCode(c) >= 0
  {
    SignedBytes(c.nVersion) + VarBytes(HeaderCode(c)) + Mask(c.vout) + Outs(cv, c.vout, 0) + SignedBytes(c.nHeight)
  }

  function ReadCoins(cv: Curve, s: Bytes): Option<(Coins, Bytes)> {
    match ReadVar(s)
    case None => None
    case Some((version, s1)) =>
      match ReadVar(s1)
      case None => None
      case Some((n, s2)) =>
        var code := n % UINT32;
        match ReadMask(s2, code / 16 + (if code / 4 % 4 != 0 then 0 else 1))
        case None => None
        case Some((bits, s3)) =>
          match ReadOuts(cv, s3, [code / 4 % 2 == 1, code / 8 % 2 == 1] + bits)
          case None => None
          case Some((vout, s4)) =>
            match ReadVar(s4)
            case None => None
            case Some((height, s5)) =>
              Some((Coins(code % 2 == 1, code / 2 % 2 == 1, Trim(vout), ToInt32(height), ToInt32(version)), s5))
  }

  /** The header code gives back the flags it was made of. */
  lemma CodeFields(k: nat, b: bool, s: bool, f: bool, g: bool)
    ensures var code := 16 * k + Bit(b) + 2 * Bit(s) + 4 * Bit(f) + 8 * Bit(g);
      (code % 2 == 1 <==> b) && (code / 2 % 2 == 1 <==> s) && (code / 4 % 2 == 1 <==> f) && (code / 8 % 2 == 1 <==> g)
      && code / 16 == k && (code / 4 % 4 != 0 <==> f || g)
  {
    var code := 16 * k + Bit(b) + 2 * Bit(s) + 4 * Bit(f) + 8 * Bit(g);
    LowBit(8 * k + Bit(s) + 2 * Bit(f) + 4 * Bit(g), b);
    LowBit(4 * k + Bit(f) + 2 * Bit(g), s);
    LowBit(2 * k + Bit(g), f);
    LowBit(k, g);
    QuarterOf(code, 4 * k + Bit(f) + 2 * Bit(g), Bit(b) + 2 * Bit(s));
    QuarterOf(4 * k + Bit(f) + 2 * Bit(g), k, Bit(f) + 2 * Bit(g));
    DivDiv(code, 2, 2);
    DivDiv(code, 4, 2);
    DivDiv(code, 4, 4);
  }

  lemma LowBit(x: nat, b: bool)
    ensures (2 * x + Bit(b)) / 2 == x && ((2 * x + Bit(b)) % 2 == 1 <==> b)
  { }

  lemma QuarterOf(n: nat, x: nat, r: nat)
    requires n == 4 * x + r && r < 4
    ensures n / 4 == x && n % 4 == r
  { }

  function BackVout(cv: Curve, vout: seq<TxOut>): seq<TxOut> {
    seq(|vout|, i requires 0 <= i < |vout| => BackOut(cv, vout[i]))
  }

  /** What becomes of coins that are stored and read. */
  function Back(cv: Curve, c: Coins): Coins {
    Coins(c.fCoinBase, c.fCoinStake, Trim(BackVout(cv, c.vout)),
          BackInt(c.nHeight), BackInt(c.nVersion))
  }

  lemma TrimAgrees(a: seq<TxOut>, b: seq<TxOut>)
    requires forall i :: 0 <= i < |a| && i < |b| ==> a[i] == b[i]
    requires forall i :: |b| <= i < |a| ==> a[i].IsNull()
    requires forall i :: |a| <= i < |b| ==> b[i].IsNull()
    ensures Trim(a) == Trim(b)
  {
    TrimIs(a);
    TrimIs(b);
    var x, y := Trim(a), Trim(b);
    assert |x| == |y|;
    forall i | 0 <= i < |x| ensures x[i] == y[i] { assert x[i] == a[i] && y[i] == b[i]; }
  }

  /** Outputs beyond those of the transaction, or left off at its end, are null. */
  lemma TrimBack(cv: Curve, vout: seq<TxOut>, n: nat)
    requires forall i :: n <= i < |vout| ==> vout[i].IsNull()
    ensures Trim(BackOuts(cv, vout, 0, n)) == Trim(BackVout(cv, vout))
  {
    TrimAgrees(BackOuts(cv, vout, 0, n), BackVout(cv, vout));
  }

  lemma MaskReadBack(vout: seq<TxOut>, t: Bytes)
    ensures ReadMask(Mask(vout) + t, InUse(vout, Blocks(vout))) ==
      Some((Avail(vout, 2, 8 * LastUsed(vout, Blocks(vout))), t))
  {
    hide LastUsed, Blocks, InUse, MaskByte, MaskFrom, ReadMask, Avail, Pack;
    var n := LastUsed(vout, Blocks(vout));
    LastUsedIs(vout, Blocks(vout));
    MaskFromReadBack(vout, 0, n, t);
    assert InUse(vout, 0) == 0 by { NoneInUse(vout); }
  }

  lemma NoneInUse(vout: seq<TxOut>)
    ensures InUse(vout, 0) == 0
  { }

  lemma MaskEnds(vout: seq<TxOut>, i: nat)
    requires 2 + 8 * LastUsed(vout, Blocks(vout)) <= i < |vout|
    ensures vout[i].IsNull()
  {
    hide LastUsed, Blocks;
    if Alive(vout, i) { MaskReaches(vout, i); }
  }

  lemma FirstTwo(vout: seq<TxOut>, n: nat)
    ensures [Alive(vout, 0), Alive(vout, 1)] + Avail(vout, 2, n) == Avail(vout, 0, 2 + n)
  { }

  /** The header code gives back the flags and the number of mask bytes in use. */
  ghost predicate CodeIs(code: nat, c: Coins) {
    && code % UINT32 == code
    && (code % 2 == 1 <==> c.fCoinBase) && (code / 2 % 2 == 1 <==> c.fCoinStake)
    && (code / 4 % 2 == 1 <==> Alive(c.vout, 0)) && (code / 8 % 2 == 1 <==> Alive(c.vout, 1))
    && code / 16 + (if code / 4 % 4 != 0 then 0 else 1) == InUse(c.vout, Blocks(c.vout))
  }

  lemma CodeReadBack(c: Coins)
    requires Storable(c)
    ensures HeaderCode(c) >= 0 && CodeIs(HeaderCode(c), c)
  {
    HeaderCodeFits(c);
    hide InUse, Alive;
    var k := InUse(c.vout, Blocks(c.vout)) - (if Alive(c.vout, 0) || Alive(c.vout, 1) then 0 else 1);
    CodeFields(k, c.fCoinBase, c.fCoinStake, Alive(c.vout, 0), Alive(c.vout, 1));
    Narrow32(HeaderCode(c));
  }

  lemma Narrow32(x: nat)
    requires x < UINT32
    ensures x % UINT32 == x
  { }

  /** Reading what was stored gives the coins back, as Back says, and leaves what follows. */
  lemma CoinsRoundTrip(cv: Curve, c: Coins, t: Bytes)
    requires Sound(cv) && Storable(c) && AllSizable(cv, c.vout)
    ensures HeaderCode(c) >= 0 && ReadCoins(cv, CoinBytes(cv, c) + t) == Some((Back(cv, c), t))
  {
    hide ReadVar, VarBytes, SignedBytes, Mask, ReadMask, Outs, ReadOuts, Alive, InUse, Avail, BackOuts, Trim,
      ToInt32, BackInt, Blocks, LastUsed, Sound, HeaderCode, BackOut;
    CodeReadBack(c);
    var n := 8 * LastUsed(c.vout, Blocks(c.vout));
    var s4 := SignedBytes(c.nHeight) + t;
    var s3 := Outs(cv, c.vout, 0) + s4;
    var s2 := Mask(c.vout) + s3;
    var s1 := VarBytes(HeaderCode(c)) + s2;
    Regroup(SignedBytes(c.nVersion), VarBytes(HeaderCode(c)), Mask(c.vout), Outs(cv, c.vout, 0),
      SignedBytes(c.nHeight), t);
    SignedRoundTrip(c.nVersion, s1);
    VarRoundTrip(HeaderCode(c), s2);
    MaskReadBack(c.vout, s3);
    forall i | 2 + n <= i < |c.vout| ensures c.vout[i].IsNull() { MaskEnds(c.vout, i); }
    FirstTwo(c.vout, n);
    OutsReadBack(cv, c.vout, 0, 2 + n, s4);
    SignedRoundTrip(c.nHeight, t);
    TrimBack(cv, c.vout, 2 + n);
  }

  lemma Regroup(a: Bytes, b: Bytes, c: Bytes, d: Bytes, e: Bytes, t: Bytes)
    ensures a + b + c + d + e + t == a + (b + (c + (d + (e + t))))
  { }

  /** An output that the stored form keeps whole. */
  ghost predicate KeptOut(cv: Curve, o: TxOut) {
    if o.IsNull() then o.scriptPubKey == [] else Kept(cv, o.scriptPubKey) && Fits(o.nValue % UINT64)
  }

  /** What comes back is the coins without the spent outputs at their end exactly when version and height
      are not negative and every output up to the last unspent one is kept whole. */
  lemma ComesBackWhole(cv: Curve, c: Coins)
    ensures Back(cv, c) == Cleaned(c) <==>
      c.nVersion >= 0 && c.nHeight >= 0 && forall i :: 0 <= i < |Trim(c.vout)| ==> KeptOut(cv, Trim(c.vout)[i])
  {
    hide BackOut, KeptOut, Trim;
    var v, y := BackVout(cv, c.vout), Trim(c.vout);
    TrimIs(c.vout);
    TrimIs(v);
    forall i | 0 <= i < |y| ensures v[i] == y[i] <==> KeptOut(cv, y[i]) { KeptIs(cv, c.vout[i]); }
    if forall i :: 0 <= i < |y| ==> KeptOut(cv, y[i]) {
      forall i | |y| <= i < |v| ensures v[i].IsNull() { NullComesBack(cv, c.vout[i]); }
      TrimAgrees(v, y);
      TrimmedTwice(c.vout);
    } else if Trim(v) == y {
      forall i | 0 <= i < |y| ensures KeptOut(cv, y[i]) { assert v[i] == Trim(v)[i]; }
    }
  }

  lemma NullComesBack(cv: Curve, o: TxOut)
    requires o.IsNull()
    ensures BackOut(cv, o) == NULL_OUT
  { }

  lemma TrimmedTwice(vout: seq<TxOut>)
    ensures Trim(Trim(vout)) == Trim(vout)
  {
    TrimIs(vout);
  }

  lemma KeptIs(cv: Curve, o: TxOut)
    ensures BackOut(cv, o) == o <==> KeptOut(cv, o)
  {
    AmountComesBack(o.nValue);
    hide BackAmount, Short, Fits;
    if !o.IsNull() && !Kept(cv, o.scriptPubKey) {
      assert |o.scriptPubKey| > MAX_SCRIPT_SIZE;
    }
  }

  /** Coins with a negative version or height are not read back: its low seven bits are. */
  lemma NegativeIsLost(cv: Curve, c: Coins, t: Bytes)
    requires Sound(cv) && Storable(c) && AllSizable(cv, c.vout) && (c.nVersion < 0 || c.nHeight < 0)
    ensures HeaderCode(c) >= 0
    ensures var r := ReadCoins(cv, CoinBytes(cv, c) + t);
      r.Some? && r.value.0 != Cleaned(c) && (c.nVersion < 0 ==> r.value.0.nVersion == c.nVersion % 128) &&
      (c.nHeight < 0 ==> r.value.0.nHeight == c.nHeight % 128)
  {
    CoinsRoundTrip(cv, c, t);
    hide ReadCoins, CoinBytes, Sound;
  }

  /** The coins of a transaction of a given version, with one output. */
  function OneCoin(version: int): Coins { Coins(false, false, [TxOut(1, [])], 1, version) }

  /** A version of -1, which a transaction may have, is read as 127. */
  lemma NegativeVersionIsLost(cv: Curve, t: Bytes)
    requires Sound(cv)
    ensures Storable(OneCoin(-1)) && HeaderCode(OneCoin(-1)) >= 0
    ensures ReadCoins(cv, CoinBytes(cv, OneCoin(-1)) + t) == Some((OneCoin(127), t))
  {
    OneCoinBack(cv);
    hide ReadCoins, CoinBytes, Sound, Back, HeaderCode, OneCoin, Storable, AllSizable;
    CoinsRoundTrip(cv, OneCoin(-1), t);
  }

  lemma OneCoinBack(cv: Curve)
    ensures Storable(OneCoin(-1)) && AllSizable(cv, OneCoin(-1).vout) && Back(cv, OneCoin(-1)) == OneCoin(127)
  {
    hide BackOut, BackAmount;
    assert !OneCoin(-1).vout[0].IsNull();
    assert BackOut(cv, TxOut(1, [])) == TxOut(1, []) by { OneComesBack(cv); }
    assert BackVout(cv, [TxOut(1, [])]) == [TxOut(1, [])];
  }

  lemma OneComesBack(cv: Curve)
    ensures BackOut(cv, TxOut(1, [])) == TxOut(1, [])
  {
    hide BackAmount;
    AmountComesBack(1);
  }

  // ----- The operations -----

  /** The number of mask bytes up to the last one in use, and the number in use. */
  method CalcMaskSize(vout: seq<TxOut>) returns (nBytes: nat, nNonzeroBytes: nat)
    ensures nBytes == LastUsed(vout, Blocks(vout)) && nNonzeroBytes == InUse(vout, Blocks(vout))
  {
    hide MaskByte;
    nBytes, nNonzeroBytes := 0, 0;
    var b := 0;
    while 2 + b * 8 < |vout|
      invariant 0 <= b <= Blocks(vout) && nBytes == LastUsed(vout, b) && nNonzeroBytes == InUse(vout, b)
    {
      var fZero, i := true, 0;
      while i < 8 && 2 + b * 8 + i < |vout|
        invariant 0 <= i <= 8 && (fZero <==> forall k :: 2 + b * 8 <= k < 2 + b * 8 + i ==> !Alive(vout, k))
      {
        if !vout[2 + b * 8 + i].IsNull() {
          fZero := false;
          assert Alive(vout, 2 + b * 8 + i);
        }
        i := i + 1;
      }
      MaskByteZero(vout, b);
      if !fZero {
        nBytes := b + 1;
        nNonzeroBytes := nNonzeroBytes + 1;
      }
      b := b + 1;
    }
  }

  lemma MaskByteZero(vout: seq<TxOut>, b: nat)
    ensures MaskByte(vout, b) == 0 <==> forall k :: 2 + b * 8 <= k < 2 + b * 8 + 8 ==> !Alive(vout, k)
  {
    PackBound(vout, 2 + 8 * b, 8);
  }

  /** The mask byte for block b, one bit at a time. */
  method PackByte(vout: seq<TxOut>, b: nat) returns (chAvail: nat)
    ensures chAvail == MaskByte(vout, b)
  {
    hide Pack, Pow;
    chAvail := 0;
    var i, bit := 0, 1;
    PackNone(vout, 2 + 8 * b);
    while i < 8 && 2 + b * 8 + i < |vout|
      invariant 0 <= i <= 8 && bit == Pow(2, i) && chAvail == Pack(vout, 2 + 8 * b, i)
    {
      PackNext(vout, 2 + 8 * b, i);
      PackBound(vout, 2 + 8 * b, i);
      OrDisjoint(1, chAvail, i);
      if !vout[2 + b * 8 + i].IsNull() {
        chAvail := BitOr(bit, chAvail);
      }
      PowAdd(2, 1, i);
      i := i + 1;
      bit := 2 * bit;
    }
    PackRest(vout, 2 + 8 * b, i, 8);
  }

  lemma PackNone(vout: seq<TxOut>, at: nat)
    ensures Pack(vout, at, 0) == 0 && Pow(2, 0) == 1 && Pow(2, 1) == 2
  { }

  lemma {:induction false} PackRest(vout: seq<TxOut>, at: nat, i: nat, n: nat)
    requires i <= n && forall k :: at + i <= k < at + n ==> !Alive(vout, k)
    ensures Pack(vout, at, i) == Pack(vout, at, n)
    decreases n - i
  {
    if i < n {
      PackNext(vout, at, i);
      PackRest(vout, at, i + 1, n);
    }
  }

  lemma {:induction false} MaskFromSnoc(vout: seq<TxOut>, b: nat, n: nat)
    requires b <= n
    ensures MaskFrom(vout, b, n + 1) == MaskFrom(vout, b, n) + [MaskByte(vout, n)]
    decreases n - b
  {
    hide MaskByte;
    if b < n {
      MaskFromSnoc(vout, b + 1, n);
      assert MaskFrom(vout, b, n + 1) == [MaskByte(vout, b)] + (MaskFrom(vout, b + 1, n) + [MaskByte(vout, n)]);
    } else {
      assert MaskFrom(vout, n + 1, n + 1) == [];
    }
  }

  method WriteSigned(n: int) returns (s: Bytes)
    requires n < UINT32 / 2
    ensures s == SignedBytes(n)
  {
    if n <= 0x7F { return [n % 128]; }
    assert n < Pow(2, 32) by { PowerOfTwo32(); }
    s := WriteVarInt(n, 32);
  }

  lemma PowerOfTwo32()
    ensures Pow(2, 32) == UINT32 && Pow(2, 64) == UINT64
  {
    assert Pow(2, 8) == 256 by { assert Pow(2, 4) == 16; PowAdd(2, 4, 4); }
    PowAdd(2, 8, 8);
    PowAdd(2, 16, 16);
    PowAdd(2, 32, 32);
  }

  method WriteOut(cv: Curve, o: TxOut) returns (s: Bytes)
    ensures s == OutBytes(cv, o)
  {
    hide Short, Pow;
    var nVal := CompressAmount(o.nValue % UINT64);
    PowerOfTwo32();
    s := WriteVarInt(nVal, 64);
    s := s + ScriptBytes(cv, o.scriptPubKey);
  }

  method WriteMask(vout: seq<TxOut>, nMaskSize: nat) returns (mask: Bytes)
    ensures mask == MaskFrom(vout, 0, nMaskSize)
  {
    hide MaskByte;
    mask := [];
    for b := 0 to nMaskSize
      invariant mask == MaskFrom(vout, 0, b)
    {
      var chAvail := PackByte(vout, b);
      mask := mask + [chAvail];
      MaskFromSnoc(vout, 0, b);
    }
  }

  method WriteOuts(cv: Curve, vout: seq<TxOut>) returns (outs: Bytes)
    ensures outs == Outs(cv, vout, 0)
  {
    hide OutBytes, Outs;
    outs := [];
    for i := 0 to |vout|
      invariant outs + Outs(cv, vout, i) == Outs(cv, vout, 0)
    {
      OutsStep(cv, vout, i, outs);
      if !vout[i].IsNull() {
        var out := WriteOut(cv, vout[i]);
        outs := outs + out;
      } else {
        assert outs + [] == outs;
      }
    }
    NoMoreOuts(cv, vout, |vout|);
  }

  lemma OutsStep(cv: Curve, vout: seq<TxOut>, at: nat, outs: Bytes)
    requires at < |vout|
    ensures outs + Outs(cv, vout, at) ==
      outs + (if vout[at].IsNull() then [] else OutBytes(cv, vout[at])) + Outs(cv, vout, at + 1)
  {
    hide OutBytes;
    var out := if vout[at].IsNull() then [] else OutBytes(cv, vout[at]);
    assert Outs(cv, vout, at) == out + Outs(cv, vout, at + 1);
    assert outs + (out + Outs(cv, vout, at + 1)) == outs + out + Outs(cv, vout, at + 1);
  }

  method Serialize(cv: Curve, c: Coins) returns (s: Bytes)
    requires Storable(c)
    ensures HeaderCode(c) >= 0 && s == CoinBytes(cv, c)
  {
    hide Pow, SignedBytes, VarBytes, MaskByte, OutBytes, InUse, LastUsed, Blocks;
    HeaderCodeFits(c);
    PowerOfTwo32();
    var nMaskSize, nMaskCode := CalcMaskSize(c.vout);
    var fFirst := |c.vout| > 0 && !c.vout[0].IsNull();
    var fSecond := |c.vout| > 1 && !c.vout[1].IsNull();
    assert fFirst || fSecond || nMaskCode > 0;
    var nCode := 16 * (nMaskCode - (if fFirst || fSecond then 0 else 1)) + (if c.fCoinBase then 1 else 0)
      + (if c.fCoinStake then 2 else 0) + (if fFirst then 4 else 0) + (if fSecond then 8 else 0);
    assert nCode == HeaderCode(c);
    var version := WriteSigned(c.nVersion);
    var code := WriteVarInt(nCode, 32);
    var mask := WriteMask(c.vout, nMaskSize);
    var outs := WriteOuts(cv, c.vout);
    var height := WriteSigned(c.nHeight);
    s := version + code + mask + outs + height;
  }

  method UnpackByte(ch: nat, vAvail: seq<bool>) returns (r: seq<bool>)
    ensures r == vAvail + Unpack(ch, 8)
  {
    r := vAvail;
    var rest := ch;
    for p := 0 to 8
      invariant r + Unpack(rest, 8 - p) == vAvail + Unpack(ch, 8)
    {
      var f := rest % 2 != 0;
      assert r + ([f] + Unpack(rest / 2, 7 - p)) == r + [f] + Unpack(rest / 2, 7 - p);
      r := r + [f];
      rest := rest / 2;
    }
  }

  method ReadMaskBytes(s: Bytes, k: nat) returns (ok: bool, bits: seq<bool>, rest: Bytes)
    ensures ok <==> ReadMask(s, k).Some?
    ensures ok ==> ReadMask(s, k).value == (bits, rest)
  {
    hide Unpack;
    bits, rest := [], s;
    var nMaskCode := k;
    assert After([], ReadMask(s, k)) == ReadMask(s, k) by { AfterNothing(ReadMask(s, k)); }
    while nMaskCode > 0
      invariant nMaskCode >= 0 && ReadMask(s, k) == After(bits, ReadMask(rest, nMaskCode))
      decreases |rest|
    {
      if rest == [] { return false, [], []; }
      var chAvail := rest[0];
      ghost var before := bits;
      bits := UnpackByte(chAvail, bits);
      AfterMore(before, Unpack(chAvail, 8), ReadMask(rest[1..], if chAvail != 0 then nMaskCode - 1 else nMaskCode));
      rest := rest[1..];
      if chAvail != 0 { nMaskCode := nMaskCode - 1; }
    }
    assert bits + [] == bits;
    ok := true;
  }

  method ReadOne(cv: Curve, s: Bytes) returns (ok: bool, o: TxOut, rest: Bytes)
    ensures ok <==> ReadOut(cv, s).Some?
    ensures ok ==> ReadOut(cv, s).value == (o, rest)
  {
    hide Long, Pow, ReadVar, ReadScript;
    PowerOfTwo32();
    o := NULL_OUT;
    var nVal;
    ok, nVal, rest := ReadVarInt(s, 64);
    if !ok { return; }
    var amount := DecompressAmount(nVal);
    match ReadScript(cv, rest)
    case None => ok := false;
    case Some((sc, t)) =>
      o := TxOut(ToInt64(amount), sc);
      rest := t;
      assert amount % UINT64 == amount;
  }

  method ReadOutputs(cv: Curve, s: Bytes, vAvail: seq<bool>) returns (ok: bool, vout: seq<TxOut>, rest: Bytes)
    ensures ok <==> ReadOuts(cv, s, vAvail).Some?
    ensures ok ==> ReadOuts(cv, s, vAvail).value == (vout, rest)
  {
    hide ReadOut;
    vout, rest := [], s;
    AfterNothing(ReadOuts(cv, s, vAvail));
    assert vAvail[0..] == vAvail;
    for i := 0 to |vAvail|
      invariant ReadOuts(cv, s, vAvail) == After(vout, ReadOuts(cv, rest, vAvail[i..]))
    {
      assert vAvail[i..][1..] == vAvail[i + 1..];
      var o := NULL_OUT;
      if vAvail[i] {
        ok, o, rest := ReadOne(cv, rest);
        if !ok { return false, [], []; }
      }
      AfterMore(vout, [o], ReadOuts(cv, rest, vAvail[i + 1..]));
      vout := vout + [o];
    }
    assert vout + [] == vout;
    ok := true;
  }

  method Unserialize(cv: Curve, s: Bytes) returns (ok: bool, c: Coins, rest: Bytes)
    ensures ok <==> ReadCoins(cv, s).Some?
    ensures ok ==> ReadCoins(cv, s).value == (c, rest)
  {
    hide Pow, ReadVar, ReadMask, ReadOuts, Trim, ToInt32;
    PowerOfTwo32();
    c := NO_COINS;
    var version, code, bits, vout, height;
    ok, version, rest := ReadVarInt(s, 32);
    if !ok { return; }
    ok, code, rest := ReadVarInt(rest, 32);
    if !ok { return; }
    var nMaskCode := code / 16 + (if code / 4 % 4 != 0 then 0 else 1);
    ok, bits, rest := ReadMaskBytes(rest, nMaskCode);
    if !ok { return; }
    ok, vout, rest := ReadOutputs(cv, rest, [code / 4 % 2 == 1, code / 8 % 2 == 1] + bits);
    if !ok { return; }
    ok, height, rest := ReadVarInt(rest, 32);
    if !ok { return; }
    WrapInt32();
    vout := Cleanup(vout);
    c := Coins(code % 2 == 1, code / 2 % 2 == 1, vout, ToInt32(height), ToInt32(version));
  }

  lemma WrapInt32()
    ensures forall y: nat :: ToInt32(y % UINT32) == ToInt32(y)
  { }

  /** Storing and reading. */
  method StoreAndLoad(cv: Curve, c: Coins) returns (ok: bool, r: Coins)
    requires Sound(cv) && Storable(c) && AllSizable(cv, c.vout)
    ensures ok && r == Back(cv, c)
  {
    hide ReadCoins, CoinBytes, Back, Sound;
    var s := Serialize(cv, c);
    CoinsRoundTrip(cv, c, []);
    assert CoinBytes(cv, c) + [] == CoinBytes(cv, c);
    var rest;
    ok, r, rest := Unserialize(cv, s);
  }
}

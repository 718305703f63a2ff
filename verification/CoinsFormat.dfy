/** The stored form of coins, bit by bit and in examples. */
module CoinsFormat {
  import opened Arith
  import opened CoinsView
  import opened Wrappers
  import opened VarInt
  import opened Compressor
  import opened CoinsCodec

  // ----- The bit mask and the header code -----

  lemma {:induction false} UnpackAt(x: nat, n: nat, i: nat)
    requires i < n
    ensures |Unpack(x, n)| == n && PowPos2(i) && (Unpack(x, n)[i] <==> x / Pow(2, i) % 2 == 1)
    decreases n
  {
    if i > 0 {
      UnpackAt(x / 2, n - 1, i - 1);
      DivDiv(x, 2, Pow(2, i - 1));
    } else if n > 1 {
      UnpackAt(x / 2, n - 1, 0);
    }
  }

  ghost predicate PowPos2(i: nat)
    ensures Pow(2, i) > 0
  {
    PowPos(2, i);
    true
  }

  /** Bit i of mask byte b says whether output 2 + 8b + i is left; the mask goes on to the last byte with a bit set. */
  lemma MaskIs(vout: seq<TxOut>)
    ensures forall b, i :: 0 <= b < |Mask(vout)| && 0 <= i < 8 && PowPos2(i) ==>
      (Mask(vout)[b] / Pow(2, i) % 2 == 1 <==> Alive(vout, 2 + 8 * b + i))
    ensures Mask(vout) != [] ==> Mask(vout)[|Mask(vout)| - 1] != 0
    ensures forall i :: 2 <= i < |vout| && !vout[i].IsNull() ==> (i - 2) / 8 < |Mask(vout)|
  {
    hide MaskByte, Pow, Unpack, LastUsed;
    var n := LastUsed(vout, Blocks(vout));
    MaskAt(vout, 0, n);
    LastUsedIs(vout, Blocks(vout));
    forall b, i | 0 <= b < n && 0 <= i < 8
      ensures PowPos2(i) && (Mask(vout)[b] / Pow(2, i) % 2 == 1 <==> Alive(vout, 2 + 8 * b + i))
    {
      BitIs(vout, b, i);
    }
    forall i | 2 <= i < |vout| && !vout[i].IsNull() ensures (i - 2) / 8 < n { MaskReaches(vout, i); }
  }

  lemma BitIs(vout: seq<TxOut>, b: nat, i: nat)
    requires i < 8
    ensures PowPos2(i) && (MaskByte(vout, b) / Pow(2, i) % 2 == 1 <==> Alive(vout, 2 + 8 * b + i))
  {
    hide Pack, Unpack, Pow;
    UnpackPack(vout, 2 + 8 * b, 8);
    UnpackAt(MaskByte(vout, b), 8, i);
  }

  lemma {:induction false} MaskAt(vout: seq<TxOut>, b: nat, n: nat)
    requires b <= n
    ensures |MaskFrom(vout, b, n)| == n - b
    ensures forall k :: 0 <= k < n - b ==> MaskFrom(vout, b, n)[k] == MaskByte(vout, b + k)
    decreases n - b
  {
    hide MaskByte;
    if b < n { MaskAt(vout, b + 1, n); }
  }

  /** The header code: two flags, the first two outputs, and above them the number of mask bytes with a bit set, less
      one if neither of these outputs is left. */
  lemma HeaderIs(c: Coins)
    ensures var first, second := Alive(c.vout, 0), Alive(c.vout, 1);
      HeaderCode(c) == (if c.fCoinBase then 1 else 0) + (if c.fCoinStake then 2 else 0) + (if first then 4 else 0)
        + (if second then 8 else 0)
        + 16 * (|set b | 0 <= b < |Mask(c.vout)| && Mask(c.vout)[b] != 0| - if first || second then 0 else 1)
  {
    hide MaskByte, Blocks;
    var n := LastUsed(c.vout, Blocks(c.vout));
    LastUsedIs(c.vout, Blocks(c.vout));
    InUseIs(c.vout, n);
    MaskAt(c.vout, 0, n);
    hide LastUsed, InUse;
    assert (set b | 0 <= b < |Mask(c.vout)| && Mask(c.vout)[b] != 0) == Used(c.vout, n);
  }

  ghost function Used(vout: seq<TxOut>, n: nat): set<int> { set b | 0 <= b < n && MaskByte(vout, b) != 0 }

  lemma {:induction false} InUseIs(vout: seq<TxOut>, n: nat)
    ensures InUse(vout, n) == |Used(vout, n)|
  {
    hide MaskByte;
    if n == 0 {
      assert Used(vout, 0) == {};
    } else {
      InUseIs(vout, n - 1);
      assert Used(vout, n) == Used(vout, n - 1) + if MaskByte(vout, n - 1) != 0 then {n - 1} else {};
    }
  }

  // ----- The two examples -----

  /** Version 1, the second of two outputs left, 600 coins to a key hash, height 203998. */
  lemma FirstExample(cv: Curve, x: Bytes)
    requires |x| == 20
    ensures var c := Coins(false, false, [NULL_OUT, TxOut(60_000_000_000, ToKeyHash(x))], 203998, 1);
      && HeaderCode(c) >= 0
      && CoinBytes(cv, c) == [0x01, 0x08] + ([0x83, 0x58] + [0x00] + x) + [0x8b, 0xb8, 0x5e]
  {
    hide ToKeyHash, OutBytes, VarBytes, Mask, InUse, Short, CoinBytes, Outs;
    var o := TxOut(60_000_000_000, ToKeyHash(x));
    FirstNumbers();
    KeyHashBytes(cv, 60_000_000_000, [0x83, 0x58], x);
    SecondOfTwo(cv, o);
    FirstParts(cv, Coins(false, false, [NULL_OUT, o], 203998, 1), OutBytes(cv, o));
  }

  lemma SecondOfTwo(cv: Curve, o: TxOut)
    requires !o.IsNull()
    ensures var vout := [NULL_OUT, o];
      && !Alive(vout, 0) && Alive(vout, 1) && InUse(vout, Blocks(vout)) == 0 && Mask(vout) == []
      && Outs(cv, vout, 0) == OutBytes(cv, o)
  {
    hide OutBytes;
    var vout := [NULL_OUT, o];
    assert Blocks(vout) == 0 && LastUsed(vout, 0) == 0;
    OutsSkip(cv, vout, 0, 1);
    assert Outs(cv, vout, 2) == [];
    assert Outs(cv, vout, 1) == OutBytes(cv, o) + [] == OutBytes(cv, o);
  }

  lemma FirstParts(cv: Curve, c: Coins, o: Bytes)
    requires c.nVersion == 1 && HeaderCode(c) == 8 && c.nHeight == 203998
    requires Mask(c.vout) == [] && Outs(cv, c.vout, 0) == o
    ensures CoinBytes(cv, c) == [0x01, 0x08] + o + [0x8b, 0xb8, 0x5e]
  {
    FirstNumbers();
    hide VarBytes, Mask, Outs, HeaderCode, Short;
    var t: Bytes := [0x8b, 0xb8, 0x5e];
    assert CoinBytes(cv, c) == [0x01] + [0x08] + [] + o + t;
    assert [0x01] + [0x08] + [] == [0x01, 0x08];
  }

  lemma FirstNumbers()
    ensures VarBytes(1) == [0x01] && VarBytes(8) == [0x08] && VarBytes(203998) == [0x8b, 0xb8, 0x5e]
    ensures Short(60_000_000_000) < UINT64 && VarBytes(Short(60_000_000_000)) == [0x83, 0x58]
  {
    assert More(3) == [0x83] && More(11) == [0x8b];
    TensAre();
    hide More, Short;
    ShortForm(60, 9);
    VarStep(3, 0x58);
    VarStep(11, 0x38);
    VarStep(1592, 0x5e);
  }

  /** An output to a key hash. */
  lemma KeyHashBytes(cv: Curve, v: Int64, a: Bytes, x: Bytes)
    requires 0 <= v && Short(v) < UINT64 && VarBytes(Short(v)) == a && |x| == 20
    ensures OutBytes(cv, TxOut(v, ToKeyHash(x))) == a + [0x00] + x
  {
    ShortForms(cv, x);
    hide Short, ScriptBytes, VarBytes, ToKeyHash;
    Narrow64(v);
    Narrow64(Short(v));
    var z: Bytes := [0x00];
    assert a + (z + x) == a + z + x;
  }

  /** Version 1, a coinbase, outputs 4 and 16 of 17 left, height 120891. */
  function Sparse(a: TxOut, b: TxOut): seq<TxOut> {
    seq(17, i => if i == 4 then a else if i == 16 then b else NULL_OUT)
  }

  lemma SecondExample(cv: Curve, x: Bytes, y: Bytes)
    requires |x| == 20 && |y| == 20
    ensures var vout := Sparse(TxOut(234_925_952, ToKeyHash(x)), TxOut(110_397, ToKeyHash(y)));
      var c := Coins(true, false, vout, 120891, 1);
      HeaderCode(c) >= 0 && CoinBytes(cv, c) == [0x01, 0x11, 0x04, 0x40]
        + ([0x86, 0xef, 0x97, 0xd5, 0x79] + [0x00] + x) + ([0xbb, 0xd1, 0x23] + [0x00] + y) + [0x86, 0xaf, 0x3b]
  {
    hide ToKeyHash, OutBytes, VarBytes, Mask, InUse, Short, Sparse, CoinBytes, Alive, Blocks;
    var a, b := TxOut(234_925_952, ToKeyHash(x)), TxOut(110_397, ToKeyHash(y));
    var vout := Sparse(a, b);
    SecondNumbers();
    SecondAmounts();
    KeyHashBytes(cv, 234_925_952, [0x86, 0xef, 0x97, 0xd5, 0x79], x);
    KeyHashBytes(cv, 110_397, [0xbb, 0xd1, 0x23], y);
    SparseMask(a, b);
    SparseOuts(cv, a, b);
    SecondParts(cv, Coins(true, false, vout, 120891, 1), OutBytes(cv, a), OutBytes(cv, b));
  }

  lemma SecondParts(cv: Curve, c: Coins, a: Bytes, b: Bytes)
    requires c.nVersion == 1 && HeaderCode(c) == 17 && c.nHeight == 120891
    requires Mask(c.vout) == [0x04, 0x40] && Outs(cv, c.vout, 0) == a + b
    ensures CoinBytes(cv, c) == [0x01, 0x11, 0x04, 0x40] + a + b + [0x86, 0xaf, 0x3b]
  {
    SecondNumbers();
    hide VarBytes, Mask, Outs, HeaderCode;
    var t: Bytes := [0x86, 0xaf, 0x3b];
    assert CoinBytes(cv, c) == [0x01] + [0x11] + [0x04, 0x40] + (a + b) + t;
    assert [0x01] + [0x11] + [0x04, 0x40] == [0x01, 0x11, 0x04, 0x40];
    Regroup([0x01, 0x11, 0x04, 0x40], a, b, t);
  }

  lemma Regroup(h: Bytes, a: Bytes, b: Bytes, t: Bytes)
    ensures h + (a + b) + t == h + a + b + t
  { }

  lemma SecondNumbers()
    ensures VarBytes(1) == [0x01] && VarBytes(17) == [0x11] && VarBytes(120891) == [0x86, 0xaf, 0x3b]
    ensures VarBytes(2_114_333_561) == [0x86, 0xef, 0x97, 0xd5, 0x79] && VarBytes(993_571) == [0xbb, 0xd1, 0x23]
  {
    assert More(6) == [0x86] && More(59) == [0xbb];
    hide More;
    VarStep(6, 0x2f);
    VarStep(943, 0x3b);
    VarStep(6, 0x6f);
    VarStep(1007, 0x17);
    VarStep(129047, 0x55);
    VarStep(16518229, 0x79);
    VarStep(59, 0x51);
    VarStep(7761, 0x23);
  }

  lemma SecondAmounts()
    ensures Short(234_925_952) == 2_114_333_561 && Short(110_397) == 993_571
  {
    hide Short;
    FitsIs(234_925_952);
    FitsIs(110_397);
  }

  /** If one output of a range is left, one bit is set. */
  lemma {:induction false} PackOne(vout: seq<TxOut>, at: nat, n: nat, k: nat)
    requires k < n && Alive(vout, at + k) && forall i :: at <= i < at + n && i != at + k ==> !Alive(vout, i)
    ensures Pack(vout, at, n) == Pow(2, k)
    decreases n
  {
    if k == 0 {
      PackBound(vout, at + 1, n - 1);
    } else {
      PackOne(vout, at + 1, n - 1, k - 1);
    }
  }

  lemma SparseMask(a: TxOut, b: TxOut)
    requires !a.IsNull() && !b.IsNull()
    ensures var vout := Sparse(a, b);
      && !Alive(vout, 0) && !Alive(vout, 1) && InUse(vout, Blocks(vout)) == 2 && Mask(vout) == [0x04, 0x40]
  {
    var vout := Sparse(a, b);
    PackOne(vout, 2, 8, 2);
    PackOne(vout, 10, 8, 6);
    assert Pow(2, 2) == 4 && Pow(2, 6) == 64 by { Fours(); }
    assert MaskByte(vout, 0) == 0x04 && MaskByte(vout, 1) == 0x40;
    hide MaskByte, Pack;
    assert Blocks(vout) == 2;
    assert InUse(vout, 0) == 0 && InUse(vout, 1) == 1 && InUse(vout, 2) == 2;
    assert LastUsed(vout, 2) == 2;
    assert MaskFrom(vout, 2, 2) == [] && MaskFrom(vout, 1, 2) == [0x40];
  }

  lemma Fours()
    ensures Pow(2, 2) == 4 && Pow(2, 6) == 64
  {
    assert Pow(2, 4) == 16;
  }

  lemma {:induction false} OutsSkip(cv: Curve, vout: seq<TxOut>, at: nat, k: nat)
    requires at <= k <= |vout| && forall i :: at <= i < k ==> vout[i].IsNull()
    ensures Outs(cv, vout, at) == Outs(cv, vout, k)
    decreases k - at
  {
    hide OutBytes;
    if at < k {
      OutsSkip(cv, vout, at + 1, k);
      assert Outs(cv, vout, at) == [] + Outs(cv, vout, at + 1);
    }
  }

  lemma SparseOuts(cv: Curve, a: TxOut, b: TxOut)
    requires !a.IsNull() && !b.IsNull()
    ensures Outs(cv, Sparse(a, b), 0) == OutBytes(cv, a) + OutBytes(cv, b)
  {
    hide OutBytes;
    var vout := Sparse(a, b);
    OutsSkip(cv, vout, 0, 4);
    OutsSkip(cv, vout, 5, 16);
    assert Outs(cv, vout, 17) == [];
    assert Outs(cv, vout, 16) == OutBytes(cv, b) + [] == OutBytes(cv, b);
    assert Outs(cv, vout, 4) == OutBytes(cv, a) + Outs(cv, vout, 5);
  }
}

/** Variable-length integers: base 128, most significant group first, the top bit of a byte saying that
    another follows, and one subtracted from every group but the last. */
module VarInt {
  import opened Arith
  import opened Wrappers

  /** The groups of m when more groups follow. */
  function More(m: nat): seq<Byte> {
    if m <= 0x7F then [m + 0x80] else More(m / 128 - 1) + [m % 128 + 0x80]
  }

  function VarBytes(n: nat): seq<Byte> {
    if n <= 0x7F then [n] else More(n / 128 - 1) + [n % 128]
  }

  /** Reads on after groups that came to acc. */
  function ReadOn(s: seq<Byte>, acc: nat): Option<(nat, seq<Byte>)> {
    if s == [] then None
    else
      var n := acc * 128 + s[0] % 128;
      if s[0] >= 0x80 then ReadOn(s[1..], n + 1) else Some((n, s[1..]))
  }

  function ReadVar(s: seq<Byte>): Option<(nat, seq<Byte>)> { ReadOn(s, 0) }

  lemma {:induction false} ReadMore(m: nat, t: seq<Byte>)
    ensures ReadOn(More(m) + t, 0) == ReadOn(t, m + 1)
  {
    if m <= 0x7F {
      assert ([m + 0x80] + t)[1..] == t;
    } else {
      var u := [m % 128 + 0x80] + t;
      ReadMore(m / 128 - 1, u);
      assert More(m) + t == More(m / 128 - 1) + u;
      assert u[1..] == t;
      assert m / 128 * 128 + m % 128 == m;
    }
  }

  /** Reading gives back what was written, and leaves what follows. */
  lemma VarRoundTrip(n: nat, t: seq<Byte>)
    ensures ReadVar(VarBytes(n) + t) == Some((n, t))
  {
    if n <= 0x7F {
      assert ([n as Byte] + t)[1..] == t;
    } else {
      var u: seq<Byte> := [n % 128] + t;
      ReadMore(n / 128 - 1, u);
      assert VarBytes(n) + t == More(n / 128 - 1) + u;
      assert u[1..] == t;
      assert n / 128 * 128 + n % 128 == n;
    }
  }

  /** The sum over i from 1 to k of 128^i * (a[len - i - 1] % 128 + 1). */
  ghost function Groups128(a: seq<Byte>, k: nat): int
    requires k < |a|
  {
    if k == 0 then 0 else Groups128(a, k - 1) + Pow(128, k) * (a[|a| - k - 1] % 128 + 1)
  }

  /** The bytes of a number: all but the last have the top bit, and the number is the last one plus that sum over all of
      the others. */
  lemma VarValue(n: nat)
    ensures var a := VarBytes(n);
      && |a| > 0 && a[|a| - 1] < 128 && (forall i :: 0 <= i < |a| - 1 ==> a[i] >= 128)
      && n == a[|a| - 1] + Groups128(a, |a| - 1)
  {
    if n > 0x7F {
      var m := n / 128 - 1;
      MoreValue(m, n % 128);
      assert VarBytes(n) == More(m) + [n % 128];
      assert n == 128 * (m + 1) + n % 128;
    }
  }

  lemma {:induction false} MoreValue(m: nat, x: Byte)
    ensures var a := More(m);
      && |a| > 0 && (forall i :: 0 <= i < |a| ==> a[i] >= 128) && 128 * (m + 1) == Groups128(a + [x], |a|)
  {
    hide Pow;
    if m <= 0x7F {
      var b := [m + 0x80, x];
      assert More(m) + [x] == b;
      assert Pow(128, 1) == 128 by { Pow128(); }
      assert Groups128(b, 0) == 0;
      assert Groups128(b, 1) == 128 * (m + 1);
    } else {
      var q, y: Byte := m / 128 - 1, m % 128 + 0x80;
      MoreValue(q, y);
      var a := More(q);
      GroupsShift(a + [y], x, |a| + 1);
      assert More(m) == a + [y];
      assert m + 1 == 128 * (q + 1) + (y % 128 + 1);
    }
  }

  lemma Pow128()
    ensures Pow(128, 1) == 128 && Pow(128, 0) == 1
  { }

  /** One more byte at the end moves every group up. */
  lemma {:induction false} GroupsShift(a: seq<Byte>, x: Byte, k: nat)
    requires 0 < k <= |a|
    ensures Groups128(a + [x], k) == 128 * (Groups128(a, k - 1) + a[|a| - 1] % 128 + 1)
  {
    hide Pow;
    var b := a + [x];
    assert b[|b| - k - 1] == a[|a| - k];
    Pow128();
    if k == 1 {
      assert Groups128(b, 0) == 0 && Groups128(a, 0) == 0;
    } else {
      GroupsShift(a, x, k - 1);
      assert Pow(128, k) == 128 * Pow(128, k - 1) by { PowNext128(k - 1); }
      ShiftAlgebra(Groups128(a, k - 2), a[|a| - 1] % 128 + 1, Pow(128, k - 1), a[|a| - k] % 128 + 1);
    }
  }

  lemma PowNext128(k: nat)
    ensures Pow(128, k + 1) == 128 * Pow(128, k)
  { }

  lemma ShiftAlgebra(g: int, c: int, p: int, d: int)
    ensures 128 * (g + c) + 128 * p * d == 128 * (g + p * d + c)
  { }

  lemma VarStep(q: nat, r: Byte)
    requires r < 128
    ensures VarBytes(128 * (q + 1) + r) == More(q) + [r]
    ensures More(128 * (q + 1) + r) == More(q) + [r + 128]
  { }

  /** The numbers that the format's description gives as examples. */
  lemma Examples()
    ensures VarBytes(0) == [0x00] && VarBytes(1) == [0x01] && VarBytes(127) == [0x7F]
    ensures VarBytes(128) == [0x80, 0x00] && VarBytes(255) == [0x80, 0x7F] && VarBytes(256) == [0x81, 0x00]
    ensures VarBytes(16383) == [0xFE, 0x7F] && VarBytes(16384) == [0xFF, 0x00] && VarBytes(16511) == [0xFF, 0x7F]
    ensures VarBytes(65535) == [0x82, 0xFE, 0x7F]
    ensures VarBytes(0x1_0000_0000) == [0x8E, 0xFE, 0xFE, 0xFF, 0x00]
  {
    SmallExamples();
    assert More(2) == [0x82] && More(14) == [0x8E];
    hide More, VarBytes;
    VarStep(2, 0x7E);
    VarStep(510, 0x7F);
    VarStep(14, 0x7E);
    VarStep(2046, 0x7E);
    VarStep(262142, 0x7F);
    VarStep(33554431, 0x00);
  }

  lemma SmallExamples()
    ensures VarBytes(0) == [0x00] && VarBytes(1) == [0x01] && VarBytes(127) == [0x7F]
    ensures VarBytes(128) == [0x80, 0x00] && VarBytes(255) == [0x80, 0x7F] && VarBytes(256) == [0x81, 0x00]
    ensures VarBytes(16383) == [0xFE, 0x7F] && VarBytes(16384) == [0xFF, 0x00] && VarBytes(16511) == [0xFF, 0x7F]
  {
    assert More(0) == [0x80] && More(1) == [0x81] && More(126) == [0xFE] && More(127) == [0xFF];
  }

  /** Only one byte string stands for a number. */
  lemma VarUnique(s: seq<Byte>)
    requires ReadVar(s).Some?
    ensures s == VarBytes(ReadVar(s).value.0) + ReadVar(s).value.1
  {
    ReadOnUnique(s, 0);
    assert [] + s == s;
  }

  /** The groups that came to acc. */
  function Groups(acc: nat): seq<Byte> { if acc == 0 then [] else More(acc - 1) }

  lemma {:induction false} ReadOnUnique(s: seq<Byte>, acc: nat)
    requires ReadOn(s, acc).Some?
    ensures Groups(acc) + s == VarBytes(ReadOn(s, acc).value.0) + ReadOn(s, acc).value.1
  {
    hide More, VarBytes, Groups;
    LastGroup(acc, s[0]);
    assert s == [s[0]] + s[1..];
    assert Groups(acc) + s == Groups(acc) + [s[0]] + s[1..];
    if s[0] >= 0x80 { ReadOnUnique(s[1..], acc * 128 + s[0] % 128 + 1); }
  }

  /** A byte read after groups that came to acc is the last one of its number. */
  lemma LastGroup(acc: nat, ch: Byte)
    ensures Groups(acc) + [ch] ==
      if ch >= 0x80 then Groups(acc * 128 + ch % 128 + 1) else VarBytes(acc * 128 + ch % 128)
  {
    var n := acc * 128 + ch % 128;
    assert n / 128 == acc && n % 128 == ch % 128;
  }

  /** Writes the groups least significant first into a buffer, then the buffer backwards. */
  method WriteVarInt(n: nat, width: nat) returns (os: seq<Byte>)
    requires 7 <= width && n < Pow(2, width)
    ensures os == VarBytes(n)
  {
    hide VarBytes, More, Pow;
    var tmp := new Byte[(width + 6) / 7];
    var len := FillGroups(tmp, n, width);
    os := [];
    ghost var all := VarBytes(n);
    var i := len + 1;
    while i > 0
      invariant 0 <= i <= len + 1 == |all| <= tmp.Length
      invariant forall k :: 0 <= k <= len ==> tmp[k] == all[len - k]
      invariant os == all[..len + 1 - i]
    {
      i := i - 1;
      os := os + [tmp[i]];
    }
    assert all[..len + 1] == all;
  }

  /** The groups of n, last one first; tmp is long enough for any number of its width. */
  method FillGroups(tmp: array<Byte>, n0: nat, width: nat) returns (len: nat)
    requires 7 <= width && n0 < Pow(2, width) && tmp.Length == (width + 6) / 7
    modifies tmp
    ensures len < tmp.Length && |VarBytes(n0)| == len + 1
    ensures forall k :: 0 <= k <= len ==> tmp[k] == VarBytes(n0)[len - k]
  {
    hide VarBytes, More, Pow;
    len := 0;
    var n: nat := n0;
    ghost var done: seq<Byte> := [];
    while n > 0x7F
      invariant 0 <= len < tmp.Length && |done| == len
      invariant forall i :: 0 <= i < len ==> tmp[i] == done[len - 1 - i]
      invariant VarBytes(n0) == (if len == 0 then VarBytes(n) else More(n) + done)
      invariant 0 <= width - 7 * len && n < Pow(2, width - 7 * len)
      decreases n
    {
      GroupsLeft(n, width - 7 * len);
      NextGroup(n, done);
      var g: Byte := n % 128 + (if len > 0 then 0x80 else 0);
      tmp[len] := g;
      done := [g] + done;
      n := n / 128 - 1;
      len := len + 1;
    }
    FirstGroup(n, done);
    tmp[len] := n % 128 + (if len > 0 then 0x80 else 0);
  }

  lemma NextGroup(n: nat, done: seq<Byte>)
    requires n > 0x7F
    ensures VarBytes(n) == More(n / 128 - 1) + [n % 128]
    ensures More(n) + done == More(n / 128 - 1) + ([n % 128 + 0x80] + done)
    ensures [n % 128] + [] == [n % 128]
  {
    assert More(n) == More(n / 128 - 1) + [n % 128 + 0x80];
  }

  lemma FirstGroup(n: nat, done: seq<Byte>)
    requires n <= 0x7F
    ensures n % 128 == n && VarBytes(n) == [n] && More(n) + done == [n + 0x80] + done
  { }

  /** A number with more than seven bits has room for another group. */
  lemma GroupsLeft(n: nat, bits: nat)
    requires n > 0x7F && n < Pow(2, bits)
    ensures bits > 7 && n / 128 - 1 < Pow(2, bits - 7)
  {
    assert Pow(2, 7) == 128 by { assert Pow(2, 4) == 16; PowAdd(2, 4, 3); }
    if bits <= 7 { PowGrows(2, bits, 7); }
    PowAdd(2, 7, bits - 7);
  }

  /** Reads into an unsigned type of the given width, which keeps the value modulo 2^width. */
  method ReadVarInt(s: seq<Byte>, width: nat) returns (ok: bool, n: nat, rest: seq<Byte>)
    requires width >= 7
    ensures ok <==> ReadVar(s).Some?
    ensures ok ==> Pow(2, width) > 0 && n == ReadVar(s).value.0 % Pow(2, width) && rest == ReadVar(s).value.1
  {
    hide Pow, ReadOn, PowOf;
    PowPos(2, width);
    ghost var m := Pow(2, width);
    n, rest := 0, s;
    ghost var exact: nat := 0;
    DivUnique(0, m, 0, 0);
    while rest != []
      invariant n == exact % m && ReadVar(s) == ReadOn(rest, exact)
      decreases |rest|
    {
      var chData := rest[0];
      WrapStep(exact, chData % 128, width);
      ReadOnStep(rest, exact);
      n := n * 128 % PowOf(width) + chData % 128;
      exact := exact * 128 + chData % 128;
      rest := rest[1..];
      if chData >= 0x80 {
        ModAddLeft(exact, 1, m);
        n := (n + 1) % PowOf(width);
        exact := exact + 1;
      } else {
        return true, n, rest;
      }
    }
    ReadOnEnd(exact);
    ok := false;
  }

  lemma ReadOnEnd(acc: nat)
    ensures ReadOn([], acc) == None
  { }

  lemma ReadOnStep(s: seq<Byte>, acc: nat)
    requires s != []
    ensures var n := acc * 128 + s[0] % 128;
      ReadOn(s, acc) == if s[0] >= 0x80 then ReadOn(s[1..], n + 1) else Some((n, s[1..]))
  { }

  /** 2^width, as a value to compute with. */
  function PowOf(width: nat): (r: int)
    ensures r == Pow(2, width) > 0
  {
    PowPos(2, width);
    Pow(2, width)
  }

  /** Shifting by seven bits and putting a group in the room made, on a word of the given width. */
  lemma WrapStep(x: nat, g: nat, width: nat)
    requires width >= 7 && g < 128
    ensures Pow(2, width) > 0 && x % Pow(2, width) * 128 % Pow(2, width) + g == (x * 128 + g) % Pow(2, width)
  {
    PowPos(2, width);
    assert Pow(2, 7) == 128 by { assert Pow(2, 4) == 16; PowAdd(2, 4, 3); }
    PowAdd(2, 7, width - 7);
    PowPos(2, width - 7);
    hide Pow;
    var m := Pow(2, width);
    ModMulLeft(x, 128, m);
    GroupFits(x, g, Pow(2, width - 7));
  }

  lemma GroupFits(x: int, g: int, k: int)
    requires k > 0 && 0 <= g < 128
    ensures x * 128 % (128 * k) + g == (x * 128 + g) % (128 * k)
  {
    ModScale(128, x, k);
    var q, r := x / k, x % k;
    assert x * 128 + g == (128 * k) * q + (128 * r + g);
    DivUnique(x * 128 + g, 128 * k, q, 128 * r + g);
  }

  /** The number of bytes a value takes. */
  method GetSizeOfVarInt(n0: nat) returns (nRet: nat)
    ensures nRet == |VarBytes(n0)|
  {
    nRet := 1;
    var n := n0;
    while n > 0x7F
      invariant n >= 0 && |VarBytes(n0)| == nRet - 1 + (if nRet == 1 then |VarBytes(n)| else |More(n)|)
      invariant nRet >= 1
    {
      n := n / 128 - 1;
      nRet := nRet + 1;
    }
  }
}

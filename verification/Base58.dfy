/** Positional numerals: sequences of digits, most significant first. */
module Numerals {
  import opened Arith

  ghost predicate Below(b: nat, s: seq<nat>) {
    forall i :: 0 <= i < |s| ==> s[i] < b
  }

  /** The number a sequence of digits denotes. */
  function Num(b: nat, s: seq<nat>): nat {
    if s == [] then 0 else Num(b, s[..|s| - 1]) * b + s[|s| - 1]
  }

  /** The digits of a number, without leading zeros. */
  function Digits(b: nat, n: nat): seq<nat>
    requires b >= 2
  {
    if n == 0 then [] else Digits(b, n / b) + [n % b]
  }

  function Zeroes(k: nat): seq<nat> { seq(k, i => 0) }

  lemma {:induction false} DigitsBelow(b: nat, n: nat)
    requires b >= 2
    ensures Below(b, Digits(b, n))
    ensures n > 0 ==> |Digits(b, n)| > 0 && Digits(b, n)[0] != 0
  {
    if n > 0 { DigitsBelow(b, n / b); }
  }

  lemma NumSnoc(b: nat, s: seq<nat>, d: nat)
    ensures Num(b, s + [d]) == Num(b, s) * b + d
  {
    assert (s + [d])[..|s|] == s;
  }

  lemma DigitsStep(b: nat, n: nat) returns (q: nat, r: nat)
    requires b >= 2 && n > 0
    ensures q < n && q * b + r == n && Digits(b, n) == Digits(b, q) + [r]
  {
    q, r := n / b, n % b;
    DivMod(n, b);
    QuotientSmaller(q, b, r, n);
  }

  lemma QuotientSmaller(q: int, b: int, r: int, n: int)
    requires q * b + r == n && b >= 2 && q >= 0 && r >= 0 && n > 0
    ensures q < n
  {
    MulMono(2, b, q);
  }

  lemma {:induction false} NumOfDigits(b: nat, n: nat)
    requires b >= 2
    ensures Num(b, Digits(b, n)) == n
  {
    if n > 0 {
      hide Num, Digits;
      var q, r := DigitsStep(b, n);
      NumOfDigits(b, q);
      NumSnoc(b, Digits(b, q), r);
    }
  }

  lemma DivMod(n: int, b: int)
    requires b > 0
    ensures n / b * b + n % b == n
  { }

  lemma {:induction false} NumConcat(b: nat, s: seq<nat>, t: seq<nat>)
    ensures Num(b, s + t) == Num(b, s) * Pow(b, |t|) + Num(b, t)
  {
    if t == [] {
      assert s + t == s;
    } else {
      var u := t[..|t| - 1];
      NumConcat(b, s, u);
      assert (s + t)[..|s + t| - 1] == s + u;
      ConcatAlgebra(Num(b, s), Pow(b, |u|), Num(b, u), b);
    }
  }

  lemma ConcatAlgebra(x: int, p: int, y: int, b: int)
    ensures (x * p + y) * b == x * (b * p) + y * b
  { }

  lemma {:induction false} NumBound(b: nat, s: seq<nat>)
    requires b >= 2 && Below(b, s)
    ensures Num(b, s) < Pow(b, |s|)
  {
    if s != [] {
      NumBound(b, s[..|s| - 1]);
      OneDigitMore(Num(b, s[..|s| - 1]), Pow(b, |s| - 1), b, s[|s| - 1]);
    }
  }

  lemma OneDigitMore(x: int, p: int, b: int, d: int)
    requires x < p && d < b && 0 < b
    ensures x * b + d < p * b && p * b == b * p
  {
    MulMono(x + 1, p, b);
  }

  lemma {:induction false} NumOfZeroes(b: nat, s: seq<nat>)
    requires forall i :: 0 <= i < |s| ==> s[i] == 0
    ensures Num(b, s) == 0
  {
    if s != [] { NumOfZeroes(b, s[..|s| - 1]); }
  }

  /** Leading zeros do not change the number. */
  lemma NumOfTail(b: nat, s: seq<nat>, k: nat)
    requires k <= |s| && forall i :: 0 <= i < k ==> s[i] == 0
    ensures Num(b, s[k..]) == Num(b, s)
  {
    assert s == s[..k] + s[k..];
    NumConcat(b, s[..k], s[k..]);
    NumOfZeroes(b, s[..k]);
  }

  lemma {:induction false} NumPositive(b: nat, s: seq<nat>)
    requires b >= 2 && s != [] && s[0] != 0
    ensures Num(b, s) > 0
  {
    if |s| > 1 {
      NumPositive(b, s[..|s| - 1]);
      MulMono(1, Num(b, s[..|s| - 1]), b);
    } else {
      assert s[..0] == [];
    }
  }

  /** A numeral without leading zeros is the only one for its number. */
  lemma {:induction false} Canonical(b: nat, s: seq<nat>)
    requires b >= 2 && Below(b, s) && (s == [] || s[0] != 0)
    ensures Digits(b, Num(b, s)) == s
  {
    if s != [] {
      var u := s[..|s| - 1];
      Canonical(b, u);
      NumPositive(b, s);
      DivUnique(Num(b, s), b, Num(b, u), s[|s| - 1]);
      assert s == u + [s[|s| - 1]];
    }
  }

  function ZeroCount(s: seq<nat>): nat {
    if s != [] && s[0] == 0 then 1 + ZeroCount(s[1..]) else 0
  }

  lemma {:induction false} ZeroCountIs(s: seq<nat>)
    ensures ZeroCount(s) <= |s| && forall i :: 0 <= i < ZeroCount(s) ==> s[i] == 0
    ensures ZeroCount(s) < |s| ==> s[ZeroCount(s)] != 0
  {
    if s != [] && s[0] == 0 {
      ZeroCountIs(s[1..]);
      assert s == [0] + s[1..];
    }
  }

  lemma ZeroCountUnique(s: seq<nat>, k: nat)
    requires k <= |s| && (forall i :: 0 <= i < k ==> s[i] == 0) && (k == |s| || s[k] != 0)
    ensures ZeroCount(s) == k
  {
    ZeroCountIs(s);
  }

  /** Zeros in front and the digits of what follows make up the whole. */
  lemma Recompose(b: nat, s: seq<nat>)
    requires b >= 2 && Below(b, s)
    ensures Zeroes(ZeroCount(s)) + Digits(b, Num(b, s)) == s
  {
    hide Num, Digits, ZeroCount;
    ZeroCountIs(s);
    var z := ZeroCount(s);
    NumOfTail(b, s, z);
    Canonical(b, s[z..]);
    assert s[..z] == Zeroes(z);
    assert s == s[..z] + s[z..];
  }

  // ----- Multiplying a numeral in place -----

  /** What the carry has left to do once the digits from k on hold mul * old + ch. */
  ghost predicate Carried(b: nat, mul: nat, ch: nat, old_: seq<nat>, cur: seq<nat>, k: nat, carry: nat) {
    k <= |cur| == |old_| && Below(b, cur) && cur[..k] == old_[..k] &&
    Num(b, cur[k..]) + carry * Pow(b, |cur| - k) == mul * Num(b, old_[k..]) + ch
  }

  lemma CarryStep(b: nat, mul: nat, ch: nat, old_: seq<nat>, cur: seq<nat>, k: nat, carry: nat)
    requires b >= 2 && k < |cur| && Carried(b, mul, ch, old_, cur, k + 1, carry)
    ensures old_[k] == cur[k]
    ensures Carried(b, mul, ch, old_, cur[k := (carry + mul * cur[k]) % b], k, (carry + mul * cur[k]) / b)
  {
    assert old_[..k + 1][k] == cur[..k + 1][k];
    var x := carry + mul * cur[k];
    var next := cur[k := x % b];
    assert next[..k] == cur[..k + 1][..k] == old_[..k];
    assert next[k..] == [x % b] + cur[k + 1..];
    assert old_[k..] == [old_[k]] + old_[k + 1..];
    hide Num;
    var p := Pow(b, |cur| - k - 1);
    NumConcat(b, [x % b], cur[k + 1..]);
    NumConcat(b, [old_[k]], old_[k + 1..]);
    NumOfOne(b, x % b);
    NumOfOne(b, old_[k]);
    StepAlgebra(b, mul, x, p, old_[k], carry, Num(b, cur[k + 1..]), Num(b, old_[k + 1..]), ch);
  }

  lemma NumOfOne(b: nat, d: nat)
    ensures Num(b, [d]) == d
  {
    assert [d][..0] == [];
  }

  lemma StepAlgebra(b: int, mul: int, x: int, p: int, o: int, carry: int, n: int, m: int, ch: int)
    requires b > 0 && x == carry + mul * o && n + carry * p == mul * m + ch
    ensures x % b * p + n + x / b * (b * p) == mul * (o * p + m) + ch
  {
    assert x == b * (x / b) + x % b;
    assert x % b * p + x / b * (b * p) == (b * (x / b) + x % b) * p == x * p;
    assert x * p == carry * p + mul * (o * p);
    assert mul * (o * p + m) == mul * (o * p) + mul * m;
  }

  /** The carry is used up when the result has room, even if digits that were all zero are not visited. */
  lemma CarryEnds(b: nat, mul: nat, ch: nat, old_: seq<nat>, cur: seq<nat>, k: nat, carry: nat)
    requires b >= 2 && Carried(b, mul, ch, old_, cur, k, carry)
    requires forall i :: 0 <= i < k ==> old_[i] == 0
    requires k == 0 || carry == 0
    requires mul * Num(b, old_) + ch < Pow(b, |old_|)
    ensures carry == 0 && Num(b, cur) == mul * Num(b, old_) + ch
  {
    hide Num;
    NumOfTail(b, old_, k);
    forall i | 0 <= i < k ensures cur[i] == 0 { assert cur[i] == cur[..k][i] == old_[..k][i] == old_[i]; }
    NumOfTail(b, cur, k);
    if carry > 0 {
      assert cur[0..] == cur;
      MulMono(1, carry, Pow(b, |cur|));
      assert false;
    }
  }

  // ----- How much room a change of base needs -----

  lemma {:induction false} RootMono(x: int, y: int, e: nat)
    requires 0 < y < x && e > 0
    ensures 0 < Pow(y, e) < Pow(x, e)
  {
    PowPos(y, e);
    if e == 1 {
      assert Pow(x, 1) == x && Pow(y, 1) == y;
    } else {
      RootMono(x, y, e - 1);
      ProductMono(y, x, Pow(y, e - 1), Pow(x, e - 1));
    }
  }

  lemma ProductMono(a: int, b: int, c: int, d: int)
    requires 0 < a <= b && 0 < c <= d && (a < b || c < d)
    ensures a * c < b * d
  {
    MulMono(c, d, a);
    MulMono(a, b, d);
    if a < b { MulMono(a + 1, b, d); } else { MulMono(c + 1, d, a); }
  }

  /** Numbers of n digits in base a have room in n * num / den + 1 digits of base b. */
  lemma Room(a: int, b: int, num: nat, den: nat, n: nat)
    requires a >= 2 && b >= 2 && den > 0 && Pow(a, den) <= Pow(b, num)
    ensures Pow(a, n) <= Pow(b, n * num / den + 1)
  {
    var k := n * num / den + 1;
    PowPos(a, n);
    PowPos(b, k);
    if Pow(a, n) > Pow(b, k) {
      RootMono(Pow(a, n), Pow(b, k), den);
      PowMul(a, n, den);
      PowMul(a, den, n);
      assert n * den == den * n;
      PowPos(a, den);
      PowBaseGrows(Pow(a, den), Pow(b, num), n);
      PowMul(b, num, n);
      PowMul(b, k, den);
      RoundedUp(n, num, den);
      PowGrows(b, num * n, k * den);
      assert false;
    }
  }

  lemma RoundedUp(n: nat, num: nat, den: nat)
    requires den > 0
    ensures num * n <= (n * num / den + 1) * den
  {
    var q := n * num / den;
    assert n * num == den * q + n * num % den;
  }

  lemma Room58Short()
    ensures Pow(58, 71) <= Pow(256, 52)
  {
    assert Pow(58, 7) == 2207984167552;
    PowAdd(58, 7, 7);
    assert Pow(58, 14) == 4875194084160298409672704;
    PowAdd(58, 14, 14);
    PowAdd(58, 28, 7);
    assert Pow(58, 35) == 52478302028992644968172978478148648556151605660894866578604032;
    PowAdd(58, 35, 35);
    assert Pow(58, 71) == 58 * Pow(58, 70);
    assert Pow(256, 13) == 20282409603651670423947251286016;
    PowAdd(256, 13, 13);
    PowAdd(256, 26, 26);
  }

  lemma Room58()
    ensures Pow(58, 1000) <= Pow(256, 733)
  {
    Room58Short();
    assert Pow(58, 6) <= Pow(256, 5);
    PowMul(58, 71, 14);
    PowPos(58, 71);
    PowBaseGrows(Pow(58, 71), Pow(256, 52), 14);
    PowMul(256, 52, 14);
    PowAdd(58, 994, 6);
    PowAdd(256, 728, 5);
    PowPos(58, 6);
    PowPos(58, 994);
    MulMono(Pow(58, 994), Pow(256, 728), Pow(58, 6));
    PowPos(256, 728);
    MulMono(Pow(58, 6), Pow(256, 5), Pow(256, 728));
  }

  lemma Room256()
    ensures Pow(256, 100) <= Pow(58, 138)
  {
    assert Pow(256, 8) <= Pow(58, 11);
    assert Pow(256, 4) <= Pow(58, 6);
    PowMul(256, 8, 12);
    PowPos(256, 8);
    PowBaseGrows(Pow(256, 8), Pow(58, 11), 12);
    PowMul(58, 11, 12);
    PowAdd(256, 96, 4);
    PowAdd(58, 132, 6);
    PowPos(256, 4);
    PowPos(58, 132);
    MulMono(Pow(256, 96), Pow(58, 132), Pow(256, 4));
    MulMono(Pow(256, 4), Pow(58, 6), Pow(58, 132));
  }
}

/** Base58: byte strings as text, each leading zero byte a leading '1', the rest a number in base 58. */
module Base58 {
  import opened Arith
  import opened Numerals

  /** The digit i: letters and numerals in ASCII order, without '0', 'I', 'O' and 'l'. */
  function CharAt(i: nat): char
    requires i < 58
  {
    if i < 9 then '1' + i as char
    else if i < 17 then 'A' + (i - 9) as char
    else if i < 22 then 'J' + (i - 17) as char
    else if i < 33 then 'P' + (i - 22) as char
    else if i < 44 then 'a' + (i - 33) as char
    else 'm' + (i - 44) as char
  }

  /** The digits rise as characters do. With CharOfDigit, which says what the digits are, this leaves only one order,
      and it is that of the alphabet. */
  lemma Alphabet(i: nat, j: nat)
    requires i < j < 58
    ensures CharAt(i) < CharAt(j)
  { }

  /** The value of a digit, or -1 for a character that is none. */
  function DigitOf(c: char): int {
    if '1' <= c <= '9' then (c - '1') as int
    else if 'A' <= c <= 'H' then 9 + (c - 'A') as int
    else if 'J' <= c <= 'N' then 17 + (c - 'J') as int
    else if 'P' <= c <= 'Z' then 22 + (c - 'P') as int
    else if 'a' <= c <= 'k' then 33 + (c - 'a') as int
    else if 'm' <= c <= 'z' then 44 + (c - 'm') as int
    else -1
  }

  predicate IsSpace(c: char) {
    c == ' ' || c == '\t' || c == '\n' || c == '\U{0B}' || c == '\U{0C}' || c == '\r'
  }

  /** White space is the space and the characters 9 to 13. */
  lemma SpaceIs(c: char)
    ensures IsSpace(c) <==> c as int == 32 || 9 <= c as int <= 13
  { }

  lemma DigitOfChar(i: nat)
    requires i < 58
    ensures DigitOf(CharAt(i)) == i && !IsSpace(CharAt(i)) && CharAt(i) != '\0'
    ensures CharAt(i) == '1' <==> i == 0
  { }

  lemma CharOfDigit(c: char)
    ensures DigitOf(c) >= 0 ==> DigitOf(c) < 58 && CharAt(DigitOf(c)) == c
    ensures DigitOf(c) >= 0 <==>
      ('0' <= c <= '9' || 'A' <= c <= 'Z' || 'a' <= c <= 'z') && c !in {'0', 'I', 'O', 'l'}
  { }

  /** The place of a character among the digits, found by trying them in turn. */
  method StrChr(c: char) returns (d: int)
    ensures d == DigitOf(c)
  {
    d := 0;
    CharOfDigit(c);
    while d < 58 && CharAt(d) != c
      invariant 0 <= d <= 58 && (DigitOf(c) < 0 || d <= DigitOf(c))
    {
      d := d + 1;
    }
    if d == 58 { return -1; }
    DigitOfChar(d);
  }

  // ----- Text for a byte string -----

  function Chars(d: seq<nat>): string {
    if d == [] then "" else [if d[0] < 58 then CharAt(d[0]) else '?'] + Chars(d[1..])
  }

  function Ones(k: nat): string { seq(k, i => '1') }

  /** The text of a byte string. */
  function Text(v: seq<nat>): string { Ones(ZeroCount(v)) + Chars(Digits(58, Num(256, v))) }

  /** Texts of a few bytes: "a", "bbb", and a zero byte before "a". */
  lemma TextExamples()
    ensures Text([0x61]) == "2g" && Text([0x62, 0x62, 0x62]) == "a3gV" && Text([0, 0x61]) == "12g"
  {
    NumExamples();
    DigitExamples();
    hide Digits, Num;
    CharExamples();
    assert ZeroCount([0x61]) == 0 && ZeroCount([0x62, 0x62, 0x62]) == 0;
    assert [0, 0x61][1..] == [0x61] && ZeroCount([0, 0x61]) == 1;
    hide Chars, ZeroCount;
    assert Ones(0) == "" && Ones(1) == "1";
    assert "" + "2g" == "2g" && "" + "a3gV" == "a3gV" && "1" + "2g" == "12g";
  }

  lemma NumExamples()
    ensures Num(256, [0x61]) == 97 && Num(256, [0, 0x61]) == 97 && Num(256, [0x62, 0x62, 0x62]) == 6447714
  {
    assert [0x62, 0x62, 0x62][..2] == [0x62, 0x62] && [0x62, 0x62][..1] == [0x62] && [0, 0x61][..1] == [0];
    assert [0x61][..0] == [] && [0x62][..0] == [] && [0][..0] == [];
    assert Num(256, [0x62, 0x62]) == 25186;
  }

  lemma DigitExamples()
    ensures Digits(58, 97) == [1, 39] && Digits(58, 6447714) == [33, 2, 39, 28]
  {
    assert Digits(58, 1) == [1];
    assert Digits(58, 33) == [33];
    assert Digits(58, 1916) == [33, 2];
    assert Digits(58, 111167) == [33, 2, 39];
  }

  lemma CharExamples()
    ensures Chars([1, 39]) == "2g" && Chars([33, 2, 39, 28]) == "a3gV"
  {
    assert [1, 39][1..] == [39] && [33, 2, 39, 28][1..] == [2, 39, 28];
    assert [2, 39, 28][1..] == [39, 28] && [39, 28][1..] == [28];
    assert CharAt(1) == '2' && CharAt(39) == 'g' && CharAt(33) == 'a' && CharAt(2) == '3' && CharAt(28) == 'V';
    hide CharAt;
    assert Chars([28]) == "V";
    assert Chars([39, 28]) == "gV";
  }

  lemma {:induction false} CharsAt(d: seq<nat>, i: nat)
    requires Below(58, d) && i < |d|
    ensures |Chars(d)| == |d| && Chars(d)[i] == CharAt(d[i])
  {
    if |d| > 1 { CharsAt(d[1..], if i > 0 then i - 1 else 0); }
  }

  lemma TextLength(v: seq<nat>)
    ensures |Text(v)| == ZeroCount(v) + |Digits(58, Num(256, v))|
  {
    DigitsBelow(58, Num(256, v));
    if Num(256, v) > 0 { CharsAt(Digits(58, Num(256, v)), 0); }
  }

  /** A text has nothing but digits in it. */
  lemma TextAt(v: seq<nat>, i: nat)
    requires i < |Text(v)|
    ensures DigitOf(Text(v)[i]) >= 0 && !IsSpace(Text(v)[i]) && Text(v)[i] != '\0'
    ensures i < ZeroCount(v) ==> Text(v)[i] == '1'
    ensures i == ZeroCount(v) ==> Text(v)[i] != '1'
    ensures i >= ZeroCount(v) ==> Text(v)[i] == Chars(Digits(58, Num(256, v)))[i - ZeroCount(v)]
  {
    hide Num, ZeroCount, Chars, CharAt, DigitOf, IsSpace;
    var z, d := ZeroCount(v), Digits(58, Num(256, v));
    TextLength(v);
    DigitsBelow(58, Num(256, v));
    DigitOfChar(0);
    if i >= z {
      CharsAt(d, i - z);
      DigitOfChar(d[i - z]);
    }
  }

  /** Different byte strings have different texts. */
  lemma TextInjective(v: seq<nat>, w: seq<nat>)
    requires Below(256, v) && Below(256, w) && Text(v) == Text(w)
    ensures v == w
  {
    SameZeroes(v, w);
    SameZeroes(w, v);
    var z, d, e := ZeroCount(v), Digits(58, Num(256, v)), Digits(58, Num(256, w));
    TextLength(v);
    TextLength(w);
    DigitsBelow(58, Num(256, v));
    DigitsBelow(58, Num(256, w));
    forall i | 0 <= i < |d| ensures d[i] == e[i] {
      TextAt(v, z + i);
      TextAt(w, z + i);
      CharsAt(d, i);
      CharsAt(e, i);
      DigitOfChar(d[i]);
      DigitOfChar(e[i]);
    }
    NumOfDigits(58, Num(256, v));
    NumOfDigits(58, Num(256, w));
    assert d == e;
    Recompose(256, v);
    Recompose(256, w);
  }

  lemma SameZeroes(v: seq<nat>, w: seq<nat>)
    requires Text(v) == Text(w)
    ensures ZeroCount(v) <= ZeroCount(w)
  {
    TextLength(v);
    TextLength(w);
    if ZeroCount(w) < ZeroCount(v) {
      TextAt(v, ZeroCount(w));
      TextAt(w, ZeroCount(w));
    }
  }

  // ----- Texts within white space -----

  ghost predicate AllSpace(s: string) { forall i :: 0 <= i < |s| ==> IsSpace(s[i]) }

  ghost predicate At(t: string, w: string, i: nat) {
    i + |w| <= |t| && AllSpace(t[..i]) && t[i..i + |w|] == w && AllSpace(t[i + |w|..])
  }

  /** t is w with nothing but white space around it. */
  ghost predicate Surrounds(t: string, w: string) { exists i: nat :: At(t, w, i) }

  /** Whatever is not white space lies within the word. */
  lemma Inside(t: string, w: string, i: nat, k: nat)
    requires At(t, w, i) && k < |t| && !IsSpace(t[k])
    ensures i <= k < i + |w| && t[k] == w[k - i]
  {
    assert forall j :: 0 <= j < i ==> t[..i][j] == t[j];
    assert forall j :: i + |w| <= j < |t| ==> t[i + |w|..][j - i - |w|] == t[j];
    assert t[i..i + |w|][k - i] == t[k];
  }

  /** A string surrounds the text of no more than one byte string. */
  lemma SurroundsOne(t: string, v: seq<nat>, w: seq<nat>)
    requires Below(256, v) && Below(256, w)
    requires Surrounds(t, Text(v)) && Surrounds(t, Text(w))
    ensures v == w
  {
    var i: nat :| At(t, Text(v), i);
    var j: nat :| At(t, Text(w), j);
    if |Text(v)| > 0 {
      SameSpan(t, v, w, i, j);
      SameSpan(t, w, v, j, i);
    } else if |Text(w)| > 0 {
      SameSpan(t, w, v, j, i);
    }
    assert Text(v) == Text(w);
    TextInjective(v, w);
  }

  lemma SameSpan(t: string, v: seq<nat>, w: seq<nat>, i: nat, j: nat)
    requires At(t, Text(v), i) && At(t, Text(w), j) && |Text(v)| > 0
    ensures j <= i && i + |Text(v)| <= j + |Text(w)|
  {
    var x := Text(v);
    var l := |x| - 1;
    TextAt(v, 0);
    TextAt(v, l);
    assert t[i..i + |x|][0] == t[i] && t[i..i + |x|][l] == t[i + l];
    Inside(t, Text(w), j, i);
    Inside(t, Text(w), j, i + l);
  }

  // ----- Encoding -----

  /** b58 = b58 * 256 + ch, visiting only the digits in use. */
  method AppendByte(b58: array<nat>, ch: nat, length: nat) returns (newLength: nat)
    requires Below(58, b58[..]) && ch < 256 && length <= b58.Length
    requires forall k :: 0 <= k < b58.Length - length ==> b58[k] == 0
    requires 256 * Num(58, b58[..]) + ch < Pow(58, b58.Length)
    modifies b58
    ensures Below(58, b58[..]) && newLength <= b58.Length
    ensures forall k :: 0 <= k < b58.Length - newLength ==> b58[k] == 0
    ensures Num(58, b58[..]) == 256 * old(Num(58, b58[..])) + ch
  {
    hide Num, Pow;
    ghost var x := b58[..];
    var carry := ch;
    var i := 0;
    CarryStart(58, 256, ch, x);
    while (carry != 0 || i < length) && i < b58.Length
      invariant 0 <= i <= b58.Length && 0 <= carry
      invariant Carried(58, 256, ch, x, b58[..], b58.Length - i, carry)
      decreases b58.Length - i
    {
      var k := b58.Length - 1 - i;
      CarryStep(58, 256, ch, x, b58[..], k, carry);
      carry := carry + 256 * b58[k];
      ghost var before := b58[..];
      b58[k] := carry % 58;
      assert b58[..] == before[k := carry % 58];
      carry := carry / 58;
      i := i + 1;
    }
    Untouched(x, b58[..], b58.Length - i);
    CarryEnds(58, 256, ch, x, b58[..], b58.Length - i, carry);
    assert carry == 0;
    newLength := i;
  }

  lemma CarryStart(b: nat, mul: nat, ch: nat, x: seq<nat>)
    requires Below(b, x)
    ensures Carried(b, mul, ch, x, x, |x|, ch)
  {
    assert x[|x|..] == [];
  }

  lemma Untouched(x: seq<nat>, cur: seq<nat>, k: nat)
    requires k <= |cur| == |x| && cur[..k] == x[..k]
    ensures forall i :: 0 <= i < k ==> cur[i] == x[i]
  {
    forall i | 0 <= i < k ensures cur[i] == x[i] { assert cur[i] == cur[..k][i] == x[..k][i]; }
  }

  method EncodeBase58(v: seq<nat>) returns (str: string)
    requires Below(256, v)
    ensures str == Text(v)
  {
    hide Num, Pow, Digits;
    var zeroes := 0;
    while zeroes < |v| && v[zeroes] == 0
      invariant 0 <= zeroes <= |v| && forall i :: 0 <= i < zeroes ==> v[i] == 0
    {
      zeroes := zeroes + 1;
    }
    ZeroCountUnique(v, zeroes);
    var size := (|v| - zeroes) * 138 / 100 + 1;
    Room256();
    Room(256, 58, 138, 100, |v| - zeroes);
    var b58 := new nat[size](i => 0);
    var length := 0;
    ghost var s := v[zeroes..];
    NumOfZeroes(58, b58[..]);
    NumOfZeroes(256, s[..0]);
    var p := 0;
    while p < |v| - zeroes
      invariant 0 <= p <= |s| && 0 <= length <= size
      invariant Below(58, b58[..]) && Num(58, b58[..]) == Num(256, s[..p])
      invariant forall k :: 0 <= k < size - length ==> b58[k] == 0
    {
      NextDigit(256, s, p, size, 58);
      length := AppendByte(b58, v[zeroes + p], length);
      p := p + 1;
    }
    assert s[..p] == s;
    NumOfTail(256, v, zeroes);
    var it := size - length;
    while it < size && b58[it] == 0
      invariant size - length <= it <= size && forall k :: 0 <= k < it ==> b58[k] == 0
    {
      it := it + 1;
    }
    ghost var d := b58[it..];
    assert d == b58[..][it..];
    NumOfTail(58, b58[..], it);
    Canonical(58, d);
    str := Spell(b58, it, zeroes);
  }

  /** The ones for leading zero bytes, and the characters of the digits from a place on. */
  method Spell(b58: array<nat>, start: nat, zeroes: nat) returns (str: string)
    requires start <= b58.Length && Below(58, b58[..])
    ensures str == Ones(zeroes) + Chars(b58[start..])
  {
    str := seq(zeroes, i => '1');
    var it := start;
    assert str == Ones(zeroes) + Chars(b58[start..it]);
    while it < b58.Length
      invariant start <= it <= b58.Length
      invariant str == Ones(zeroes) + Chars(b58[start..it])
    {
      CharsSnoc(b58[start..it], b58[it]);
      assert b58[start..it + 1] == b58[start..it] + [b58[it]];
      str := str + [CharAt(b58[it])];
      it := it + 1;
    }
    assert b58[start..b58.Length] == b58[start..];
  }

  lemma {:induction false} CharsSnoc(d: seq<nat>, x: nat)
    requires x < 58
    ensures Chars(d + [x]) == Chars(d) + [CharAt(x)]
  {
    if d != [] {
      CharsSnoc(d[1..], x);
      assert (d + [x])[1..] == d[1..] + [x];
    }
  }

  /** One digit more still fits the room set aside for all of them. */
  lemma NextDigit(b: nat, s: seq<nat>, p: nat, size: nat, b': nat)
    requires b >= 2 && Below(b, s) && p < |s| && Pow(b, |s|) <= Pow(b', size)
    ensures Num(b, s[..p + 1]) == b * Num(b, s[..p]) + s[p] < Pow(b', size)
  {
    assert s[..p + 1][..p] == s[..p];
    NumBound(b, s[..p + 1]);
    PowGrows(b, p + 1, |s|);
  }

  // ----- Decoding -----

  /** No byte string has a text that t surrounds. */
  ghost predicate IsNoText(t: string) { forall v: seq<nat> :: !Surrounds(t, Text(v)) }

  lemma StrayCharacter(t: string, k: nat)
    requires k < |t| && !IsSpace(t[k]) && DigitOf(t[k]) < 0
    ensures IsNoText(t)
  {
    hide Text, IsSpace, DigitOf;
    forall v: seq<nat> | Surrounds(t, Text(v)) ensures false {
      var i: nat :| At(t, Text(v), i);
      Inside(t, Text(v), i, k);
      TextAt(v, k - i);
    }
  }

  lemma TwoWords(t: string, a: nat, b: nat, c: nat)
    requires a < b < c < |t| && !IsSpace(t[a]) && IsSpace(t[b]) && !IsSpace(t[c])
    ensures IsNoText(t)
  {
    hide Text, IsSpace, DigitOf;
    forall v: seq<nat> | Surrounds(t, Text(v)) ensures false {
      var i: nat :| At(t, Text(v), i);
      Inside(t, Text(v), i, a);
      Inside(t, Text(v), i, c);
      TextAt(v, b - i);
    }
  }

  /** b256 = b256 * 58 + ch. */
  method AppendDigit(b256: array<nat>, ch: nat)
    requires Below(256, b256[..]) && ch < 58
    requires 58 * Num(256, b256[..]) + ch < Pow(256, b256.Length)
    modifies b256
    ensures Below(256, b256[..]) && Num(256, b256[..]) == 58 * old(Num(256, b256[..])) + ch
  {
    hide Num, Pow;
    ghost var x := b256[..];
    var carry := ch;
    CarryStart(256, 58, ch, x);
    var i := b256.Length;
    while i > 0
      invariant 0 <= i <= b256.Length && 0 <= carry
      invariant Carried(256, 58, ch, x, b256[..], i, carry)
    {
      i := i - 1;
      CarryStep(256, 58, ch, x, b256[..], i, carry);
      carry := carry + 58 * b256[i];
      ghost var before := b256[..];
      b256[i] := carry % 256;
      assert b256[..] == before[i := carry % 256];
      carry := carry / 256;
    }
    CarryEnds(256, 58, ch, x, b256[..], 0, carry);
    assert carry == 0;
  }

  /** The number in base 256 that the digits from p up to the next white space write in base 58; stops
      at the first character that is no digit. */
  method ReadDigits(t: string, p: nat) returns (q: nat, b256: array<nat>, ghost d: seq<nat>)
    requires p <= |t|
    ensures p <= q <= |t| && fresh(b256) && Below(58, d) && Chars(d) == t[p..q]
    ensures forall k :: p <= k < q ==> !IsSpace(t[k])
    ensures q < |t| && !IsSpace(t[q]) ==> DigitOf(t[q]) < 0
    ensures Below(256, b256[..]) && Num(256, b256[..]) == Num(58, d)
  {
    hide Num, Pow, Chars, DigitOf, CharAt;
    Room58();
    Room(58, 256, 733, 1000, |t| - p);
    b256 := new nat[(|t| - p) * 733 / 1000 + 1](i => 0);
    d := [];
    NumOfZeroes(256, b256[..]);
    NumOfZeroes(58, d);
    EmptyChars();
    q := p;
    while q < |t| && !IsSpace(t[q])
      invariant p <= q <= |t| && |d| == q - p && Below(58, d) && Chars(d) == t[p..q]
      invariant forall k :: p <= k < q ==> !IsSpace(t[k])
      invariant Below(256, b256[..]) && Num(256, b256[..]) == Num(58, d)
      invariant fresh(b256)
    {
      var ch := StrChr(t[q]);
      if ch < 0 { return; }
      CharOfDigit(t[q]);
      CharsSnoc(d, ch);
      d := d + [ch];
      DigitFits(d, |t| - p, b256.Length);
      AppendDigit(b256, ch);
      q := q + 1;
      assert t[p..q] == t[p..q - 1] + [t[q - 1]];
    }
  }

  lemma EmptyChars()
    ensures Chars([]) == ""
  { }

  lemma DigitFits(d: seq<nat>, n: nat, size: nat)
    requires Below(58, d) && 0 < |d| <= n && Pow(58, n) <= Pow(256, size)
    ensures Num(58, d) == 58 * Num(58, d[..|d| - 1]) + d[|d| - 1] < Pow(256, size)
  {
    NumBound(58, d);
    PowGrows(58, |d|, n);
  }

  /** The bytes whose text t is, but for white space around it; fails if there are none. */
  method DecodeBase58(t: string) returns (ok: bool, vch: seq<nat>)
    ensures ok ==> Below(256, vch) && Surrounds(t, Text(vch))
    ensures !ok ==> IsNoText(t)
  {
    hide Num, Pow, Chars, Text, IsNoText, Surrounds, DigitOf;
    vch := [];
    var first := 0;
    while first < |t| && IsSpace(t[first])
      invariant 0 <= first <= |t| && forall k :: 0 <= k < first ==> IsSpace(t[k])
    {
      first := first + 1;
    }
    var p := first;
    while p < |t| && t[p] == '1'
      invariant first <= p <= |t| && forall k :: first <= k < p ==> t[k] == '1'
    {
      p := p + 1;
    }
    var zeroes := p - first;
    var q, b256;
    ghost var d;
    q, b256, d := ReadDigits(t, p);
    if q < |t| && !IsSpace(t[q]) {
      StrayCharacter(t, q);
      return false, [];
    }
    var end := q;
    while end < |t| && IsSpace(t[end])
      invariant q <= end <= |t| && forall k :: q <= k < end ==> IsSpace(t[k])
    {
      end := end + 1;
    }
    if end < |t| {
      TwoWords(t, first, q, end);
      return false, [];
    }
    var it := 0;
    while it < b256.Length && b256[it] == 0
      invariant 0 <= it <= b256.Length && forall k :: 0 <= k < it ==> b256[k] == 0
    {
      it := it + 1;
    }
    vch := seq(zeroes, i => 0) + b256[it..];
    ok := true;
    Read(t, first, p, q, d, b256[..], it);
  }

  lemma Read(t: string, first: nat, p: nat, q: nat, d: seq<nat>, b: seq<nat>, it: nat)
    requires first <= p <= q <= |t| && it <= |b|
    requires forall k :: 0 <= k < first ==> IsSpace(t[k])
    requires forall k :: first <= k < p ==> t[k] == '1'
    requires p < |t| ==> t[p] != '1'
    requires forall k :: q <= k < |t| ==> IsSpace(t[k])
    requires Below(58, d) && Chars(d) == t[p..q] && Below(256, b) && Num(256, b) == Num(58, d)
    requires forall k :: 0 <= k < it ==> b[k] == 0
    requires it < |b| ==> b[it] != 0
    ensures Below(256, Zeroes(p - first) + b[it..]) && Surrounds(t, Text(Zeroes(p - first) + b[it..]))
  {
    hide Num, Pow, Chars, Digits, ZeroCount;
    var v := Zeroes(p - first) + b[it..];
    ZeroCountUnique(v, p - first);
    NumOfTail(256, b, it);
    assert v[p - first..] == b[it..];
    NumOfTail(256, v, p - first);
    FirstDigit(t, p, q, d);
    Canonical(58, d);
    assert t[first..p] == Ones(p - first);
    assert t[first..q] == t[first..p] + t[p..q];
    assert Text(v) == t[first..q];
    assert At(t, Text(v), first);
  }

  lemma FirstDigit(t: string, p: nat, q: nat, d: seq<nat>)
    requires p <= q <= |t| && (p < |t| ==> t[p] != '1') && Below(58, d) && Chars(d) == t[p..q]
    ensures d == [] || d[0] != 0
  {
    if d != [] {
      CharsAt(d, 0);
      DigitOfChar(d[0]);
      assert t[p..q][0] == t[p];
    }
  }

  // ----- Round trips -----

  lemma SurroundsItself(w: string)
    ensures Surrounds(w, w)
  {
    assert w[..0] == "" && w[|w|..] == "" && w[0..|w|] == w;
    assert At(w, w, 0);
  }

  /** Decoding undoes encoding. */
  method EncodeThenDecode(v: seq<nat>) returns (ok: bool, r: seq<nat>)
    requires Below(256, v)
    ensures ok && r == v
  {
    hide Text, Surrounds;
    var str := EncodeBase58(v);
    ok, r := DecodeBase58(str);
    SurroundsItself(str);
    if ok { SurroundsOne(str, v, r); }
  }

  ghost predicate NoSpace(w: string) { forall i :: 0 <= i < |w| ==> !IsSpace(w[i]) }

  /** w is t without the white space around it, and nothing else is left out. */
  ghost predicate Strips(t: string, w: string) { Surrounds(t, w) && NoSpace(w) }

  lemma WordsSpan(t: string, w: string, w': string, i: nat, j: nat)
    requires At(t, w, i) && At(t, w', j) && NoSpace(w) && |w| > 0
    ensures j <= i && i + |w| <= j + |w'|
  {
    hide IsSpace;
    var l := |w| - 1;
    assert t[i..i + |w|][0] == t[i] && t[i..i + |w|][l] == t[i + l];
    Inside(t, w', j, i);
    Inside(t, w', j, i + l);
  }

  /** There is only one way to strip a string. */
  lemma StripsOne(t: string, w: string, w': string)
    requires Strips(t, w) && Strips(t, w')
    ensures w == w'
  {
    hide IsSpace;
    var i: nat :| At(t, w, i);
    var j: nat :| At(t, w', j);
    if |w| > 0 { WordsSpan(t, w, w', i, j); }
    if |w'| > 0 { WordsSpan(t, w', w, j, i); }
  }

  /** Encoding what was decoded gives the string back, without the white space around it; a string that has
      none comes back as it is. */
  method DecodeThenEncode(t: string) returns (ok: bool, str: string)
    ensures ok ==> Strips(t, str)
    ensures ok && NoSpace(t) ==> str == t
    ensures ok <==> exists v: seq<nat> :: Below(256, v) && Surrounds(t, Text(v))
  {
    hide Text, Surrounds, IsSpace;
    str := "";
    var v;
    ok, v := DecodeBase58(t);
    if ok {
      str := EncodeBase58(v);
      forall i | 0 <= i < |str| ensures !IsSpace(str[i]) { TextAt(v, i); }
      SurroundsItself(t);
      if NoSpace(t) { StripsOne(t, str, t); }
    }
  }

  // ----- With a checksum -----

  type Hash = h: seq<nat> -> seq<nat> | forall s :: |h(s)| == 32 && Below(256, h(s))
    witness s => seq(32, i => 0)

  /** A byte string followed by four bytes of its hash. */
  function Checked(h: Hash, v: seq<nat>): seq<nat> { v + h(v)[..4] }

  method EncodeBase58Check(h: Hash, v: seq<nat>) returns (str: string)
    requires Below(256, v)
    ensures str == Text(v + h(v)[..4])
  {
    str := EncodeBase58(v + h(v)[..4]);
  }

  /** Succeeds exactly on the text of a byte string with the right checksum, but for white space. */
  method DecodeBase58Check(h: Hash, t: string) returns (ok: bool, vch: seq<nat>)
    ensures ok ==> Below(256, vch) && Surrounds(t, Text(vch + h(vch)[..4]))
    ensures !ok ==> vch == [] && forall v :: Below(256, v) ==> !Surrounds(t, Text(Checked(h, v)))
  {
    hide Text, Surrounds;
    ok, vch := DecodeBase58(t);
    if !ok || |vch| < 4 {
      forall v | Below(256, v) ensures !Surrounds(t, Text(Checked(h, v))) {
        CheckedFits(h, v);
        if ok && Surrounds(t, Text(Checked(h, v))) { SurroundsOne(t, vch, Checked(h, v)); }
      }
      return false, [];
    }
    var n := |vch| - 4;
    var hash := h(vch[..n]);
    if hash[..4] != vch[n..] {
      forall v | Below(256, v) ensures !Surrounds(t, Text(Checked(h, v))) {
        CheckedFits(h, v);
        if Surrounds(t, Text(Checked(h, v))) { SurroundsOne(t, vch, Checked(h, v)); }
      }
      return false, [];
    }
    assert vch == Checked(h, vch[..n]);
    vch := vch[..n];
  }

  lemma CheckedFits(h: Hash, v: seq<nat>)
    requires Below(256, v)
    ensures Below(256, Checked(h, v)) && |Checked(h, v)| >= 4
    ensures Checked(h, v)[..|Checked(h, v)| - 4] == v && Checked(h, v)[|Checked(h, v)| - 4..] == h(v)[..4]
  { }

  /** Decoding undoes encoding with a checksum too, whatever the hash. */
  method EncodeThenDecodeCheck(h: Hash, v: seq<nat>) returns (ok: bool, r: seq<nat>)
    requires Below(256, v)
    ensures ok && r == v
  {
    hide Text, Surrounds;
    var str := EncodeBase58Check(h, v);
    ok, r := DecodeBase58Check(h, str);
    SurroundsItself(str);
    CheckedFits(h, v);
    if ok {
      CheckedFits(h, r);
      SurroundsOne(str, Checked(h, r), Checked(h, v));
    }
  }

  /** The other overload reads a string up to its first NUL. */
  method DecodeStdString(t: string) returns (ok: bool, vch: seq<nat>)
    ensures exists n: nat ::
      CStr(t, n) && (ok ==> Below(256, vch) && Surrounds(t[..n], Text(vch))) && (!ok ==> IsNoText(t[..n]))
  {
    hide Text, Surrounds, IsNoText;
    var n := 0;
    while n < |t| && t[n] != '\0'
      invariant 0 <= n <= |t| && forall k :: 0 <= k < n ==> t[k] != '\0'
    {
      n := n + 1;
    }
    ok, vch := DecodeBase58(t[..n]);
    assert CStr(t, n);
  }

  ghost predicate CStr(t: string, n: nat) {
    n <= |t| && (forall k :: 0 <= k < n ==> t[k] != '\0') && (n < |t| ==> t[n] == '\0')
  }
}

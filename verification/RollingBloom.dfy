/** The rolling bloom filter: two bit planes hold, for each position, one of three cyclic generation labels;
    starting a generation wipes the label it reuses. */
module RollingBloom {
  import opened Arith

  type Key = seq<bv8>

  /** A position of the filter: a pair of words and a bit in them. */
  datatype Pos = Pos(j: nat, b: bv64)

  // ---------- bits ----------

  function GetBit(x: bv64, b: bv64): bv64
    requires b < 64
  {
    (x >> b) & 1
  }

  /** The label in two bits, low plane first; 0 means unset. */
  function Label(p1: bv64, p2: bv64, b: bv64): int
    requires b < 64
  {
    FromBits(GetBit(p1, b), GetBit(p2, b))
  }

  /** 0 or 1 as a word. */
  function Low(g: int): bv64 { if g % 2 == 1 then 1 else 0 }
  function High(g: int): bv64 { if g / 2 == 1 then 1 else 0 }

  /** The word with bit `b` set to `v`. */
  function Mark(x: bv64, b: bv64, v: bv64): bv64
    requires b < 64
  {
    (x & !((1 as bv64) << b)) | (v << b)
  }

  lemma MarkBit(x: bv64, b: bv64, v: bv64, c: bv64)
    requires b < 64 && c < 64 && v <= 1
    ensures GetBit(Mark(x, b, v), c) == if c == b then v else GetBit(x, c)
  {
    hide GetBit;
    SetBit(x, b, v, c);
  }

  lemma SetBit(x: bv64, b: bv64, v: bv64, c: bv64)
    requires b < 64 && c < 64 && v <= 1
    ensures GetBit((x & !((1 as bv64) << b)) | (v << b), c) == if c == b then v else GetBit(x, c)
  { }

  /** The two planes after the wipe of label (g1, g2). */
  function WipeLow(p1: bv64, p2: bv64, g1: bv64, g2: bv64): bv64 { p1 & ((p1 ^ (0 - g1)) | (p2 ^ (0 - g2))) }
  function WipeHigh(p1: bv64, p2: bv64, g1: bv64, g2: bv64): bv64 { p2 & ((p1 ^ (0 - g1)) | (p2 ^ (0 - g2))) }

  lemma WipePlane1(p1: bv64, p2: bv64, g1: bv64, g2: bv64, b: bv64)
    requires b < 64 && g1 <= 1 && g2 <= 1
    ensures GetBit(p1 & ((p1 ^ (0 - g1)) | (p2 ^ (0 - g2))), b) ==
            if GetBit(p1, b) == g1 && GetBit(p2, b) == g2 then 0 else GetBit(p1, b)
  { }

  lemma WipePlane2(p1: bv64, p2: bv64, g1: bv64, g2: bv64, b: bv64)
    requires b < 64 && g1 <= 1 && g2 <= 1
    ensures GetBit(p2 & ((p1 ^ (0 - g1)) | (p2 ^ (0 - g2))), b) ==
            if GetBit(p1, b) == g1 && GetBit(p2, b) == g2 then 0 else GetBit(p2, b)
  { }

  lemma WipeLowBit(p1: bv64, p2: bv64, g1: bv64, g2: bv64, b: bv64)
    requires b < 64 && g1 <= 1 && g2 <= 1
    ensures GetBit(WipeLow(p1, p2, g1, g2), b) ==
      if GetBit(p1, b) == g1 && GetBit(p2, b) == g2 then 0 else GetBit(p1, b)
  {
    hide GetBit;
    WipePlane1(p1, p2, g1, g2, b);
  }

  lemma WipeHighBit(p1: bv64, p2: bv64, g1: bv64, g2: bv64, b: bv64)
    requires b < 64 && g1 <= 1 && g2 <= 1
    ensures GetBit(WipeHigh(p1, p2, g1, g2), b) ==
      if GetBit(p1, b) == g1 && GetBit(p2, b) == g2 then 0 else GetBit(p2, b)
  {
    hide GetBit;
    WipePlane2(p1, p2, g1, g2, b);
  }

  lemma BitIsBit(x: bv64, b: bv64)
    requires b < 64
    ensures GetBit(x, b) == 0 || GetBit(x, b) == 1
  { }

  lemma ContainsBit(p1: bv64, p2: bv64, b: bv64)
    requires b < 64
    ensures ((p1 | p2) >> b) & 1 == 0 <==> GetBit(p1, b) == 0 && GetBit(p2, b) == 0
  { }

  /** The label made of two bits. */
  function FromBits(x: bv64, y: bv64): int {
    (if x == 1 then 1 else 0) + (if y == 1 then 2 else 0)
  }

  /** The wipe unsets exactly the positions that carry the label. */
  lemma WipeLabel(p1: bv64, p2: bv64, g1: bv64, g2: bv64, b: bv64)
    requires b < 64 && g1 <= 1 && g2 <= 1
    ensures Label(WipeLow(p1, p2, g1, g2), WipeHigh(p1, p2, g1, g2), b) ==
            if Label(p1, p2, b) == FromBits(g1, g2) then 0 else Label(p1, p2, b)
  {
    hide FromBits, GetBit, WipeLow, WipeHigh;
    WipeLowBit(p1, p2, g1, g2, b);
    WipeHighBit(p1, p2, g1, g2, b);
    BitIsBit(p1, b);
    BitIsBit(p2, b);
    WipedLabel(GetBit(p1, b), GetBit(p2, b),
               GetBit(WipeLow(p1, p2, g1, g2), b), GetBit(WipeHigh(p1, p2, g1, g2), b), g1, g2);
  }

  lemma WipedLabel(x: bv64, y: bv64, x': bv64, y': bv64, g1: bv64, g2: bv64)
    requires x <= 1 && y <= 1 && g1 <= 1 && g2 <= 1
    requires var wiped := x == g1 && y == g2;
             x' == (if wiped then 0 else x) && y' == (if wiped then 0 else y)
    ensures FromBits(x', y') == if FromBits(x, y) == FromBits(g1, g2) then 0 else FromBits(x, y)
  { }

  /** Writing a label at bit `b` of both planes. */
  lemma MarkLabel(p1: bv64, p2: bv64, b: bv64, g1: bv64, g2: bv64, c: bv64)
    requires b < 64 && c < 64 && g1 <= 1 && g2 <= 1
    ensures Label(Mark(p1, b, g1), Mark(p2, b, g2), c) == if c == b then FromBits(g1, g2) else Label(p1, p2, c)
  {
    hide GetBit, Mark, FromBits;
    MarkBit(p1, b, g1, c);
    MarkBit(p2, b, g2, c);
  }

  lemma UnsetLabel(p1: bv64, p2: bv64, b: bv64)
    requires b < 64
    ensures ((p1 | p2) >> b) & 1 == 0 <==> Label(p1, p2, b) == 0
  {
    hide GetBit;
    ContainsBit(p1, p2, b);
    BitIsBit(p1, b);
    BitIsBit(p2, b);
  }

  // ---------- the filter's contents ----------

  predicate In(d: seq<bv64>, p: Pos) { 2 * p.j + 1 < |d| && p.b < 64 }

  function LabelAt(d: seq<bv64>, p: Pos): int
    requires In(d, p)
  {
    Label(d[2 * p.j], d[2 * p.j + 1], p.b)
  }

  /** What is fixed at construction: keys per generation, hash functions, number of words. */
  datatype Params = Params(perGeneration: int, nHashFuncs: int, hash: (int, int, Key) -> bv32, size: int)
  {
    predicate Ok() { perGeneration >= 1 && size >= 2 && size % 2 == 0 }

    /** Where the n-th hash puts a key. */
    function Hit(nTweak: int, n: int, key: Key): (p: Pos)
      requires Ok()
      ensures 2 * p.j + 1 < size && p.b < 64
    {
      var h := hash(n, nTweak, key);
      Pos(PairOf(h, size), BitOf(h))
    }
  }

  function BitOf(h: bv32): (b: bv64)
    ensures b < 64
  { (h & 0x3F) as bv64 }

  /** The pair of words, its number in a table of `size` words halved. */
  function PairOf(h: bv32, size: int): (j: nat)
    requires size >= 2 && size % 2 == 0
    ensures 2 * j + 1 < size
  {
    var pos := (h >> 6) as int % size;
    pos / 2
  }

  /** Two hashes go to the same bit of the same pair of words of a table of `size` words. */
  predicate Meet(h: bv32, k: bv32, size: int)
    requires size > 0
  { h & 0x3F == k & 0x3F && (h >> 6) as int % size / 2 == (k >> 6) as int % size / 2 }

  /** Hits are equal exactly if their hashes meet. */
  lemma HitsMeet(par: Params, nTweak: int, n: int, key: Key, m: int, other: Key)
    requires par.Ok()
    ensures par.Hit(nTweak, n, key) == par.Hit(nTweak, m, other) <==>
      Meet(par.hash(n, nTweak, key), par.hash(m, nTweak, other), par.size)
  {
    hide Meet, BitOf, PairOf;
    MeetIs(par.hash(n, nTweak, key), par.hash(m, nTweak, other), par.size);
  }

  lemma MeetIs(h: bv32, k: bv32, size: int)
    requires size >= 2 && size % 2 == 0
    ensures Meet(h, k, size) <==> BitOf(h) == BitOf(k) && PairOf(h, size) == PairOf(k, size)
  {
    SameBit(h, k);
    hide BitOf;
  }

  lemma SameBit(h: bv32, k: bv32)
    ensures BitOf(h) == BitOf(k) <==> h & 0x3F == k & 0x3F
  { }

  /** One of the first `n` hashes of the key is `p`. */
  ghost predicate Hits(par: Params, nTweak: int, key: Key, p: Pos, n: int)
    requires par.Ok()
  {
    exists m :: 0 <= m < n && par.Hit(nTweak, m, key) == p
  }

  /** The generation of the last key that hit a position, counting generations from 0; -1 if there is none. */
  ghost function LastGen(par: Params, nTweak: int, history: seq<Key>, p: Pos): (g: int)
    requires par.Ok()
    ensures -1 <= g <= Cur(par, history)
  {
    if history == [] then -1
    else
      var n := |history| - 1;
      if Hits(par, nTweak, history[n], p, par.nHashFuncs) then n / par.perGeneration
      else
        DivMono(n - 1, n, par.perGeneration);
        LastGen(par, nTweak, history[..n], p)
  }

  /** The current generation. */
  function Cur(par: Params, history: seq<Key>): int
    requires par.Ok()
  {
    if history == [] then 0 else (|history| - 1) / par.perGeneration
  }

  /** The label a position shows while generation `c` is current: that of its last hit, if recent enough. */
  function LabelOf(g: int, c: int): int {
    if g >= 0 && g >= c - 2 then g % 3 + 1 else 0
  }

  lemma NeverHit(par: Params, nTweak: int, history: seq<Key>, p: Pos)
    requires par.Ok()
    ensures history == [] ==> LastGen(par, nTweak, history, p) == -1
  { }

  /** A later hit only makes a position younger: it is never older than any key that hit it. */
  lemma {:induction false} LastGenCovers(par: Params, nTweak: int, history: seq<Key>, p: Pos, i: int)
    requires par.Ok() && 0 <= i < |history|
    requires Hits(par, nTweak, history[i], p, par.nHashFuncs)
    ensures LastGen(par, nTweak, history, p) >= i / par.perGeneration
  {
    var n := |history| - 1;
    if i < n {
      DivMono(i, n, par.perGeneration);
      LastGenCovers(par, nTweak, history[..n], p, i);
    }
  }

  /** A key inserted in generation `g` or later has a hash that meets the n-th one of `key`. */
  ghost predicate MetSince(par: Params, nTweak: int, history: seq<Key>, g: int, key: Key, n: int)
    requires par.Ok()
  {
    exists i, m :: 0 <= i < |history| && i / par.perGeneration >= g && 0 <= m < par.nHashFuncs &&
      Meet(par.hash(n, nTweak, key), par.hash(m, nTweak, history[i]), par.size)
  }

  ghost predicate AllMet(par: Params, nTweak: int, history: seq<Key>, g: int, key: Key)
    requires par.Ok()
  { forall n :: 0 <= n < par.nHashFuncs ==> MetSince(par, nTweak, history, g, key, n) }

  /** A position was last hit in generation `g` or later exactly if a key inserted since then has a hash that meets. */
  lemma {:induction false} HitSince(par: Params, nTweak: int, history: seq<Key>, g: int, key: Key, n: int)
    requires par.Ok()
    ensures var last := LastGen(par, nTweak, history, par.Hit(nTweak, n, key));
      last >= 0 && last >= g <==> MetSince(par, nTweak, history, g, key, n)
  {
    hide Params.Hit, Meet;
    if history != [] {
      var k, p := |history| - 1, par.Hit(nTweak, n, key);
      var rest := history[..k];
      HitSince(par, nTweak, rest, g, key, n);
      HitsIsMeets(par, nTweak, history[k], key, n);
      DivMono(0, k, par.perGeneration);
      if Hits(par, nTweak, history[k], p, par.nHashFuncs) {
        if MetSince(par, nTweak, history, g, key, n) {
          var i, m :| 0 <= i < |history| && i / par.perGeneration >= g && 0 <= m < par.nHashFuncs &&
            Meet(par.hash(n, nTweak, key), par.hash(m, nTweak, history[i]), par.size);
          DivMono(i, k, par.perGeneration);
        } else {
          var m :| 0 <= m < par.nHashFuncs &&
            Meet(par.hash(n, nTweak, key), par.hash(m, nTweak, history[k]), par.size);
        }
      } else {
        MetBefore(par, nTweak, history, g, key, n, history[k]);
      }
    }
  }

  lemma HitsIsMeets(par: Params, nTweak: int, other: Key, key: Key, n: int)
    requires par.Ok()
    ensures Hits(par, nTweak, other, par.Hit(nTweak, n, key), par.nHashFuncs) <==>
      exists m :: 0 <= m < par.nHashFuncs && Meet(par.hash(n, nTweak, key), par.hash(m, nTweak, other), par.size)
  {
    hide Params.Hit, Meet;
    forall m | 0 <= m < par.nHashFuncs
      ensures par.Hit(nTweak, m, other) == par.Hit(nTweak, n, key) <==>
        Meet(par.hash(n, nTweak, key), par.hash(m, nTweak, other), par.size)
    {
      HitsMeet(par, nTweak, n, key, m, other);
    }
  }

  lemma MetBefore(par: Params, nTweak: int, history: seq<Key>, g: int, key: Key, n: int, last: Key)
    requires par.Ok() && history != [] && last == history[|history| - 1]
    requires forall m :: 0 <= m < par.nHashFuncs ==>
      !Meet(par.hash(n, nTweak, key), par.hash(m, nTweak, last), par.size)
    ensures MetSince(par, nTweak, history, g, key, n) <==> MetSince(par, nTweak, history[..|history| - 1], g, key, n)
  {
    hide Meet;
    var rest := history[..|history| - 1];
    if MetSince(par, nTweak, rest, g, key, n) {
      var i, m :| 0 <= i < |rest| && i / par.perGeneration >= g && 0 <= m < par.nHashFuncs &&
        Meet(par.hash(n, nTweak, key), par.hash(m, nTweak, rest[i]), par.size);
      assert rest[i] == history[i];
    }
    if MetSince(par, nTweak, history, g, key, n) {
      var i, m :| 0 <= i < |history| && i / par.perGeneration >= g && 0 <= m < par.nHashFuncs &&
        Meet(par.hash(n, nTweak, key), par.hash(m, nTweak, history[i]), par.size);
      assert rest[i] == history[i];
    }
  }

  /** The last `nElements` keys are all within the three newest generations, which hold between two and three
      generations of half of `nElements` (rounded up). */
  lemma WindowCovers(par: Params, history: seq<Key>, nElements: int, i: int)
    requires par.Ok() && nElements >= 1 && par.perGeneration == (nElements + 1) / 2
    requires 0 <= i < |history| && i >= |history| - nElements
    ensures i / par.perGeneration >= Cur(par, history) - 2
  {
    var e := par.perGeneration;
    var n := |history| - 1;
    DivMono(n + 1 - 2 * e, i, e);
    DivShift(n + 1, e, -2);
    DivMono(n, n + 1, e);
  }

  // ---------- the filter ----------

  class RollingBloomFilter {
    const par: Params
    var nEntriesThisGeneration: int
    var nGeneration: int
    const data: array<bv64>
    var nTweak: int
    /** The keys inserted since the last reset. */
    ghost var history: seq<Key>

    ghost predicate Shape() {
      par.Ok() && data.Length == par.size
    }

    ghost predicate LabelsOk(labels: seq<bv64>, c: int, keys: seq<Key>)
      requires par.Ok()
      reads this`nTweak
    {
      forall p :: In(labels, p) ==> LabelAt(labels, p) == LabelOf(LastGen(par, nTweak, keys, p), c)
    }

    ghost predicate Valid()
      reads this, data
    {
      && Shape()
      && nGeneration == Cur(par, history) % 3 + 1
      && nEntriesThisGeneration == |history| - Cur(par, history) * par.perGeneration
      && LabelsOk(data[..], Cur(par, history), history)
    }

    /** A filter for at least `nElements` recent keys; the number of hash functions and of word pairs come from
        the wanted false positive rate. */
    constructor (nElements: int, nHashFuncs: int, nWordPairs: int, hash: (int, int, Key) -> bv32, nTweak: int)
      requires nElements >= 1 && nWordPairs >= 1
      ensures Valid() && history == [] && fresh(data) && this.nTweak == nTweak
      ensures par == Params((nElements + 1) / 2, nHashFuncs, hash, 2 * nWordPairs)
    {
      this.par := Params((nElements + 1) / 2, nHashFuncs, hash, 2 * nWordPairs);
      this.data := new bv64[2 * nWordPairs](i => 0);
      this.nTweak := nTweak;
      nEntriesThisGeneration := 0;
      nGeneration := 1;
      history := [];
      new;
      AllZero();
    }

    lemma AllZero()
      requires Shape() && history == [] && forall i :: 0 <= i < data.Length ==> data[i] == 0
      ensures LabelsOk(data[..], 0, history)
    {
      forall p | In(data[..], p)
        ensures LabelAt(data[..], p) == 0
      {
        ZeroBit(p.b);
      }
    }

    /** Forgets every key, under a new tweak. */
    method Reset(newTweak: int)
      requires Shape()
      modifies this, data
      ensures Valid() && history == [] && nTweak == newTweak
    {
      nTweak := newTweak;
      nEntriesThisGeneration := 0;
      nGeneration := 1;
      for i := 0 to data.Length
        invariant nGeneration == 1 && nEntriesThisGeneration == 0 && nTweak == newTweak
        invariant forall k :: 0 <= k < i ==> data[k] == 0
      {
        data[i] := 0;
      }
      history := [];
      AllZero();
    }

    /** Unsets every position that carries the label `g`. */
    method Wipe(g: int)
      requires Shape() && 1 <= g <= 3
      modifies data
      ensures forall q :: In(data[..], q) ==>
                LabelAt(data[..], q) == if LabelAt(old(data[..]), q) == g then 0 else LabelAt(old(data[..]), q)
    {
      hide Label, GetBit, WipeLow, WipeHigh;
      var g1, g2 := Low(g), High(g);
      LowHigh(g);
      ghost var was := data[..];
      for j := 0 to data.Length / 2
        invariant data[2 * j..] == was[2 * j..]
        invariant forall q :: In(data[..], q) && q.j < j ==>
                    LabelAt(data[..], q) == if LabelAt(was, q) == g then 0 else LabelAt(was, q)
      {
        ghost var before := data[..];
        var p1, p2 := data[2 * j], data[2 * j + 1];
        assert p1 == was[2 * j..][0] && p2 == was[2 * j..][1];
        data[2 * j] := WipeLow(p1, p2, g1, g2);
        data[2 * j + 1] := WipeHigh(p1, p2, g1, g2);
        assert data[2 * j + 2..] == before[2 * j..][2..] == was[2 * j + 2..];
        forall q | In(data[..], q) && q.j < j + 1
          ensures LabelAt(data[..], q) == if LabelAt(was, q) == g then 0 else LabelAt(was, q)
        {
          if q.j == j {
            WipeLabel(p1, p2, g1, g2, q.b);
          } else {
            assert LabelAt(data[..], q) == LabelAt(before, q);
          }
        }
      }
    }

    /** Gives the positions of a key the current label. */
    method MarkHits(key: Key)
      requires Shape() && 1 <= nGeneration <= 3
      modifies data
      ensures forall q :: In(data[..], q) ==>
                LabelAt(data[..], q) ==
                if Hits(par, nTweak, key, q, par.nHashFuncs) then nGeneration else LabelAt(old(data[..]), q)
    {
      hide Label, GetBit, Mark, Params.Hit;
      var g1, g2 := Low(nGeneration), High(nGeneration);
      LowHigh(nGeneration);
      ghost var was := data[..];
      var n := 0;
      while n < par.nHashFuncs
        invariant 0 <= n
        invariant n <= par.nHashFuncs || n == 0
        invariant forall q :: In(data[..], q) ==>
                    LabelAt(data[..], q) == if Hits(par, nTweak, key, q, n) then nGeneration else LabelAt(was, q)
      {
        ghost var before := data[..];
        var p := par.Hit(nTweak, n, key);
        var e := 2 * p.j;
        data[e] := Mark(data[e], p.b, g1);
        data[e + 1] := Mark(data[e + 1], p.b, g2);
        forall q | In(data[..], q)
          ensures LabelAt(data[..], q) == if Hits(par, nTweak, key, q, n + 1) then nGeneration else LabelAt(was, q)
        {
          HitsNext(par, nTweak, key, q, n);
          if q.j == p.j {
            MarkLabel(before[e], before[e + 1], p.b, g1, g2, q.b);
            assert LabelAt(data[..], q) == if q == p then nGeneration else LabelAt(before, q);
          } else {
            assert LabelAt(data[..], q) == LabelAt(before, q);
          }
        }
        n := n + 1;
      }
    }

    /** Inserts a key, first starting a new generation if the current one is full. */
    method Insert(key: Key)
      requires Valid()
      modifies this, data
      ensures Valid() && history == old(history) + [key]
      ensures nTweak == old(nTweak)
    {
      hide LastGen, In, LabelAt, Hits, LabelsOk, Cur;
      GenerationArithmetic(par, history, key);
      if nEntriesThisGeneration == par.perGeneration { StartGeneration(); }
      nEntriesThisGeneration := nEntriesThisGeneration + 1;
      ghost var was := data[..];
      MarkHits(key);
      KeyMarked(was, data[..], Cur(par, history + [key]), history, key, nGeneration);
      history := history + [key];
    }

    /** Goes on to the next of three labels, and unsets every position that still has it. */
    method StartGeneration()
      requires Valid()
      modifies this`nEntriesThisGeneration, this`nGeneration, data
      ensures nEntriesThisGeneration == 0 && nGeneration == (Cur(par, history) + 1) % 3 + 1
      ensures LabelsOk(data[..], Cur(par, history) + 1, history)
    {
      hide LastGen, In, LabelAt, Hits;
      nEntriesThisGeneration := 0;
      nGeneration := nGeneration + 1;
      if nGeneration == 4 {
        nGeneration := 1;
      }
      ghost var was := data[..];
      Wipe(nGeneration);
      NewGeneration(was, data[..], Cur(par, history), history, nGeneration);
    }

    /** After the wipe, labels are right for the next generation. */
    lemma NewGeneration(was: seq<bv64>, now: seq<bv64>, c: int, keys: seq<Key>, g: int)
      requires par.Ok() && |now| == |was| && c == Cur(par, keys) && g == (c + 1) % 3 + 1
      requires LabelsOk(was, c, keys)
      requires forall q :: In(now, q) ==> LabelAt(now, q) == if LabelAt(was, q) == g then 0 else LabelAt(was, q)
      ensures LabelsOk(now, c + 1, keys)
    {
      forall q | In(now, q)
        ensures LabelAt(now, q) == LabelOf(LastGen(par, nTweak, keys, q), c + 1)
      {
        assert In(was, q);
        LabelsAge(LastGen(par, nTweak, keys, q), c);
      }
    }

    lemma KeyMarked(was: seq<bv64>, now: seq<bv64>, c: int, keys: seq<Key>, key: Key, g: int)
      requires par.Ok() && |now| == |was| && c == |keys| / par.perGeneration && c >= 0 && g == c % 3 + 1
      requires LabelsOk(was, c, keys)
      requires forall q :: In(now, q) ==>
                 LabelAt(now, q) == if Hits(par, nTweak, key, q, par.nHashFuncs) then g else LabelAt(was, q)
      ensures LabelsOk(now, c, keys + [key])
    {
      forall q | In(now, q)
        ensures LabelAt(now, q) == LabelOf(LastGen(par, nTweak, keys + [key], q), c)
      {
        assert In(was, q);
        assert (keys + [key])[..|keys|] == keys;
      }
    }

    /** A key is reported exactly if each of its hashes meets one of a key inserted in the three newest generations;
        hence every key of those generations is. */
    method Contains(key: Key) returns (r: bool)
      requires Valid()
      ensures r <==> AllMet(par, nTweak, history, (|history| - 1) / par.perGeneration - 2, key)
      ensures var g := (|history| - 1) / par.perGeneration - 2;
        forall i :: 0 <= i < |history| && history[i] == key && i / par.perGeneration >= g ==> r
    {
      hide Label, GetBit, LastGen, Params.Hit, MetSince;
      var n := 0;
      ghost var g := (|history| - 1) / par.perGeneration - 2;
      while n < par.nHashFuncs
        invariant 0 <= n
        invariant n <= par.nHashFuncs || n == 0
        invariant forall m :: 0 <= m < n ==> MetSince(par, nTweak, history, g, key, m)
      {
        var p := par.Hit(nTweak, n, key);
        var e := 2 * p.j;
        HitSince(par, nTweak, history, g, key, n);
        NeverHit(par, nTweak, history, p);
        UnsetLabel(data[e], data[e + 1], p.b);
        assert In(data[..], p) && LabelAt(data[..], p) == Label(data[e], data[e + 1], p.b);
        if ((data[e] | data[e + 1]) >> p.b) & 1 == 0 {
          forall i | 0 <= i < |history| && history[i] == key && i / par.perGeneration >= g
            ensures false
          {
            RecentKey(key, i, n);
          }
          return false;
        }
        n := n + 1;
      }
      r := true;
    }

    lemma RecentKey(key: Key, i: int, n: int)
      requires par.Ok() && 0 <= i < |history| && history[i] == key && 0 <= n < par.nHashFuncs
      ensures LastGen(par, nTweak, history, par.Hit(nTweak, n, key)) >= i / par.perGeneration >= 0
    {
      DivMono(0, i, par.perGeneration);
      LastGenCovers(par, nTweak, history, par.Hit(nTweak, n, key), i);
    }
  }

  lemma LowHigh(g: int)
    requires 1 <= g <= 3
    ensures FromBits(Low(g), High(g)) == g && Low(g) <= 1 && High(g) <= 1
  { }

  lemma HitsNext(par: Params, nTweak: int, key: Key, p: Pos, n: int)
    requires par.Ok() && n >= 0
    ensures Hits(par, nTweak, key, p, n + 1) <==> Hits(par, nTweak, key, p, n) || par.Hit(nTweak, n, key) == p
  {
    if par.Hit(nTweak, n, key) == p { assert Hits(par, nTweak, key, p, n + 1); }
  }

  /** Ageing by one generation unsets exactly the label that is about to be reused. */
  lemma LabelsAge(g: int, c: int)
    requires -1 <= g <= c
    ensures LabelOf(g, c + 1) == if LabelOf(g, c) == (c + 1) % 3 + 1 then 0 else LabelOf(g, c)
  { }

  /** How the counters move when a key is added. */
  lemma GenerationArithmetic(par: Params, history: seq<Key>, key: Key)
    requires par.Ok()
    ensures var c := Cur(par, history);
            var k := |history| - c * par.perGeneration;
            && c >= 0 && 0 <= k <= par.perGeneration
            && Cur(par, history + [key]) == |history| / par.perGeneration
            && Cur(par, history + [key]) == (if k == par.perGeneration then c + 1 else c)
  {
    var e, n := par.perGeneration, |history|;
    var c := Cur(par, history);
    if n == 0 {
      DivUnique(0, e, 0, 0);
    } else {
      DivMono(0, n - 1, e);
      assert n - 1 == e * c + (n - 1) % e;
      if n - e * c == e {
        DivUnique(n, e, c + 1, 0);
      } else {
        DivUnique(n, e, c, n - e * c);
      }
    }
  }

  /** After any sequence of inserts into a fresh filter, none of the last `nElements` keys is denied,
      whatever the hash functions do. */
  method NoFalseNegatives(nElements: int, nHashFuncs: int, nWordPairs: int, hash: (int, int, Key) -> bv32, nTweak: int,
                          keys: seq<Key>, i: int) returns (r: bool)
    requires nElements >= 1 && nWordPairs >= 1
    requires 0 <= i < |keys| && i >= |keys| - nElements
    ensures r
  {
    var f := new RollingBloomFilter(nElements, nHashFuncs, nWordPairs, hash, nTweak);
    for k := 0 to |keys|
      invariant fresh(f) && fresh(f.data) && f.Valid() && f.history == keys[..k]
    {
      f.Insert(keys[k]);
    }
    WindowCovers(f.par, f.history, nElements, i);
    r := f.Contains(keys[i]);
  }

  lemma ZeroBit(b: bv64)
    requires b < 64
    ensures Label(0, 0, b) == 0
  { }
}

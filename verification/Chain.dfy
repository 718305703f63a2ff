/** The tree of block index entries with its skip pointers, and the chain kept as an array over it. */
module Chain {
  import opened Arith
  import opened SkipList

  /** An entry's place in the tree is fixed once it is there; its skip pointer is filled in later. */
  class BlockIndex {
    const hash: int
    const pprev: BlockIndex?
    const nHeight: int
    var pskip: BlockIndex?

    constructor (hash: int, pprev: BlockIndex?)
      ensures this.hash == hash && this.pprev == pprev && pskip == null
      ensures nHeight == if pprev == null then 0 else pprev.nHeight + 1
    {
      this.hash := hash;
      this.pprev := pprev;
      this.nHeight := if pprev == null then 0 else pprev.nHeight + 1;
      this.pskip := null;
    }

    /** The ancestor at a height, by way of skip pointers where they lead closer; with every pointer there, in as
        many steps as Steps says. */
    method GetAncestor(height: int, ghost S: set<BlockIndex>) returns (r: BlockIndex?, ghost steps: nat)
      requires this in S && TreeOk(S)
      ensures r == null <==> height < 0 || height > nHeight
      ensures r != null ==> r in S && Linked(this) && r == Anc(this, height)
      ensures r != null && AllSkip(S) ==> steps == Steps(nHeight, height)
    {
      hide GetSkipHeight;
      steps := 0;
      if height > nHeight || height < 0 { return null, 0; }
      var walk, heightWalk := this, nHeight;
      while heightWalk > height
        invariant walk in S && heightWalk == walk.nHeight >= height
        invariant Anc(walk, height) == Anc(this, height)
        invariant AllSkip(S) ==> steps + Steps(heightWalk, height) == Steps(nHeight, height)
      {
        var heightSkip := GetSkipHeight(heightWalk);
        var heightSkipPrev := GetSkipHeight(heightWalk - 1);
        SkipsBack(heightWalk);
        steps := steps + 1;
        if walk.pskip != null
           && (heightSkip == height
               || (heightSkip > height && !(heightSkipPrev < heightSkip - 2 && heightSkipPrev >= height))) {
          AncOfAnc(walk, heightSkip, height);
          AncIs(walk, heightSkip);
          AncInTree(walk, heightSkip, S);
          walk := walk.pskip;
          heightWalk := heightSkip;
        } else {
          walk := walk.pprev;
          heightWalk := heightWalk - 1;
        }
      }
      r := walk;
    }

    /** Fills in the skip pointer. */
    method BuildSkip(ghost S: set<BlockIndex>)
      requires this in S && TreeOk(S)
      modifies this
      ensures TreeOk(S)
      ensures pprev != null ==> SkipsTo(this) && pskip != null && pskip != this
      ensures (forall b :: b in S && b != this && b.pprev != null ==> old(b.pskip) != null) ==> AllSkip(S)
      ensures pprev == null ==> pskip == old(pskip)
    {
      if pprev != null {
        SkipsBack(nHeight);
        var skip, _ := pprev.GetAncestor(GetSkipHeight(nHeight), S);
        pskip := skip;
        AncIs(this, GetSkipHeight(nHeight));
      }
    }
  }

  /** Heights count back to an entry without a parent. */
  ghost predicate Linked(b: BlockIndex)
    decreases b.nHeight
  {
    if b.pprev == null then b.nHeight == 0
    else b.nHeight > 0 && b.pprev.nHeight == b.nHeight - 1 && Linked(b.pprev)
  }

  /** The ancestor of b at height h, by way of parents alone. */
  ghost function Anc(b: BlockIndex, h: nat): BlockIndex
    requires Linked(b) && h <= b.nHeight
    decreases b.nHeight
  {
    if b.nHeight == h then b else Anc(b.pprev, h)
  }

  /** S has every parent of its entries, and skip pointers that are set lead to the right ancestor. */
  ghost predicate TreeOk(S: set<BlockIndex>)
    reads S
  {
    forall b :: b in S ==>
      Linked(b) && (b.pprev != null ==> b.pprev in S) &&
      (b.pskip != null ==> b.nHeight > 0 && SkipsTo(b))
  }

  /** Every entry but the first has its skip pointer. */
  ghost predicate AllSkip(S: set<BlockIndex>)
    reads S
  {
    forall b :: b in S && b.pprev != null ==> b.pskip != null
  }

  ghost predicate SkipsTo(b: BlockIndex)
    requires Linked(b)
    reads b
  {
    GetSkipHeight(b.nHeight) <= b.nHeight && b.pskip == Anc(b, GetSkipHeight(b.nHeight))
  }

  lemma {:induction false} AncIs(b: BlockIndex, h: nat)
    requires Linked(b) && h <= b.nHeight
    ensures Linked(Anc(b, h)) && Anc(b, h).nHeight == h
    decreases b.nHeight
  {
    if b.nHeight > h { AncIs(b.pprev, h); }
  }

  lemma {:induction false} AncOfAnc(b: BlockIndex, g: nat, h: nat)
    requires Linked(b) && h <= g <= b.nHeight
    ensures Linked(Anc(b, g)) && Anc(b, g).nHeight == g && Anc(Anc(b, g), h) == Anc(b, h)
    decreases b.nHeight
  {
    if b.nHeight > g { AncOfAnc(b.pprev, g, h); }
  }

  lemma OneBack(b: BlockIndex, a: BlockIndex)
    requires Linked(b) && 0 <= a.nHeight <= b.nHeight && a == Anc(b, a.nHeight)
    ensures a.nHeight == 0 ==> a.pprev == null
    ensures a.nHeight > 0 ==>
      a.pprev != null && a.pprev.nHeight == a.nHeight - 1 && a.pprev == Anc(b, a.nHeight - 1)
  {
    AncIs(b, a.nHeight);
    if a.nHeight > 0 { AncOfAnc(b, a.nHeight, a.nHeight - 1); }
  }

  lemma {:induction false} AncInTree(b: BlockIndex, h: nat, S: set<BlockIndex>)
    requires TreeOk(S) && b in S && h <= b.nHeight
    ensures Anc(b, h) in S
    decreases b.nHeight
  {
    if b.nHeight > h { AncInTree(b.pprev, h, S); }
  }

  // ----- The chain -----

  /** The entries from the root of the tree to b, by height. */
  ghost function Path(b: BlockIndex): seq<BlockIndex?>
    requires Linked(b)
  {
    seq(b.nHeight + 1, h requires 0 <= h <= b.nHeight => Anc(b, h))
  }

  /** The chain is empty, or the whole path to its last entry. */
  ghost predicate ChainOk(c: seq<BlockIndex?>) {
    c != [] ==> var tip := c[|c| - 1]; tip != null && Linked(tip) && c == Path(tip)
  }

  lemma ChainEntry(c: seq<BlockIndex?>, i: nat)
    requires ChainOk(c) && i < |c|
    ensures c[i] != null && Linked(c[i]) && c[i].nHeight == i && c[..i + 1] == Path(c[i])
  {
    var tip := c[|c| - 1];
    AncIs(tip, i);
    forall h | 0 <= h <= i ensures c[..i + 1][h] == Path(c[i])[h] { AncOfAnc(tip, i, h); }
  }

  /** Whether b is on the chain. */
  ghost predicate On(c: seq<BlockIndex?>, b: BlockIndex) { 0 <= b.nHeight < |c| && c[b.nHeight] == b }

  /** An entry on the chain has its ancestors there too. */
  lemma OnChainBelow(c: seq<BlockIndex?>, b: BlockIndex, h: nat)
    requires ChainOk(c) && Linked(b) && On(c, b) && h <= b.nHeight
    ensures On(c, Anc(b, h)) && c[h] == Anc(b, h)
  {
    ChainEntry(c, b.nHeight);
    AncIs(b, h);
    assert c[..b.nHeight + 1][h] == Path(b)[h];
  }

  class ActiveChain {
    var vChain: seq<BlockIndex?>

    method Tip() returns (r: BlockIndex?)
      requires ChainOk(vChain)
      ensures r == null <==> vChain == []
      ensures r != null ==> Linked(r) && vChain == Path(r)
      ensures Height() == if r == null then -1 else r.nHeight
    {
      r := if |vChain| > 0 then vChain[|vChain| - 1] else null;
    }

    function Height(): int
      reads this
    { |vChain| - 1 }

    predicate Contains(b: BlockIndex)
      reads this
    { 0 <= b.nHeight < |vChain| && vChain[b.nHeight] == b }

    /** Compares two chains, not both of them empty, by their length and last entry only. */
    method Equals(other: ActiveChain) returns (r: bool)
      requires ChainOk(vChain) && ChainOk(other.vChain)
      requires vChain != [] || other.vChain != []
      ensures r <==> vChain == other.vChain
    {
      r := |vChain| == |other.vChain| && vChain[|vChain| - 1] == other.vChain[|other.vChain| - 1];
    }

    /** The child of b on the chain. */
    method Next(b: BlockIndex) returns (r: BlockIndex?)
      requires ChainOk(vChain) && Linked(b)
      ensures r != null ==> On(vChain, r) && r.pprev == b
      ensures r == null ==> forall c :: c in vChain && c != null ==> c.pprev != b
    {
      forall c | c in vChain && c != null && c.pprev == b
        ensures On(vChain, c) && On(vChain, b) && c.nHeight == b.nHeight + 1
      {
        var i :| 0 <= i < |vChain| && vChain[i] == c;
        ChainEntry(vChain, i);
        OnChainBelow(vChain, c, c.nHeight - 1);
      }
      if Contains(b) && b.nHeight + 1 < |vChain| {
        r := vChain[b.nHeight + 1];
        ChainEntry(vChain, b.nHeight + 1);
        OnChainBelow(vChain, r, b.nHeight);
      } else {
        r := null;
      }
    }

    /** Makes the chain the path to pindex, leaving alone what it already shares with it. */
    method SetTip(pindex: BlockIndex?)
      requires ChainOk(vChain) && (pindex != null ==> Linked(pindex))
      modifies this
      ensures ChainOk(vChain)
      ensures vChain == if pindex == null then [] else Path(pindex)
    {
      if pindex == null {
        vChain := [];
        return;
      }
      ghost var was := vChain;
      var n := pindex.nHeight + 1;
      vChain := if n <= |vChain| then vChain[..n] else vChain + seq(n - |vChain|, i => null);
      var walk: BlockIndex? := pindex;
      while walk != null && vChain[walk.nHeight] != walk
        invariant |vChain| == n
        invariant walk != null ==> Linked(walk) && walk.nHeight < n && walk == Anc(pindex, walk.nHeight)
        invariant forall i :: (if walk == null then 0 else walk.nHeight + 1) <= i < n ==> vChain[i] == Anc(pindex, i)
        invariant walk != null ==> forall i :: 0 <= i <= walk.nHeight ==>
          vChain[i] == (if i < |was| then was[i] else null)
        decreases if walk == null then -1 else walk.nHeight
      {
        vChain := vChain[walk.nHeight := walk];
        if walk.nHeight > 0 { AncOfAnc(pindex, walk.nHeight, walk.nHeight - 1); }
        walk := walk.pprev;
      }
      forall i | 0 <= i < n ensures vChain[i] == Anc(pindex, i) {
        if walk != null && i <= walk.nHeight {
          OnChainBelow(was, walk, i);
          AncOfAnc(pindex, walk.nHeight, i);
        }
      }
      assert vChain == Path(pindex);
    }

    /** The last block on the chain that is pindex or an ancestor of it. */
    method FindFork(pindex: BlockIndex?, ghost S: set<BlockIndex>) returns (r: BlockIndex?)
      requires ChainOk(vChain) && TreeOk(S) && (pindex != null ==> pindex in S)
      ensures pindex == null ==> r == null
      ensures pindex != null ==> Linked(pindex) && ForkIs(vChain, pindex, r)
    {
      if pindex == null { return null; }
      r := pindex;
      if pindex.nHeight > Height() {
        var found, _ := pindex.GetAncestor(Height(), S);
        r := found;
        if r != null { AncIs(pindex, Height()); }
        TooHigh(vChain, pindex);
      }
      r := FirstOnChain(pindex, r, S);
    }

    /** The first block on the chain from an ancestor of pindex on down. */
    method FirstOnChain(ghost pindex: BlockIndex, from: BlockIndex?, ghost S: set<BlockIndex>) returns (r: BlockIndex?)
      requires TreeOk(S) && pindex in S
      requires from != null ==> from in S && 0 <= from.nHeight <= pindex.nHeight && from == Anc(pindex, from.nHeight)
      requires NoneAbove(vChain, pindex, if from == null then -1 else from.nHeight)
      ensures ForkIs(vChain, pindex, r)
    {
      hide Anc;
      r := from;
      while r != null && !Contains(r)
        invariant r != null ==> r in S && 0 <= r.nHeight <= pindex.nHeight && r == Anc(pindex, r.nHeight)
        invariant NoneAbove(vChain, pindex, if r == null then -1 else r.nHeight)
        decreases if r == null then -1 else r.nHeight
      {
        OneBack(pindex, r);
        r := r.pprev;
      }
    }

    /** Hashes of blocks back from pindex, or from the tip: dense at first, then ever further apart. */
    method GetLocator(pindex: BlockIndex?, ghost S: set<BlockIndex>) returns (vHave: seq<int>)
      requires ChainOk(vChain) && TreeOk(S) && (pindex != null ==> pindex in S)
      requires forall b :: b in vChain && b != null ==> b in S
      ensures pindex != null ==> IsLocator(pindex, vHave)
      ensures pindex == null ==> if vChain == [] then vHave == [] else IsLocator(vChain[|vChain| - 1], vHave)
    {
      hide Locating, Heights, IsLocator;
      vHave := [];
      var start := pindex;
      if start == null {
        start := Tip();
        if start == null { return; }
        assert start in vChain;
      }
      var nStep, walk := 1, start;
      LocatingStarts(start);
      while true
        invariant walk in S && Locating(start, walk, vHave) && nStep == Step(|vHave|) >= 1
        decreases walk.nHeight
      {
        if walk.nHeight == 0 {
          LocatingEnds(start, walk, vHave);
          vHave := vHave + [walk.hash];
          break;
        }
        var height := if walk.nHeight > nStep then walk.nHeight - nStep else 0;
        StepGrows(|vHave|);
        LocatingStep(start, walk, vHave);
        vHave := vHave + [walk.hash];
        walk := Back(walk, height, S);
        if |vHave| > 10 { nStep := nStep * 2; }
      }
    }

    /** The ancestor at a height: from the array if walk is on the chain, else by skip pointers. */
    method Back(walk: BlockIndex, height: nat, ghost S: set<BlockIndex>) returns (r: BlockIndex)
      requires ChainOk(vChain) && TreeOk(S) && walk in S && height <= walk.nHeight
      ensures Linked(walk) && r in S && r == Anc(walk, height) && r.nHeight == height
    {
      AncIs(walk, height);
      AncInTree(walk, height, S);
      if Contains(walk) {
        OnChainBelow(vChain, walk, height);
        r := vChain[height];
      } else {
        var found, _ := walk.GetAncestor(height, S);
        r := found;
      }
    }
  }

  /** The locator of b is written up to, and not including, its entry for w. */
  ghost predicate Locating(b: BlockIndex, w: BlockIndex, vHave: seq<int>) {
    Linked(b) && Linked(w) && 0 <= w.nHeight <= b.nHeight && w == Anc(b, w.nHeight) &&
    var hs := Heights(b.nHeight, 0);
    |vHave| <= |hs| && hs[|vHave|..] == Heights(w.nHeight, |vHave|) &&
    forall i :: 0 <= i < |vHave| ==> HashAt(b, hs[i], vHave[i])
  }

  lemma LocatingStarts(b: BlockIndex)
    requires Linked(b)
    ensures Locating(b, b, []) && Step(0) == 1
  {
    assert Heights(b.nHeight, 0)[0..] == Heights(b.nHeight, 0);
  }

  lemma LocatingStep(b: BlockIndex, w: BlockIndex, vHave: seq<int>)
    requires Locating(b, w, vHave) && w.nHeight > 0
    ensures var step := Step(|vHave|);
      step >= 1 && Locating(b, Anc(w, if w.nHeight > step then w.nHeight - step else 0), vHave + [w.hash])
  {
    StepGrows(|vHave|);
    var height := if w.nHeight > Step(|vHave|) then w.nHeight - Step(|vHave|) else 0;
    AncOfAnc(b, w.nHeight, height);
    AncIs(w, height);
    NextHeight(Heights(b.nHeight, 0), w.nHeight, |vHave|);
  }

  lemma NextHeight(hs: seq<nat>, h: nat, k: nat)
    requires h > 0 && k <= |hs| && hs[k..] == Heights(h, k)
    ensures k < |hs| && hs[k] == h && Step(k) >= 1
    ensures hs[k + 1..] == Heights(if h > Step(k) then h - Step(k) else 0, k + 1)
  {
    StepGrows(k);
    assert hs[k] == hs[k..][0];
    assert hs[k + 1..] == hs[k..][1..];
  }

  lemma LocatingEnds(b: BlockIndex, w: BlockIndex, vHave: seq<int>)
    requires Locating(b, w, vHave) && w.nHeight == 0
    ensures IsLocator(b, vHave + [w.hash])
  {
    var hs := Heights(b.nHeight, 0);
    assert hs[|vHave|..] == [0];
    assert hs[|vHave|] == hs[|vHave|..][0] == 0;
  }

  ghost predicate HashAt(b: BlockIndex, h: nat, hash: int) {
    Linked(b) && h <= b.nHeight && Anc(b, h).hash == hash
  }

  /** The hashes of the ancestors of b at the heights of a locator. */
  ghost predicate IsLocator(b: BlockIndex, vHave: seq<int>) {
    b.nHeight >= 0 && |vHave| == |Heights(b.nHeight, 0)| &&
    forall i :: 0 <= i < |vHave| ==> HashAt(b, Heights(b.nHeight, 0)[i], vHave[i])
  }

  /** No ancestor of b above height h is on the chain. */
  ghost predicate NoneAbove(c: seq<BlockIndex?>, b: BlockIndex, h: int)
    requires Linked(b)
  {
    forall g: nat :: h < g <= b.nHeight ==> !On(c, Anc(b, g))
  }

  ghost predicate ForkIs(c: seq<BlockIndex?>, b: BlockIndex, r: BlockIndex?)
    requires Linked(b)
  {
    if r == null then NoneAbove(c, b, -1)
    else 0 <= r.nHeight <= b.nHeight && r == Anc(b, r.nHeight) && On(c, r) && NoneAbove(c, b, r.nHeight)
  }

  lemma TooHigh(c: seq<BlockIndex?>, b: BlockIndex)
    requires Linked(b)
    ensures NoneAbove(c, b, |c| - 1)
  {
    forall g: nat | |c| <= g <= b.nHeight ensures !On(c, Anc(b, g)) { AncIs(b, g); }
  }

  // ----- Locators -----

  /** How far back the entry after the k-th of a locator is. */
  function Step(k: nat): int { if k <= 10 then 1 else Pow(2, k - 10) }

  lemma StepGrows(k: nat)
    ensures Step(k) >= 1 && Step(k + 1) == if k >= 10 then 2 * Step(k) else Step(k)
  {
    if k > 10 { PowPos(2, k - 10); }
    assert Pow(2, 1) == 2;
  }

  /** The heights of a locator that starts at height h, from its k-th entry on. */
  ghost function Heights(h: nat, k: nat): seq<nat>
    decreases h
  {
    if h == 0 then [0]
    else StepGrows(k); [h] + Heights(if h > Step(k) then h - Step(k) else 0, k + 1)
  }

  /** A locator starts with its own height, falls strictly and ends with the genesis block. */
  lemma {:induction false} HeightsFall(h: nat, k: nat)
    ensures |Heights(h, k)| >= 1 && Heights(h, k)[0] == h && Heights(h, k)[|Heights(h, k)| - 1] == 0
    ensures forall i :: 0 < i < |Heights(h, k)| ==> Heights(h, k)[i] < Heights(h, k)[i - 1]
    decreases h
  {
    if h > 0 {
      StepGrows(k);
      HeightsFall(if h > Step(k) then h - Step(k) else 0, k + 1);
    }
  }

  /** The first entries are consecutive. */
  lemma {:induction false} HeightsDense(h: nat, k: nat, i: nat)
    requires k + i <= 11 && i <= h
    ensures i < |Heights(h, k)| && Heights(h, k)[i] == h - i
    decreases h
  {
    if i > 0 { HeightsDense(h - 1, k + 1, i - 1); }
  }

  /** How far below its start the k-th entry of a locator is. */
  ghost function Depth(k: nat): int { if k <= 11 then k else 9 + Pow(2, k - 10) }

  lemma DepthGrows(k: nat)
    ensures Depth(k + 1) == Depth(k) + Step(k)
  {
    assert Pow(2, 1) == 2 && Pow(2, 2) == 4;
  }

  lemma {:induction false} HeightAt(h: nat, k: nat, i: nat)
    requires i < |Heights(h, k)|
    ensures var d := Depth(k + i) - Depth(k); Heights(h, k)[i] == if h > d then h - d else 0
    decreases h
  {
    hide Depth;
    if i > 0 {
      StepGrows(k);
      DepthGrows(k);
      var g := if h > Step(k) then h - Step(k) else 0;
      HeightAt(g, k + 1, i - 1);
      if g == 0 { assert i == 1; }
    }
  }

  /** The entries of a locator: eleven steps back one by one, and then to 2^k + 9 below its start, down to genesis. */
  lemma HeightsAre(h: nat, i: nat)
    requires i < |Heights(h, 0)|
    ensures i <= 11 ==> Heights(h, 0)[i] == if h > i then h - i else 0
    ensures i > 11 ==> Heights(h, 0)[i] == if h > 9 + Pow(2, i - 10) then h - 9 - Pow(2, i - 10) else 0
  {
    HeightAt(h, 0, i);
  }

  /** Once the steps double, a locator is as long as the logarithm of its height. */
  lemma {:induction false} HeightsShort(h: nat, k: nat, t: nat)
    requires k >= 11 && h <= Step(k) * (Pow(2, t) - 1)
    ensures |Heights(h, k)| <= 1 + t
    decreases h
  {
    if h > 0 {
      StepGrows(k);
      if t == 0 { assert false; }
      var g := if h > Step(k) then h - Step(k) else 0;
      PowPos(2, t - 1);
      ShortAlgebra(h, Step(k), Pow(2, t - 1));
      HeightsShort(g, k + 1, t - 1);
    }
  }

  lemma ShortAlgebra(h: int, s: int, p: int)
    requires s >= 1 && p >= 1 && h <= s * (2 * p - 1)
    ensures h - s <= 2 * s * (p - 1) && 0 <= 2 * s * (p - 1)
  {
    assert s * (2 * p - 1) == 2 * s * (p - 1) + s;
    MulMono(0, p - 1, 2 * s);
  }

  lemma {:induction false} HeightsPrefix(h: nat, k: nat)
    requires k <= 11
    ensures |Heights(h, k)| <= (if h < 11 - k then h + 1 else 11 - k + |Heights(h - (11 - k), 11)|)
    decreases h
  {
    if h > 0 && k < 11 { HeightsPrefix(h - 1, k + 1); }
  }

  lemma {:induction false} HeightsLong(h: nat, k: nat, t: nat)
    requires k >= 11 && h > Step(k) * (Pow(2, t) - 1)
    ensures |Heights(h, k)| > 1 + t
    decreases h
  {
    StepGrows(k);
    PowPos(2, t);
    MulMono(0, Pow(2, t) - 1, Step(k));
    if t > 0 {
      PowPos(2, t - 1);
      LongAlgebra(h, Step(k), Pow(2, t - 1));
      HeightsLong(h - Step(k), k + 1, t - 1);
    }
  }

  lemma LongAlgebra(h: int, s: int, p: int)
    requires s >= 1 && p >= 1 && h > s * (2 * p - 1)
    ensures h - s > 2 * s * (p - 1) >= 0
  {
    assert s * (2 * p - 1) == 2 * s * (p - 1) + s;
    MulMono(0, p - 1, 2 * s);
  }

  lemma {:induction false} HeightsStart(h: nat, k: nat)
    requires k <= 11 && h >= 11 - k
    ensures |Heights(h, k)| == 11 - k + |Heights(h - (11 - k), 11)|
    decreases h
  {
    if k < 11 { HeightsStart(h - 1, k + 1); }
  }

  /** A locator of a block below height 2^m has at most 11 + m entries. */
  lemma LocatorIsShort(h: nat, m: nat)
    requires h < Pow(2, m)
    ensures |Heights(h, 0)| <= 11 + m
  {
    HeightsPrefix(h, 0);
    if h >= 11 {
      assert m > 0;
      assert Step(11) == 2 by { assert Pow(2, 1) == 2; }
      HeightsShort(h - 11, 11, m - 1);
    }
  }

  /** The step stays an int, below 2^31, in a whole locator exactly if it starts at height 2^30 + 9 or below. */
  lemma StepFits(h: nat)
    ensures (forall k :: 0 <= k < |Heights(h, 0)| ==> Step(k) < 0x8000_0000) <==> h <= 0x4000_0009
  {
    hide Pow, Heights, Step;
    PowersOfTwo();
    HeightsPrefix(h, 0);
    if h > 0x4000_0009 {
      HeightsStart(h, 0);
      HeightsLong(h - 11, 11, 29);
      assert Step(41) == 0x8000_0000;
    } else {
      if h >= 11 { HeightsShort(h - 11, 11, 29); }
      forall k | 0 <= k < |Heights(h, 0)| ensures Step(k) < 0x8000_0000 { StepsRise(k, 40); }
    }
  }

  lemma PowersOfTwo()
    ensures Step(11) == 2 && Step(40) == 0x4000_0000 && Step(41) == 0x8000_0000 && Pow(2, 29) == 0x2000_0000
  {
    assert Pow(2, 1) == 2 && Pow(2, 8) == 256;
    PowAdd(2, 8, 8);
    PowAdd(2, 16, 8);
    PowAdd(2, 24, 5);
    PowAdd(2, 29, 1);
    PowAdd(2, 30, 1);
  }

  lemma {:induction false} StepsRise(k: nat, n: nat)
    requires k <= n
    ensures Step(k) <= Step(n)
  {
    if k < n {
      StepsRise(k, n - 1);
      StepGrows(n - 1);
    }
  }
}

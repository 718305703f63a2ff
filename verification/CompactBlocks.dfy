/** The list of indexes in a request for transactions, sent as the gaps between them. */
module RequestCodec {
  import opened Wrappers

  ghost predicate Rising(xs: seq<nat>) { forall i, j :: 0 <= i < j < |xs| ==> xs[i] < xs[j] }

  /** The gaps, as 64-bit words, when the next index is at least o. */
  function Gaps(xs: seq<nat>, o: nat): seq<nat> {
    if xs == [] then [] else [(xs[0] - o) % UINT64] + Gaps(xs[1..], xs[0] + 1)
  }

  /** The indexes for gaps, in 16-bit words; None once one is too large. */
  function Undo(ds: seq<nat>, o: nat): Option<seq<nat>> {
    if ds == [] then Some([])
    else if ds[0] + o >= UINT16 then None
    else
      match Undo(ds[1..], (ds[0] + o + 1) % UINT16)
      case None => None
      case Some(xs) => Some([ds[0] + o] + xs)
  }

  lemma RisingCons(x: nat, xs: seq<nat>)
    ensures Rising([x] + xs) <==> Rising(xs) && (xs == [] || xs[0] > x)
  {
    var s := [x] + xs;
    assert forall i :: 0 <= i < |xs| ==> s[i + 1] == xs[i];
    if Rising(s) {
      assert xs != [] ==> s[0] < s[1];
      forall i, j | 0 <= i < j < |xs| ensures xs[i] < xs[j] { assert s[i + 1] < s[j + 1]; }
    }
  }

  /** Exactly the strictly increasing lists survive. */
  lemma RoundTripIff(xs: seq<nat>)
    requires forall i :: 0 <= i < |xs| ==> xs[i] < UINT16
    ensures Undo(Gaps(xs, 0), 0) == Some(xs) <==> Rising(xs)
  {
    RoundTripFrom(xs, 0);
    assert 0 % UINT16 == 0;
  }

  /** The claim for an offset. */
  ghost predicate ReturnsIff(xs: seq<nat>, o: nat) {
    Undo(Gaps(xs, o), o % UINT16) == Some(xs) <==> Rising(xs) && (xs == [] || xs[0] >= o)
  }

  lemma {:induction false} RoundTripFrom(xs: seq<nat>, o: nat)
    requires o <= UINT16 && forall i :: 0 <= i < |xs| ==> xs[i] < UINT16
    ensures ReturnsIff(xs, o)
  {
    if xs == [] {
      assert Undo(Gaps([], o), o % UINT16) == Some([]);
    } else {
      hide ReturnsIff;
      RoundTripFrom(xs[1..], xs[0] + 1);
      ReturnsStep(xs, o);
    }
  }

  lemma ReturnsStep(xs: seq<nat>, o: nat)
    requires o <= UINT16 && xs != [] && xs[0] < UINT16 && ReturnsIff(xs[1..], xs[0] + 1)
    ensures ReturnsIff(xs, o)
  {
    hide Rising, Gaps, Undo;
    RisingCons(xs[0], xs[1..]);
    UndoFirst(xs, o);
    PrependOne(xs[0], xs[1..], Undo(Gaps(xs[1..], xs[0] + 1), (xs[0] + 1) % UINT16));
    assert xs == [xs[0]] + xs[1..];
  }

  /** The first gap gives the first index back, unless it was negative. */
  lemma UndoFirst(xs: seq<nat>, o: nat)
    requires xs != [] && xs[0] < UINT16 && o <= UINT16
    ensures Undo(Gaps(xs, o), o % UINT16) ==
      if xs[0] >= o then Prepend([xs[0]], Undo(Gaps(xs[1..], xs[0] + 1), (xs[0] + 1) % UINT16)) else None
  {
    hide Gaps, Undo;
    GapsStep(xs, o);
    WrapGap(xs[0], o);
    UndoStep(Gaps(xs, o), o % UINT16);
  }

  lemma PrependOne(x: nat, xs: seq<nat>, r: Option<seq<nat>>)
    ensures Prepend([x], r) == Some([x] + xs) <==> r == Some(xs)
  {
    if r.Some? {
      assert ([x] + r.value)[1..] == r.value && ([x] + xs)[1..] == xs;
    }
  }

  lemma GapsStep(xs: seq<nat>, o: nat)
    requires xs != []
    ensures Gaps(xs, o) != [] && Gaps(xs, o)[0] == (xs[0] - o) % UINT64 && Gaps(xs, o)[1..] == Gaps(xs[1..], xs[0] + 1)
  { }

  lemma WrapGap(x: nat, o: nat)
    requires x < UINT16 && o <= UINT16
    ensures (x - o) % UINT64 == if x >= o then x - o else x - o + UINT64
    ensures x >= o ==> o % UINT16 == o
  { }

  lemma UndoStep(ds: seq<nat>, o: nat)
    requires ds != []
    ensures ds[0] + o >= UINT16 ==> Undo(ds, o) == None
    ensures ds[0] + o < UINT16 ==> Undo(ds, o) == Prepend([ds[0] + o], Undo(ds[1..], (ds[0] + o + 1) % UINT16))
  { }

  function Total(ds: seq<nat>): nat { if ds == [] then 0 else ds[0] + 1 + Total(ds[1..]) }

  /** What is read is strictly increasing exactly when the last index, counted without wrapping, fits. */
  lemma RisingIff(ds: seq<nat>)
    ensures (Undo(ds, 0).Some? && Rising(Undo(ds, 0).value)) <==> Total(ds) <= UINT16
    ensures Total(ds) <= UINT16 ==> Gaps(Undo(ds, 0).value, 0) == ds
  {
    RisingFrom(ds, 0);
    assert 0 % UINT16 == 0;
  }

  /** The claim for an offset. */
  ghost predicate RisesIff(ds: seq<nat>, o: nat) {
    var r := Undo(ds, o % UINT16);
    (RisesFrom(r, o) <==> o + Total(ds) <= UINT16) && (RisesFrom(r, o) ==> Gaps(r.value, o) == ds)
  }

  lemma {:induction false} RisingFrom(ds: seq<nat>, o: nat)
    requires o <= UINT16
    ensures RisesIff(ds, o)
  {
    hide RisesIff;
    if ds == [] {
      RisesNone(o);
    } else if o < UINT16 && ds[0] + o < UINT16 {
      RisingFrom(ds[1..], ds[0] + o + 1);
      RisesStep(ds, o);
    } else {
      RisesTooFar(ds, o);
    }
  }

  lemma RisesNone(o: nat)
    requires o <= UINT16
    ensures RisesIff([], o)
  { }

  lemma RisesTooFar(ds: seq<nat>, o: nat)
    requires ds != [] && o <= UINT16 && !(o < UINT16 && ds[0] + o < UINT16)
    ensures RisesIff(ds, o)
  {
    UndoStep(ds, o % UINT16);
    hide Undo;
  }

  lemma TotalStep(ds: seq<nat>)
    requires ds != []
    ensures Total(ds) == ds[0] + 1 + Total(ds[1..])
  { }

  lemma RisesStep(ds: seq<nat>, o: nat)
    requires ds != [] && o < UINT16 && ds[0] + o < UINT16 && RisesIff(ds[1..], ds[0] + o + 1)
    ensures RisesIff(ds, o)
  {
    hide Undo, Total, Gaps, Rising;
    assert o % UINT16 == o;
    UndoStep(ds, o);
    TotalStep(ds);
    RisesCons(ds, o, Undo(ds[1..], (ds[0] + o + 1) % UINT16));
  }

  ghost predicate RisesFrom(r: Option<seq<nat>>, o: nat) {
    r.Some? && Rising(r.value) && (r.value == [] || r.value[0] >= o)
  }

  lemma RisesCons(ds: seq<nat>, o: nat, rest: Option<seq<nat>>)
    requires ds != [] && o < UINT16 && ds[0] + o < UINT16
    ensures RisesFrom(Prepend([ds[0] + o], rest), o) <==> RisesFrom(rest, ds[0] + o + 1)
    ensures rest.Some? && Gaps(rest.value, ds[0] + o + 1) == ds[1..] ==> Gaps([ds[0] + o] + rest.value, o) == ds
  {
    if rest.Some? {
      RisingCons(ds[0] + o, rest.value);
      assert ([ds[0] + o] + rest.value)[1..] == rest.value;
      assert ds == [ds[0]] + ds[1..];
    }
  }

  /** After index 65535 the running offset is 0 again. */
  lemma OffsetWraps()
    ensures Undo([0xFFFF, 3], 0) == Some([0xFFFF, 3]) && !Rising([0xFFFF, 3])
  {
    var s: seq<nat>, t: seq<nat> := [0xFFFF, 3], [3];
    assert s[1..] == t && t[1..] == [];
    assert Undo(t[1..], 4) == Some([]);
    assert t + [] == t && [0xFFFF] + t == s;
    assert Undo(t, 0) == Some(t);
    assert s[0] > s[1];
  }

  method WriteIndexes(indexes: seq<nat>) returns (ds: seq<nat>)
    ensures ds == Gaps(indexes, 0)
  {
    ds := [];
    ghost var all := Gaps(indexes, 0);
    assert indexes[0..] == indexes && all[0..] == all;
    hide Gaps;
    var i := 0;
    while i < |indexes|
      invariant 0 <= i <= |indexes| && i <= |all| && ds == all[..i]
      invariant all[i..] == Gaps(indexes[i..], if i == 0 then 0 else indexes[i - 1] + 1)
    {
      var index := (indexes[i] - (if i == 0 then 0 else indexes[i - 1] + 1)) % UINT64;
      GapsNext(indexes, i, if i == 0 then 0 else indexes[i - 1] + 1, all);
      ds := ds + [index];
      i := i + 1;
    }
    GapsNone(if i == 0 then 0 else indexes[i - 1] + 1);
    assert indexes[i..] == [];
  }

  lemma GapsNext(xs: seq<nat>, i: nat, o: nat, all: seq<nat>)
    requires i < |xs| && i <= |all| && all[i..] == Gaps(xs[i..], o)
    ensures i < |all| && all[i] == (xs[i] - o) % UINT64 && all[i + 1..] == Gaps(xs[i + 1..], xs[i] + 1)
  {
    GapsStep(xs[i..], o);
    hide Gaps;
    assert xs[i..][1..] == xs[i + 1..] && xs[i..][0] == xs[i];
    assert all[i] == all[i..][0] && all[i + 1..] == all[i..][1..];
  }

  lemma GapsNone(o: nat)
    ensures Gaps([], o) == []
  { }

  /** Reads the gaps, growing the list a thousand at a time, and adds them up in place. */
  method ReadIndexes(ds: seq<nat>) returns (ok: bool, indexes: seq<nat>)
    ensures ok <==> Undo(ds, 0).Some?
    ensures ok ==> Undo(ds, 0).value == indexes
  {
    indexes := [];
    var i := 0;
    while |indexes| < |ds|
      invariant i == |indexes| <= |ds| && indexes == ds[..i] && forall k :: 0 <= k < i ==> ds[k] < UINT16
    {
      var size := if 1000 + |indexes| < |ds| then 1000 + |indexes| else |ds|;
      indexes := indexes + seq(size - |indexes|, k => 0);
      while i < |indexes|
        invariant i <= |indexes| == size <= |ds| && indexes[..i] == ds[..i] && forall k :: 0 <= k < i ==> ds[k] < UINT16
      {
        var index := ds[i];
        if index >= UINT16 {
          TooLarge(ds, i, 0);
          return false, [];
        }
        indexes := indexes[i := index];
        i := i + 1;
      }
    }
    assert indexes == ds;
    var offset := 0;
    assert ds[0..] == ds;
    PrependNothing(Undo(ds, 0));
    for k := 0 to |ds|
      invariant 0 <= offset < UINT16 && |indexes| == |ds| && indexes[k..] == ds[k..]
      invariant Undo(ds, 0) == Prepend(indexes[..k], Undo(ds[k..], offset))
    {
      assert indexes[k] == indexes[k..][0] == ds[k..][0] && ds[k..][1..] == ds[k + 1..];
      if indexes[k] + offset >= UINT16 { return false, []; }
      ghost var before := indexes;
      indexes := indexes[k := indexes[k] + offset];
      PrependMore(before[..k], [indexes[k]], Undo(ds[k + 1..], (indexes[k] + 1) % UINT16));
      assert indexes[..k + 1] == before[..k] + [indexes[k]];
      assert indexes[k + 1..] == before[k..][1..];
      offset := (indexes[k] + 1) % UINT16;
    }
    assert indexes[..|ds|] == indexes && indexes + [] == indexes;
    ok := true;
  }

  lemma {:induction false} TooLarge(ds: seq<nat>, i: nat, o: nat)
    requires i < |ds| && ds[i] >= UINT16
    ensures Undo(ds, o) == None
  {
    if i > 0 && ds[0] + o < UINT16 { TooLarge(ds[1..], i - 1, (ds[0] + o + 1) % UINT16); }
  }
}

/** Compact blocks (BIP 152): a block sent as short ids and a few whole transactions, filled in from the
    mempool, with a differential list of indexes to ask for the rest. */
module CompactBlocks {
  import opened Wrappers
  import RequestCodec

  const MAX_BLOCK_BASE_SIZE := 2_000_000
  const MIN_TRANSACTION_BASE_SIZE := 10

  datatype Tx = Tx(hash: nat, vin: seq<int>, vout: seq<int>)
  {
    predicate IsNull() { vin == [] && vout == [] }
  }

  /** A transaction sent whole; index counts from the one before it. */
  datatype Prefilled = Prefilled(index: nat, tx: Tx)

  datatype CompactBlock = CompactBlock(headerIsNull: bool, shorttxids: seq<nat>, prefilledtxn: seq<Prefilled>)

  type Slots = seq<Option<Tx>>

  datatype ReadStatus = Ok | Invalid | Failed | CheckBlockFailed

  // ----- Where transactions go -----

  /** The slot of the n-th transaction sent whole, counting from 1. */
  function Place(p: seq<Prefilled>, n: nat): int
    requires n <= |p|
  {
    if n == 0 then -1 else Place(p, n - 1) + p[n - 1].index + 1
  }

  /** Every whole transaction has a slot that the short ids and the ones before it reach up to. */
  ghost predicate WellPlaced(c: CompactBlock) {
    forall n :: 0 < n <= |c.prefilledtxn| ==> PlacedAt(c, n)
  }

  ghost predicate PlacedAt(c: CompactBlock, n: nat)
    requires 0 < n <= |c.prefilledtxn|
  {
    !c.prefilledtxn[n - 1].tx.IsNull() && Place(c.prefilledtxn, n) < UINT16 &&
    Place(c.prefilledtxn, n) <= |c.shorttxids| + n - 1
  }

  function Count(c: CompactBlock): nat { |c.shorttxids| + |c.prefilledtxn| }

  lemma {:induction false} PlaceGrows(p: seq<Prefilled>, m: nat, n: nat)
    requires m <= n <= |p|
    ensures Place(p, m) + n - m <= Place(p, n) && Place(p, n) >= -1
  {
    if m < n { PlaceGrows(p, m, n - 1); } else if n > 0 { PlaceGrows(p, n - 1, n - 1); }
  }

  /** The slots once n of the whole transactions are in place. */
  ghost function Prefill(c: CompactBlock, n: nat): Slots
    requires n <= |c.prefilledtxn|
  {
    seq(Count(c), k requires k >= 0 => At(c.prefilledtxn, n, k))
  }

  /** What the first n whole transactions put in slot k. */
  ghost function At(p: seq<Prefilled>, n: nat, k: int): Option<Tx>
    requires n <= |p|
  {
    if n == 0 then None else if Place(p, n) == k then Some(p[n - 1].tx) else At(p, n - 1, k)
  }

  /** Nothing is put in a slot twice, and each one put in stays. */
  lemma {:induction false} AtPlace(p: seq<Prefilled>, n: nat, j: nat)
    requires 0 < j <= n <= |p|
    ensures At(p, n, Place(p, j)) == Some(p[j - 1].tx)
  {
    if j < n {
      PlaceGrows(p, j, n);
      AtPlace(p, n - 1, j);
    }
  }

  lemma {:induction false} AtBeyond(p: seq<Prefilled>, n: nat, k: int)
    requires n <= |p| && k > Place(p, n)
    ensures At(p, n, k) == None
  {
    if n > 0 {
      PlaceGrows(p, n - 1, n);
      AtBeyond(p, n - 1, k);
    }
  }

  /** The empty slots from k on. */
  function Empty(a: Slots, k: nat): seq<nat>
    decreases |a| - k
  {
    if k >= |a| then [] else (if a[k].None? then [k] else []) + Empty(a, k + 1)
  }

  lemma {:induction false} EmptyIs(a: Slots, k: nat)
    ensures forall i :: 0 <= i < |Empty(a, k)| ==> k <= Empty(a, k)[i] < |a| && a[Empty(a, k)[i]].None?
    ensures forall i, j :: 0 <= i < j < |Empty(a, k)| ==> Empty(a, k)[i] < Empty(a, k)[j]
    ensures forall q :: k <= q < |a| && a[q].None? ==> q in Empty(a, k)
    decreases |a| - k
  {
    if k < |a| { EmptyIs(a, k + 1); }
  }

  /** How many slots there are from k on, empty or not. */
  lemma {:induction false} EmptyCount(c: CompactBlock, n: nat, k: nat)
    requires n <= |c.prefilledtxn| && WellPlaced(c) && k <= Count(c)
    requires forall m :: 0 < m <= n ==> Place(c.prefilledtxn, m) < Count(c)
    ensures |Empty(Prefill(c, n), k)| == Count(c) - k - Above(c.prefilledtxn, n, k)
    decreases Count(c) - k
  {
    if k < Count(c) {
      EmptyCount(c, n, k + 1);
      AboveStep(c.prefilledtxn, n, k);
    } else {
      NoneAbove(c.prefilledtxn, n, k);
    }
  }

  /** How many of the first n whole transactions are at slot k or after it. */
  ghost function Above(p: seq<Prefilled>, n: nat, k: int): nat
    requires n <= |p|
  {
    if n == 0 then 0 else Above(p, n - 1, k) + (if Place(p, n) >= k then 1 else 0)
  }

  lemma {:induction false} AboveStep(p: seq<Prefilled>, n: nat, k: int)
    requires n <= |p|
    ensures Above(p, n, k) == Above(p, n, k + 1) + (if At(p, n, k).Some? then 1 else 0)
  {
    if n > 0 {
      AboveStep(p, n - 1, k);
      if Place(p, n) == k {
        PlaceGrows(p, n - 1, n);
        AtBeyond(p, n - 1, k);
      }
    }
  }

  lemma {:induction false} NoneAbove(p: seq<Prefilled>, n: nat, k: int)
    requires n <= |p| && forall m :: 0 < m <= n ==> Place(p, m) < k
    ensures Above(p, n, k) == 0
  {
    if n > 0 { NoneAbove(p, n - 1, k); }
  }

  lemma {:induction false} AllAbove(p: seq<Prefilled>, n: nat)
    requires n <= |p|
    ensures Above(p, n, 0) == n
  {
    if n > 0 {
      AllAbove(p, n - 1);
      PlaceGrows(p, n - 1, n);
      PlaceGrows(p, 0, n - 1);
    }
  }

  /** The transactions not sent whole have as many slots left as there are short ids. */
  lemma RoomForShortIds(c: CompactBlock)
    requires WellPlaced(c)
    ensures |Empty(Prefill(c, |c.prefilledtxn|), 0)| == |c.shorttxids|
  {
    var p := c.prefilledtxn;
    forall m | 0 < m <= |p| ensures Place(p, m) < Count(c) { assert PlacedAt(c, m); }
    EmptyCount(c, |p|, 0);
    AllAbove(p, |p|);
  }

  // ----- Short ids -----

  ghost predicate Distinct(s: seq<nat>) { forall i, j :: 0 <= i < j < |s| ==> s[i] != s[j] }

  /** Short ids with their slots, the first n of them; of equal ids the last one counts. */
  ghost function Assigned(ids: seq<nat>, slots: seq<nat>, n: nat): map<nat, nat>
    requires n <= |ids| && n <= |slots|
  {
    if n == 0 then map[] else Assigned(ids, slots, n - 1)[ids[n - 1] := slots[n - 1]]
  }

  lemma {:induction false} AssignedIs(ids: seq<nat>, slots: seq<nat>, n: nat)
    requires n <= |ids| && n <= |slots|
    ensures |Assigned(ids, slots, n)| <= n
    ensures Assigned(ids, slots, n).Keys == set i | 0 <= i < n :: ids[i]
    ensures |Assigned(ids, slots, n)| == n <==> Distinct(ids[..n])
    ensures Distinct(ids[..n]) ==> forall i :: 0 <= i < n ==> Assigned(ids, slots, n)[ids[i]] == slots[i]
  {
    if n > 0 {
      AssignedIs(ids, slots, n - 1);
      AddedKey(Assigned(ids, slots, n - 1), ids[n - 1], slots[n - 1]);
      DistinctSnoc(ids, n - 1);
    }
  }

  lemma AddedKey(m: map<nat, nat>, x: nat, y: nat)
    ensures |m[x := y]| == |m| + (if x in m then 0 else 1)
  {
    assert m[x := y].Keys == m.Keys + {x};
    if x in m { assert m.Keys + {x} == m.Keys; }
  }

  lemma DistinctSnoc(ids: seq<nat>, n: nat)
    requires n < |ids|
    ensures Distinct(ids[..n + 1]) <==> Distinct(ids[..n]) && ids[n] !in (set i | 0 <= i < n :: ids[i])
  {
    if Distinct(ids[..n + 1]) {
      assert forall i :: 0 <= i < n ==> ids[..n + 1][i] == ids[i];
      assert ids[..n + 1][n] == ids[n];
    }
  }

  // ----- The mempool -----

  /** The transactions among the first n that have a short id. */
  function Matches(pool: seq<Tx>, sid: Tx -> nat, n: nat, id: nat): seq<Tx>
    requires n <= |pool|
  {
    if n == 0 then []
    else Matches(pool, sid, n - 1, id) + (if sid(pool[n - 1]) == id then [pool[n - 1]] else [])
  }

  /** A slot is filled by the only match; two matches are as good as none. */
  function Found(ms: seq<Tx>): Option<Tx> { if |ms| == 1 then Some(ms[0]) else None }

  lemma {:induction false} MatchesAre(pool: seq<Tx>, sid: Tx -> nat, n: nat, id: nat)
    requires n <= |pool|
    ensures forall t :: t in Matches(pool, sid, n, id) ==> t in pool && sid(t) == id
    ensures forall i :: 0 <= i < n && sid(pool[i]) == id ==> Matches(pool, sid, n, id) != []
  {
    if n > 0 { MatchesAre(pool, sid, n - 1, id); }
  }

  /** The transactions of the first n with an id, by their places in the mempool. */
  ghost function MatchPlaces(pool: seq<Tx>, sid: Tx -> nat, n: nat, id: nat): set<int>
    requires n <= |pool|
  { set i | 0 <= i < n && sid(pool[i]) == id }

  /** What is found is the transaction with the id if there is just one, and nothing if there is none or are several. */
  lemma FoundIs(pool: seq<Tx>, sid: Tx -> nat, n: nat, id: nat)
    requires n <= |pool|
    ensures var places, o := MatchPlaces(pool, sid, n, id), Found(Matches(pool, sid, n, id));
      (o.Some? <==> |places| == 1) && (o.Some? ==> forall i :: i in places ==> o.value == pool[i])
  {
    MatchesCount(pool, sid, n, id);
    var places, ms := MatchPlaces(pool, sid, n, id), Matches(pool, sid, n, id);
    if |ms| == 1 {
      forall i | i in places ensures ms[0] == pool[i] { assert pool[i] in ms; }
    }
  }

  lemma {:induction false} MatchesCount(pool: seq<Tx>, sid: Tx -> nat, n: nat, id: nat)
    requires n <= |pool|
    ensures |Matches(pool, sid, n, id)| == |MatchPlaces(pool, sid, n, id)|
    ensures forall i :: i in MatchPlaces(pool, sid, n, id) ==> pool[i] in Matches(pool, sid, n, id)
  {
    if n == 0 {
      assert MatchPlaces(pool, sid, 0, id) == {};
    } else {
      MatchesCount(pool, sid, n - 1, id);
      assert MatchPlaces(pool, sid, n, id) ==
        MatchPlaces(pool, sid, n - 1, id) + if sid(pool[n - 1]) == id then {n - 1} else {};
    }
  }

  /** The slots after n transactions of the mempool were looked at, starting from a0. */
  ghost predicate Scanned(a0: Slots, a: Slots, have: seq<bool>, ids: seq<nat>, slots: seq<nat>, pool: seq<Tx>,
                          sid: Tx -> nat, n: nat)
    requires n <= |pool|
  {
    && |a| == |a0| == |have| && |ids| == |slots|
    && (forall i :: 0 <= i < |slots| ==>
          slots[i] < |a| && FromPool(a[slots[i]], have[slots[i]], Matches(pool, sid, n, ids[i])))
    && (forall k :: 0 <= k < |a| && k !in slots ==> a[k] == a0[k])
  }

  ghost predicate FromPool(o: Option<Tx>, have: bool, ms: seq<Tx>) { o == Found(ms) && (have <==> ms != []) }

  /** One more transaction of the mempool, and the slot it goes to or empties. */
  lemma ScanStep(a0: Slots, a: Slots, have: seq<bool>, ids: seq<nat>, slots: seq<nat>, pool: seq<Tx>, sid: Tx -> nat,
                 n: nat, i: nat)
    requires n < |pool| && Scanned(a0, a, have, ids, slots, pool, sid, n) && Distinct(ids) && Distinct(slots)
    requires i < |ids| && ids[i] == sid(pool[n])
    ensures slots[i] < |a|
    ensures Scanned(a0, a[slots[i] := if have[slots[i]] then None else Some(pool[n])], have[slots[i] := true], ids,
      slots, pool, sid, n + 1)
  {
    var k := slots[i];
    var a', have' := a[k := if have[k] then None else Some(pool[n])], have[k := true];
    forall j | 0 <= j < |slots| ensures FromPool(a'[slots[j]], have'[slots[j]], Matches(pool, sid, n + 1, ids[j])) {
      if j == i { OneMore(pool, sid, n, ids[i], a[k], have[k]); } else { assert slots[j] != k && ids[j] != ids[i]; }
    }
  }

  lemma OneMore(pool: seq<Tx>, sid: Tx -> nat, n: nat, id: nat, o: Option<Tx>, have: bool)
    requires n < |pool| && sid(pool[n]) == id && FromPool(o, have, Matches(pool, sid, n, id))
    ensures FromPool(if have then None else Some(pool[n]), true, Matches(pool, sid, n + 1, id))
  { }

  lemma ScanSkip(a0: Slots, a: Slots, have: seq<bool>, ids: seq<nat>, slots: seq<nat>, pool: seq<Tx>, sid: Tx -> nat,
                 n: nat)
    requires n < |pool| && Scanned(a0, a, have, ids, slots, pool, sid, n) && sid(pool[n]) !in ids
    ensures Scanned(a0, a, have, ids, slots, pool, sid, n + 1)
  {
    forall j | 0 <= j < |slots| ensures FromPool(a[slots[j]], have[slots[j]], Matches(pool, sid, n + 1, ids[j])) {
      assert ids[j] in ids;
    }
  }

  /** How many of the first n slots are filled. */
  ghost function Filled(a: Slots, slots: seq<nat>, n: nat): nat
    requires n <= |slots| && forall i :: 0 <= i < |slots| ==> slots[i] < |a|
  {
    if n == 0 then 0 else Filled(a, slots, n - 1) + (if a[slots[n - 1]].Some? then 1 else 0)
  }

  lemma {:induction false} FilledAll(a: Slots, slots: seq<nat>, n: nat)
    requires n <= |slots| && forall i :: 0 <= i < |slots| ==> slots[i] < |a|
    ensures Filled(a, slots, n) <= n
    ensures Filled(a, slots, n) == n <==> forall i :: 0 <= i < n ==> a[slots[i]].Some?
  {
    if n > 0 { FilledAll(a, slots, n - 1); }
  }

  lemma {:induction false} FilledUpdate(a: Slots, slots: seq<nat>, n: nat, i: nat, o: Option<Tx>)
    requires n <= |slots| && (forall i :: 0 <= i < |slots| ==> slots[i] < |a|) && Distinct(slots) && i < |slots|
    ensures Filled(a[slots[i] := o], slots, n) ==
      Filled(a, slots, n) + (if i < n then (if o.Some? then 1 else 0) - (if a[slots[i]].Some? then 1 else 0) else 0)
  {
    if n > 0 { FilledUpdate(a, slots, n - 1, i, o); }
  }

  // ----- Filling the slots -----

  ghost function SlotsLeft(c: CompactBlock): seq<nat> { Empty(Prefill(c, |c.prefilledtxn|), 0) }

  /** The slots hold the whole transactions and what n transactions of the mempool fill. */
  ghost predicate Holds(a: Slots, c: CompactBlock, pool: seq<Tx>, sid: Tx -> nat, n: nat) {
    && n <= |pool| && |a| == Count(c) && |SlotsLeft(c)| == |c.shorttxids|
    && (forall k :: 0 <= k < |a| && k !in SlotsLeft(c) ==> a[k] == At(c.prefilledtxn, |c.prefilledtxn|, k))
    && (forall i :: 0 <= i < |c.shorttxids| ==>
          SlotsLeft(c)[i] < |a| && a[SlotsLeft(c)[i]] == Found(Matches(pool, sid, n, c.shorttxids[i])))
  }

  /** The whole mempool was looked at, unless nothing is missing any more. */
  ghost predicate Filling(a: Slots, c: CompactBlock, pool: seq<Tx>, sid: Tx -> nat) {
    exists n: nat :: Holds(a, c, pool, sid, n) && (n == |pool| || forall k :: 0 <= k < |a| ==> a[k].Some?)
  }

  ghost predicate IsValid(c: CompactBlock) {
    !c.headerIsNull && Count(c) > 0 && Count(c) <= MAX_BLOCK_BASE_SIZE / MIN_TRANSACTION_BASE_SIZE && WellPlaced(c)
  }

  /** The sum of the first n gaps. */
  function GapSum(p: seq<Prefilled>, n: nat): nat
    requires n <= |p|
  { if n == 0 then 0 else GapSum(p, n - 1) + p[n - 1].index }

  lemma {:induction false} PlaceIsGaps(p: seq<Prefilled>, n: nat)
    requires n <= |p|
    ensures Place(p, n) == GapSum(p, n) + n - 1 && GapSum(p, n) <= GapSum(p, |p|)
    decreases |p| - n
  {
    if n < |p| {
      PlaceIsGaps(p, n + 1);
    } else {
      GapsUpTo(p, n);
    }
  }

  lemma {:induction false} GapsUpTo(p: seq<Prefilled>, n: nat)
    requires n <= |p|
    ensures Place(p, n) == GapSum(p, n) + n - 1
  {
    if n > 0 { GapsUpTo(p, n - 1); }
  }

  /** A message is valid exactly if it has a header and 1 to 200000 transactions, none of the whole ones is null, and
      the gaps before these come to no more than the short ids and leave the last one below slot 65536. */
  lemma ValidIs(c: CompactBlock)
    ensures var p := c.prefilledtxn;
      IsValid(c) <==>
        && !c.headerIsNull && 1 <= |c.shorttxids| + |p| <= 200_000
        && (forall i :: 0 <= i < |p| ==> !(p[i].tx.vin == [] && p[i].tx.vout == []))
        && GapSum(p, |p|) <= |c.shorttxids| && GapSum(p, |p|) + |p| <= 65536
  {
    var p := c.prefilledtxn;
    forall n | 0 < n <= |p|
      ensures Place(p, n) == GapSum(p, n) + n - 1 && GapSum(p, n) <= GapSum(p, |p|)
    {
      PlaceIsGaps(p, n);
    }
    if IsValid(c) {
      forall i | 0 <= i < |p| ensures !(p[i].tx.vin == [] && p[i].tx.vout == []) { assert PlacedAt(c, i + 1); }
      if p != [] { assert PlacedAt(c, |p|); }
    } else if |p| == 0 {
      assert GapSum(p, 0) == 0;
    }
  }

  ghost predicate InSlots(c: CompactBlock, n: nat) {
    |SlotsLeft(c)| == |c.shorttxids| && forall i :: 0 <= i < |SlotsLeft(c)| ==> SlotsLeft(c)[i] < n
  }

  /** Slots are kept as 16-bit numbers, which hold them all exactly when the block has at most 65536
      transactions. */
  lemma SlotsFit(c: CompactBlock)
    requires WellPlaced(c)
    ensures Count(c) <= UINT16 <==> forall i :: 0 <= i < |SlotsLeft(c)| ==> SlotsLeft(c)[i] % UINT16 == SlotsLeft(c)[i]
  {
    var a := Prefill(c, |c.prefilledtxn|);
    EmptyIs(a, 0);
    if Count(c) > UINT16 {
      var last := Count(c) - 1;
      if |c.prefilledtxn| > 0 { assert PlacedAt(c, |c.prefilledtxn|); }
      AtBeyond(c.prefilledtxn, |c.prefilledtxn|, last);
      assert a[last].None?;
      var i :| 0 <= i < |SlotsLeft(c)| && SlotsLeft(c)[i] == last;
      assert SlotsLeft(c)[i] % UINT16 < SlotsLeft(c)[i];
    }
  }

  // ----- Looking through the mempool -----

  /** The slots, which of them were ever matched, and how many matches are in place. */
  datatype Scan = Scan(a: Slots, have: seq<bool>, count: int)

  /** What a match for slot k does. */
  function Taking(st: Scan, k: nat, tx: Tx): Scan
    requires k < |st.a| && k < |st.have|
  {
    if !st.have[k] then Scan(st.a[k := Some(tx)], st.have[k := true], st.count + 1)
    else if st.a[k].Some? then Scan(st.a[k := None], st.have, st.count - 1)
    else st
  }

  function Looking(ids: map<nat, nat>, st: Scan, id: nat, tx: Tx): Scan {
    if id in ids && ids[id] < |st.a| && ids[id] < |st.have| then Taking(st, ids[id], tx) else st
  }

  /** After n transactions of the mempool. */
  function ScanTo(ids: map<nat, nat>, a0: Slots, pool: seq<Tx>, sid: Tx -> nat, n: nat): Scan
    requires n <= |pool|
  {
    if n == 0 then Scan(a0, seq(|a0|, i => false), 0)
    else Looking(ids, ScanTo(ids, a0, pool, sid, n - 1), sid(pool[n - 1]), pool[n - 1])
  }

  /** The search ends with the mempool, or as soon as there are as many matches as short ids. */
  ghost predicate StopsAt(ids: map<nat, nat>, a0: Slots, pool: seq<Tx>, sid: Tx -> nat, n: nat) {
    && n <= |pool|
    && (forall m :: 0 < m < n ==> ScanTo(ids, a0, pool, sid, m).count != |ids|)
    && (n == |pool| || (n > 0 && ScanTo(ids, a0, pool, sid, n).count == |ids|))
  }

  ghost predicate Shows(st: Scan, a: Slots, count: int) { st.a == a && st.count == count }

  /** The matches that are in place. */
  ghost function InPlace(st: Scan): set<int> {
    set k | 0 <= k < |st.a| && k < |st.have| && st.have[k] && st.a[k].Some?
  }

  lemma ScanStart(ids: map<nat, nat>, a0: Slots, pool: seq<Tx>, sid: Tx -> nat)
    ensures ScanTo(ids, a0, pool, sid, 0) == Scan(a0, seq(|a0|, i => false), 0)
  { }

  lemma ScanNext(ids: map<nat, nat>, a0: Slots, pool: seq<Tx>, sid: Tx -> nat, n: nat)
    requires n < |pool|
    ensures ScanTo(ids, a0, pool, sid, n + 1) == Looking(ids, ScanTo(ids, a0, pool, sid, n), sid(pool[n]), pool[n])
  { }

  /** The count is exact, so it never goes below zero. */
  lemma {:induction false} ScanCounts(ids: map<nat, nat>, a0: Slots, pool: seq<Tx>, sid: Tx -> nat, n: nat)
    requires n <= |pool|
    ensures var st := ScanTo(ids, a0, pool, sid, n);
      |st.a| == |a0| == |st.have| && st.count == |InPlace(st)| &&
      forall k :: 0 <= k < |st.a| && st.have[k] && st.a[k].Some? ==> st.count > 0
  {
    if n > 0 {
      ScanCounts(ids, a0, pool, sid, n - 1);
      var st, id := ScanTo(ids, a0, pool, sid, n - 1), sid(pool[n - 1]);
      if id in ids && ids[id] < |st.a| { TakingCounts(st, ids[id], pool[n - 1]); }
    } else {
      assert InPlace(ScanTo(ids, a0, pool, sid, 0)) == {};
    }
    var st := ScanTo(ids, a0, pool, sid, n);
    forall k | 0 <= k < |st.a| && st.have[k] && st.a[k].Some? ensures st.count > 0 { assert k in InPlace(st); }
  }

  lemma TakingCounts(st: Scan, k: nat, tx: Tx)
    requires k < |st.a| == |st.have| && st.count == |InPlace(st)|
    ensures Taking(st, k, tx).count == |InPlace(Taking(st, k, tx))|
  {
    var st' := Taking(st, k, tx);
    if !st.have[k] {
      assert InPlace(st') == InPlace(st) + {k};
    } else if st.a[k].Some? {
      assert InPlace(st') == InPlace(st) - {k};
    }
  }

  /** If every short id has a free slot to itself, the search finds exactly the only matches. */
  lemma {:induction false} ScanFinds(ids: seq<nat>, slots: seq<nat>, m: map<nat, nat>, a0: Slots, pool: seq<Tx>,
                                     sid: Tx -> nat, n: nat)
    requires n <= |pool| && |ids| == |slots| && Distinct(ids) && Distinct(slots) && m == Assigned(ids, slots, |slots|)
    requires forall i :: 0 <= i < |slots| ==> slots[i] < |a0| && a0[slots[i]].None?
    ensures var st := ScanTo(m, a0, pool, sid, n);
      |st.a| == |a0| && Scanned(a0, st.a, st.have, ids, slots, pool, sid, n) &&
      st.count == Filled(st.a, slots, |slots|)
  {
    hide Matches, Scanned, Filled, Assigned, Distinct;
    ScanCounts(m, a0, pool, sid, n);
    if n == 0 {
      ScannedStart(a0, seq(|a0|, i => false), ids, slots, pool, sid);
      FilledNone(a0, slots, |slots|);
    } else {
      ScanFinds(ids, slots, m, a0, pool, sid, n - 1);
      ScanCounts(m, a0, pool, sid, n - 1);
      IdsAre(ids, slots, m);
      var st, id := ScanTo(m, a0, pool, sid, n - 1), sid(pool[n - 1]);
      if id in m {
        TakingFinds(ids, slots, a0, st, pool, sid, n - 1, IndexIn(ids, id));
      } else {
        ScanSkip(a0, st.a, st.have, ids, slots, pool, sid, n - 1);
      }
    }
  }

  lemma TakingFinds(ids: seq<nat>, slots: seq<nat>, a0: Slots, st: Scan, pool: seq<Tx>, sid: Tx -> nat, n: nat, i: nat)
    requires n < |pool| && Scanned(a0, st.a, st.have, ids, slots, pool, sid, n) && Distinct(ids) && Distinct(slots)
    requires i < |ids| == |slots| && ids[i] == sid(pool[n]) && |st.a| == |a0| == |st.have|
    requires (forall i :: 0 <= i < |slots| ==> slots[i] < |st.a|) && st.count == Filled(st.a, slots, |slots|)
    ensures var st' := Taking(st, slots[i], pool[n]);
      |st'.a| == |a0| && Scanned(a0, st'.a, st'.have, ids, slots, pool, sid, n + 1) &&
      st'.count == Filled(st'.a, slots, |slots|)
  {
    hide Matches, Scanned, Filled, Distinct;
    var k := slots[i];
    ScanStep(a0, st.a, st.have, ids, slots, pool, sid, n, i);
    ScanFlag(a0, st.a, st.have, ids, slots, pool, sid, n, i);
    FilledUpdate(st.a, slots, |slots|, i, if st.have[k] then None else Some(pool[n]));
    if st.have[k] {
      assert st.have[k := true] == st.have;
      if st.a[k].None? { assert st.a[k := None] == st.a; }
    }
  }

  /** A slot as it is kept in the map. */
  ghost function Words(slots: seq<nat>): seq<nat> {
    seq(|slots|, i requires 0 <= i < |slots| => slots[i] % UINT16)
  }

  ghost function SlotMap(c: CompactBlock): map<nat, nat>
    requires |SlotsLeft(c)| == |c.shorttxids|
  { Assigned(c.shorttxids, Words(SlotsLeft(c)), |c.shorttxids|) }

  /** What setting up a block leaves in the slots, and its count of matches. */
  ghost predicate Outcome(c: CompactBlock, a: Slots, count: int, pool: seq<Tx>, sid: Tx -> nat) {
    |SlotsLeft(c)| == |c.shorttxids| &&
    exists n ::
      StopsAt(SlotMap(c), Prefill(c, |c.prefilledtxn|), pool, sid, n) &&
      Shows(ScanTo(SlotMap(c), Prefill(c, |c.prefilledtxn|), pool, sid, n), a, count)
  }

  /** With 65536 whole transactions in the first slots, a 16-bit offset never reaches a free one: the search
      for the first short id's slot does not end. */
  ghost predicate Endless(c: CompactBlock) {
    IsValid(c) && c.shorttxids != [] && |c.prefilledtxn| >= UINT16
  }

  lemma NothingInReach(c: CompactBlock, offset: nat)
    requires Endless(c) && offset < UINT16
    ensures offset < Count(c) && Prefill(c, |c.prefilledtxn|)[offset].Some?
  {
    var p := c.prefilledtxn;
    assert PlacedAt(c, UINT16);
    if |p| > UINT16 {
      assert PlacedAt(c, |p|);
      PlaceGrows(p, 0, |p|);
    }
    PlaceGrows(p, 0, offset + 1);
    PlaceGrows(p, offset + 1, UINT16);
    AtPlace(p, |p|, offset + 1);
  }

  /** The offset to the i-th free slot is the number of whole transactions before it. */
  lemma OffsetSmall(c: CompactBlock, i: nat, r: nat)
    requires WellPlaced(c) && |c.prefilledtxn| < UINT16 && i + r < Count(c)
    requires |Empty(Prefill(c, |c.prefilledtxn|), i + r)| == |c.shorttxids| - i
    requires Prefill(c, |c.prefilledtxn|)[i + r].Some?
    ensures r + 1 < UINT16
  {
    var p := c.prefilledtxn;
    forall m | 0 < m <= |p| ensures Place(p, m) < Count(c) { assert PlacedAt(c, m); }
    EmptyCount(c, |p|, i + r);
    AboveStep(p, |p|, i + r);
  }

  lemma WordsInRange(c: CompactBlock)
    requires |SlotsLeft(c)| == |c.shorttxids| && Distinct(c.shorttxids)
    ensures forall id :: id in SlotMap(c) ==> SlotMap(c)[id] < Count(c)
  {
    PrefillSize(c);
    hide Prefill, Empty, Assigned, Distinct, Words;
    EmptyIs(Prefill(c, |c.prefilledtxn|), 0);
    WordsSmaller(SlotsLeft(c));
    IdsAre(c.shorttxids, Words(SlotsLeft(c)), SlotMap(c));
    forall id | id in SlotMap(c) ensures SlotMap(c)[id] < Count(c) {
      var i := IndexIn(c.shorttxids, id);
      assert SlotsLeft(c)[i] in SlotsLeft(c);
    }
  }

  lemma AllKnown(c: CompactBlock, ids: map<nat, nat>)
    requires |SlotsLeft(c)| == |c.shorttxids| && ids == SlotMap(c)
    ensures |ids| == |c.shorttxids| <==> Distinct(c.shorttxids)
    ensures |Prefill(c, |c.prefilledtxn|)| == Count(c)
    ensures Distinct(c.shorttxids) ==> forall id :: id in ids ==> ids[id] < Count(c)
    ensures forall pool, sid, n {:trigger ScanTo(ids, Prefill(c, |c.prefilledtxn|), pool, sid, n)} ::
      0 <= n <= |pool| ==> |ScanTo(ids, Prefill(c, |c.prefilledtxn|), pool, sid, n).a| == Count(c)
  {
    var words, a0 := Words(SlotsLeft(c)), Prefill(c, |c.prefilledtxn|);
    AssignedIs(c.shorttxids, words, |words|);
    assert c.shorttxids[..|words|] == c.shorttxids;
    PrefillSize(c);
    if Distinct(c.shorttxids) { WordsInRange(c); }
    hide Prefill, Empty, Assigned, ScanTo;
    forall pool: seq<Tx>, sid: Tx -> nat, n | 0 <= n <= |pool|
      ensures |ScanTo(ids, a0, pool, sid, n).a| == Count(c)
    { ScanCounts(ids, a0, pool, sid, n); }
  }

  lemma WordsSmaller(slots: seq<nat>)
    ensures |Words(slots)| == |slots| && forall i :: 0 <= i < |slots| ==> Words(slots)[i] <= slots[i]
  { }

  class PartiallyDownloadedBlock {
    var headerIsNull: bool
    var txn_available: Slots
    var prefilled_count: nat
    var mempool_count: nat

    constructor ()
      ensures headerIsNull && txn_available == [] && prefilled_count == 0 && mempool_count == 0
    {
      headerIsNull, txn_available, prefilled_count, mempool_count := true, [], 0, 0;
    }

    /** Puts the whole transactions in their slots; fails at the first that has none. */
    method PlacePrefilled(c: CompactBlock) returns (ok: bool)
      modifies this`txn_available
      ensures ok <==> WellPlaced(c)
      ensures ok ==> txn_available == Prefill(c, |c.prefilledtxn|)
    {
      hide WellPlaced;
      var p := c.prefilledtxn;
      txn_available := seq(Count(c), i => None);
      var lastprefilledindex := -1;
      assert txn_available == Prefill(c, 0);
      for i := 0 to |p|
        invariant lastprefilledindex == Place(p, i) < UINT16 && txn_available == Prefill(c, i)
        invariant forall n :: 0 < n <= i ==> PlacedAt(c, n)
      {
        assert !PlacedAt(c, i + 1) ==> !WellPlaced(c) by { NotWellPlaced(c, i + 1); }
        if p[i].tx.IsNull() { return false; }
        lastprefilledindex := lastprefilledindex + p[i].index + 1;
        PlaceGrows(p, 0, i + 1);
        if lastprefilledindex >= UINT16 { return false; }
        if lastprefilledindex > |c.shorttxids| + i { return false; }
        txn_available := txn_available[lastprefilledindex := Some(p[i].tx)];
        assert txn_available == Prefill(c, i + 1);
      }
      IsWellPlaced(c);
      ok := true;
    }

    /** Finds each short id its slot, kept in 16 bits: the next one that no whole transaction is in. */
    method MapShortIds(c: CompactBlock, crowded: nat -> bool) returns (ok: bool, ids: map<nat, nat>)
      requires WellPlaced(c) && (c.shorttxids == [] || |c.prefilledtxn| < UINT16)
      requires txn_available == Prefill(c, |c.prefilledtxn|)
      ensures |SlotsLeft(c)| == |c.shorttxids|
      ensures ok <==> forall i :: 0 <= i < |c.shorttxids| ==> !crowded(i)
      ensures ok ==> ids == SlotMap(c)
    {
      hide WellPlaced, Prefill, Empty, Assigned;
      PrefillSize(c);
      RoomForShortIds(c);
      ids := map[];
      ghost var slots := SlotsLeft(c);
      ghost var words := Words(slots);
      AssignedStart(c.shorttxids, words);
      var i, index_offset := 0, 0;
      assert slots[0..] == slots;
      while i < |c.shorttxids|
        invariant 0 <= i <= |c.shorttxids| && 0 <= index_offset && ids == Assigned(c.shorttxids, words, i)
        invariant i + index_offset <= |txn_available| && Empty(txn_available, i + index_offset) == slots[i..]
        invariant forall k :: 0 <= k < i ==> !crowded(k)
      {
        index_offset := SkipFull(c, i, index_offset);
        var slot := (i + index_offset) % UINT16;
        NextSlot(slots, i, i + index_offset, Empty(txn_available, i + index_offset + 1));
        AssignedNext(c.shorttxids, words, i);
        ids := ids[c.shorttxids[i] := slot];
        if crowded(i) { return false, ids; }
        i := i + 1;
      }
      ok := true;
    }

    /** The next empty slot from i + index_offset on, as an offset to i: the number of whole transactions
        before it, which 16 bits can count. */
    method SkipFull(c: CompactBlock, i: nat, index_offset: nat) returns (r: nat)
      requires WellPlaced(c) && |c.prefilledtxn| < UINT16 && txn_available == Prefill(c, |c.prefilledtxn|)
      requires i + index_offset <= |txn_available| && i < |c.shorttxids|
      requires |Empty(txn_available, i + index_offset)| == |c.shorttxids| - i
      ensures i + r < |txn_available|
      ensures Empty(txn_available, i + index_offset) == [i + r] + Empty(txn_available, i + r + 1)
    {
      hide Empty, Prefill, WellPlaced;
      PrefillSize(c);
      r := index_offset;
      EmptyStep(txn_available, i + r);
      while txn_available[i + r].Some?
        invariant i + r < |txn_available| && Empty(txn_available, i + r) == Empty(txn_available, i + index_offset)
        decreases |txn_available| - r
      {
        OffsetSmall(c, i, r);
        EmptyStep(txn_available, i + r);
        EmptyStep(txn_available, i + r + 1);
        r := (r + 1) % UINT16;
      }
      EmptyStep(txn_available, i + r);
    }

    /** The first match fills slot k, a second one empties it for good. */
    method TakeMatch(k: nat, tx: Tx, have: seq<bool>) returns (have': seq<bool>)
      requires k < |txn_available| == |have| && (have[k] && txn_available[k].Some? ==> mempool_count > 0)
      modifies this`txn_available, this`mempool_count
      ensures Scan(txn_available, have', mempool_count) ==
        Taking(Scan(old(txn_available), have, old(mempool_count)), k, tx)
    {
      have' := have;
      if !have[k] {
        txn_available := txn_available[k := Some(tx)];
        have' := have[k := true];
        mempool_count := mempool_count + 1;
      } else if txn_available[k].Some? {
        txn_available := txn_available[k := None];
        mempool_count := mempool_count - 1;
      }
    }

    /** Looks for the mempool's transactions among the short ids, until as many are found as there are ids. */
    method FromMempool(ids: map<nat, nat>, pool: seq<Tx>, sid: Tx -> nat)
      requires (forall id :: id in ids ==> ids[id] < |txn_available|) && mempool_count == 0
      modifies this`txn_available, this`mempool_count
      ensures exists n ::
        StopsAt(ids, old(txn_available), pool, sid, n) &&
        Shows(ScanTo(ids, old(txn_available), pool, sid, n), txn_available, mempool_count)
    {
      hide ScanTo;
      ghost var a0 := txn_available;
      var have := seq(|txn_available|, i => false);
      ScanStart(ids, a0, pool, sid);
      var n := 0;
      while n < |pool|
        invariant 0 <= n <= |pool| && |txn_available| == |a0| == |have|
        invariant Scan(txn_available, have, mempool_count) == ScanTo(ids, a0, pool, sid, n)
        invariant forall m :: 0 < m <= n ==> ScanTo(ids, a0, pool, sid, m).count != |ids|
      {
        ScanNext(ids, a0, pool, sid, n);
        ScanCounts(ids, a0, pool, sid, n);
        var shortid := sid(pool[n]);
        if shortid in ids {
          have := TakeMatch(ids[shortid], pool[n], have);
        }
        n := n + 1;
        if mempool_count == |ids| { break; }
      }
      assert Shows(ScanTo(ids, a0, pool, sid, n), txn_available, mempool_count);
      assert StopsAt(ids, a0, pool, sid, n);
    }

    /** Sets up the block from a compact one and the mempool, for every message on which this ends. */
    method InitData(c: CompactBlock, crowded: nat -> bool, pool: seq<Tx>, sid: Tx -> nat) returns (status: ReadStatus)
      requires headerIsNull && txn_available == [] && mempool_count == 0
      requires !Endless(c)
      modifies this
      ensures status == Invalid <==> !IsValid(c)
      ensures status == Failed <==>
        IsValid(c) && (!Distinct(c.shorttxids) || exists i :: 0 <= i < |c.shorttxids| && crowded(i))
      ensures status == Ok || status == Invalid || status == Failed
      ensures status == Ok ==> !headerIsNull && prefilled_count == |c.prefilledtxn|
      ensures status == Ok ==> |txn_available| == Count(c) && Outcome(c, txn_available, mempool_count, pool, sid)
    {
      hide Prefill, Empty, Assigned, WellPlaced;
      if c.headerIsNull || (c.shorttxids == [] && c.prefilledtxn == []) { return Invalid; }
      if |c.shorttxids| + |c.prefilledtxn| > MAX_BLOCK_BASE_SIZE / MIN_TRANSACTION_BASE_SIZE { return Invalid; }
      headerIsNull := c.headerIsNull;
      var ok := PlacePrefilled(c);
      if !ok { return Invalid; }
      prefilled_count := |c.prefilledtxn|;
      status := Failed;
      var ids;
      ok, ids := MapShortIds(c, crowded);
      if ok {
        AllKnown(c, ids);
        if |ids| == |c.shorttxids| {
          FromMempool(ids, pool, sid);
          status := Ok;
        }
      }
    }

    method IsTxAvailable(index: nat) returns (r: bool)
      requires !headerIsNull && index < |txn_available|
      ensures r <==> txn_available[index].Some?
      ensures r <==> index !in Empty(txn_available, 0)
    {
      r := txn_available[index].Some?;
      EmptyIs(txn_available, 0);
    }

    /** The indexes to ask for. */
    method Request() returns (indexes: seq<nat>)
      requires !headerIsNull
      ensures indexes == Empty(txn_available, 0)
    {
      hide Empty;
      indexes := [];
      assert [] + Empty(txn_available, 0) == Empty(txn_available, 0);
      for i := 0 to |txn_available|
        invariant indexes + Empty(txn_available, i) == Empty(txn_available, 0)
      {
        EmptyStep(txn_available, i);
        var available := IsTxAvailable(i);
        if !available {
          assert indexes + ([i] + Empty(txn_available, i + 1)) == indexes + [i] + Empty(txn_available, i + 1);
          indexes := indexes + [i];
        }
      }
      EmptyEnd(txn_available);
      assert indexes + [] == indexes;
    }

    /** The block, with the missing transactions put in the empty slots in order; checked decides what
        becomes of a block that is complete. */
    method FillBlock(vtx_missing: seq<Tx>, checked: ReadStatus) returns (status: ReadStatus, vtx: seq<Tx>)
      requires !headerIsNull
      ensures Merge(txn_available, vtx_missing).None? ==> status == Invalid
      ensures Merge(txn_available, vtx_missing).Some? ==>
        status == checked && vtx == Merge(txn_available, vtx_missing).value
    {
      vtx := [];
      var offset := 0;
      PrependNothing(Merge(txn_available, vtx_missing));
      assert txn_available[0..] == txn_available && vtx_missing[0..] == vtx_missing;
      for i := 0 to |txn_available|
        invariant 0 <= offset <= |vtx_missing|
        invariant Merge(txn_available, vtx_missing) == Prepend(vtx, Merge(txn_available[i..], vtx_missing[offset..]))
      {
        assert txn_available[i..][1..] == txn_available[i + 1..];
        var tx;
        if txn_available[i].None? {
          if |vtx_missing| <= offset { return Invalid, []; }
          tx := vtx_missing[offset];
          assert vtx_missing[offset..][1..] == vtx_missing[offset + 1..];
          offset := offset + 1;
        } else {
          tx := txn_available[i].value;
        }
        PrependMore(vtx, [tx], Merge(txn_available[i + 1..], vtx_missing[offset..]));
        vtx := vtx + [tx];
      }
      if |vtx_missing| != offset { return Invalid, []; }
      assert vtx + [] == vtx;
      status := checked;
    }
  }

  /** As long as the slots fit 16 bits, the outcome is what the messages mean. */
  lemma OutcomeFills(c: CompactBlock, a: Slots, count: int, pool: seq<Tx>, sid: Tx -> nat)
    requires WellPlaced(c) && Count(c) <= UINT16 && Distinct(c.shorttxids) && Outcome(c, a, count, pool, sid)
    ensures Filling(a, c, pool, sid)
    ensures InSlots(c, |a|) && count == Filled(a, SlotsLeft(c), |c.shorttxids|)
  {
    var a0, slots := Prefill(c, |c.prefilledtxn|), SlotsLeft(c);
    SlotsFit(c);
    assert Words(slots) == slots;
    EmptyIs(a0, 0);
    hide Prefill, Empty, WellPlaced, ScanTo, Assigned;
    var n :| StopsAt(SlotMap(c), a0, pool, sid, n) && Shows(ScanTo(SlotMap(c), a0, pool, sid, n), a, count);
    ScanFinds(c.shorttxids, slots, SlotMap(c), a0, pool, sid, n);
    FilledAll(a, slots, |slots|);
    IdsAre(c.shorttxids, slots, SlotMap(c));
    IsFilling(a0, a, ScanTo(SlotMap(c), a0, pool, sid, n).have, c, pool, sid, n);
  }

  lemma IsFilling(a0: Slots, a: Slots, have: seq<bool>, c: CompactBlock, pool: seq<Tx>, sid: Tx -> nat, n: nat)
    requires a0 == Prefill(c, |c.prefilledtxn|) && |SlotsLeft(c)| == |c.shorttxids|
    requires n <= |pool| && Scanned(a0, a, have, c.shorttxids, SlotsLeft(c), pool, sid, n)
    requires n == |pool| || forall i :: 0 <= i < |SlotsLeft(c)| ==> a[SlotsLeft(c)[i]].Some?
    ensures Filling(a, c, pool, sid)
  {
    EmptyIs(a0, 0);
    assert Holds(a, c, pool, sid, n);
    if n < |pool| {
      forall k | 0 <= k < |a| ensures a[k].Some? {
        if k in SlotsLeft(c) { var i :| 0 <= i < |SlotsLeft(c)| && SlotsLeft(c)[i] == k; }
      }
    }
  }

  lemma PrefillSize(c: CompactBlock)
    ensures |Prefill(c, |c.prefilledtxn|)| == Count(c)
  { }

  lemma AssignedStart(ids: seq<nat>, slots: seq<nat>)
    ensures Assigned(ids, slots, 0) == map[]
  { }

  lemma AssignedNext(ids: seq<nat>, slots: seq<nat>, i: nat)
    requires i < |ids| && i < |slots|
    ensures Assigned(ids, slots, i + 1) == Assigned(ids, slots, i)[ids[i] := slots[i]]
  { }

  lemma NextSlot(slots: seq<nat>, i: nat, slot: nat, rest: seq<nat>)
    requires i < |slots| && slots[i..] == [slot] + rest
    ensures slots[i] == slot && slots[i + 1..] == rest
  {
    assert slots[i] == slots[i..][0];
    assert slots[i + 1..] == slots[i..][1..];
  }

  lemma NotWellPlaced(c: CompactBlock, n: nat)
    requires 0 < n <= |c.prefilledtxn|
    ensures !PlacedAt(c, n) ==> !WellPlaced(c)
  { }

  lemma IsWellPlaced(c: CompactBlock)
    requires forall n :: 0 < n <= |c.prefilledtxn| ==> PlacedAt(c, n)
    ensures WellPlaced(c)
  { }

  lemma EmptyEnd(a: Slots)
    ensures Empty(a, |a|) == []
  { }

  lemma EmptyStep(a: Slots, k: nat)
    requires k <= |a|
    ensures Empty(a, k) != [] ==> k < |a|
    ensures k < |a| ==> Empty(a, k) == (if a[k].None? then [k] + Empty(a, k + 1) else Empty(a, k + 1))
  { }

  lemma IdsAre(ids: seq<nat>, slots: seq<nat>, m: map<nat, nat>)
    requires |ids| == |slots| && Distinct(ids) && m == Assigned(ids, slots, |slots|)
    ensures |m| == |ids|
    ensures forall i :: 0 <= i < |ids| ==> ids[i] in m && m[ids[i]] == slots[i]
    ensures forall x :: x in m <==> x in ids
  {
    AssignedIs(ids, slots, |slots|);
    assert ids[..|slots|] == ids;
  }

  ghost function IndexIn(ids: seq<nat>, x: nat): (i: nat)
    requires x in ids
    ensures i < |ids| && ids[i] == x
  {
    if ids[0] == x then 0 else 1 + IndexIn(ids[1..], x)
  }

  lemma ScannedStart(a: Slots, have: seq<bool>, ids: seq<nat>, slots: seq<nat>, pool: seq<Tx>, sid: Tx -> nat)
    requires |ids| == |slots| && |have| == |a| && forall k :: 0 <= k < |have| ==> !have[k]
    requires forall i :: 0 <= i < |slots| ==> slots[i] < |a| && a[slots[i]].None?
    ensures Scanned(a, a, have, ids, slots, pool, sid, 0)
  { }

  lemma ScanFlag(a0: Slots, a: Slots, have: seq<bool>, ids: seq<nat>, slots: seq<nat>, pool: seq<Tx>, sid: Tx -> nat,
                 n: nat, i: nat)
    requires n <= |pool| && Scanned(a0, a, have, ids, slots, pool, sid, n) && i < |slots|
    ensures slots[i] < |a| == |have| && (a[slots[i]].Some? ==> have[slots[i]])
  { }

  lemma {:induction false} FilledNone(a: Slots, slots: seq<nat>, n: nat)
    requires n <= |slots| && forall i :: 0 <= i < |slots| ==> slots[i] < |a| && a[slots[i]].None?
    ensures Filled(a, slots, n) == 0
  {
    if n > 0 { FilledNone(a, slots, n - 1); }
  }

  // ----- Putting a block together -----

  /** The slots with missing transactions put in the empty ones in order; None if their number is wrong. */
  function Merge(a: Slots, missing: seq<Tx>): Option<seq<Tx>> {
    if a == [] then if missing == [] then Some([]) else None
    else if a[0].Some? then Prepend([a[0].value], Merge(a[1..], missing))
    else if missing == [] then None
    else Prepend([missing[0]], Merge(a[1..], missing[1..]))
  }

  /** The transactions of a block at some indexes. */
  function Pick(block: seq<Tx>, indexes: seq<nat>): seq<Tx>
    requires forall i :: 0 <= i < |indexes| ==> indexes[i] < |block|
  {
    seq(|indexes|, i requires 0 <= i < |indexes| => block[indexes[i]])
  }

  ghost predicate Agrees(a: Slots, block: seq<Tx>) {
    |a| == |block| && forall k :: 0 <= k < |a| && a[k].Some? ==> a[k].value == block[k]
  }

  /** Slots that agree with a block, completed with what the block has in the empty ones, are the block. */
  lemma {:induction false} MergeRebuilds(a: Slots, block: seq<Tx>, k: nat)
    requires Agrees(a, block) && k <= |a|
    ensures Within(Empty(a, k), block) && Merge(a[k..], Pick(block, Empty(a, k))) == Some(block[k..])
    decreases |a| - k
  {
    EmptyIs(a, k);
    EmptyStep(a, k);
    if k < |a| {
      MergeRebuilds(a, block, k + 1);
      hide Empty;
      assert a[k..][1..] == a[k + 1..];
      assert block[k..] == [block[k]] + block[k + 1..];
      if a[k].None? { PickCons(block, k, Empty(a, k + 1)); }
      hide Pick;
    } else {
      assert a[k..] == [] && block[k..] == [] && Pick(block, Empty(a, k)) == [];
    }
  }

  ghost predicate Within(indexes: seq<nat>, block: seq<Tx>) {
    forall i :: 0 <= i < |indexes| ==> indexes[i] < |block|
  }

  lemma PickCons(block: seq<Tx>, k: nat, rest: seq<nat>)
    requires k < |block| && Within(rest, block)
    ensures Within([k] + rest, block)
    ensures Pick(block, [k] + rest) != [] && Pick(block, [k] + rest)[0] == block[k]
    ensures Pick(block, [k] + rest)[1..] == Pick(block, rest)
  { }

  /** c describes block: whole transactions in their slots, short ids for the rest in order. */
  ghost predicate Describes(c: CompactBlock, block: seq<Tx>, sid: Tx -> nat) {
    && Count(c) == |block| && WellPlaced(c) && |SlotsLeft(c)| == |c.shorttxids|
    && (forall n :: 0 < n <= |c.prefilledtxn| ==>
          0 <= Place(c.prefilledtxn, n) < |block| && block[Place(c.prefilledtxn, n)] == c.prefilledtxn[n - 1].tx)
    && (forall i :: 0 <= i < |c.shorttxids| ==>
          SlotsLeft(c)[i] < |block| && c.shorttxids[i] == sid(block[SlotsLeft(c)[i]]))
  }

  /** A transaction of the mempool with a short id of the block is the transaction of the block. */
  ghost predicate NoCollision(c: CompactBlock, block: seq<Tx>, pool: seq<Tx>, sid: Tx -> nat)
    requires Describes(c, block, sid)
  {
    forall i, t :: 0 <= i < |c.shorttxids| && t in pool && sid(t) == c.shorttxids[i] ==> t == block[SlotsLeft(c)[i]]
  }

  /** What was filled in is right. */
  lemma FillingAgrees(a: Slots, c: CompactBlock, block: seq<Tx>, pool: seq<Tx>, sid: Tx -> nat)
    requires Describes(c, block, sid) && NoCollision(c, block, pool, sid) && Filling(a, c, pool, sid)
    ensures Agrees(a, block)
  {
    var n: nat :| Holds(a, c, pool, sid, n);
    forall k | 0 <= k < |a| && a[k].Some? ensures a[k].value == block[k] {
      if k in SlotsLeft(c) {
        var i :| 0 <= i < |SlotsLeft(c)| && SlotsLeft(c)[i] == k;
        MatchesAre(pool, sid, n, c.shorttxids[i]);
        assert a[k].value in Matches(pool, sid, n, c.shorttxids[i]);
      } else {
        AtIsBlock(c.prefilledtxn, |c.prefilledtxn|, k, block);
      }
    }
  }

  /** Slots are kept in 16 bits: what is filled in is right with every mempool without collisions exactly if the
      block has at most 65536 transactions. */
  lemma SixteenBits(c: CompactBlock, block: seq<Tx>, sid: Tx -> nat)
    requires Describes(c, block, sid) && Distinct(c.shorttxids)
    requires forall i, j :: 0 <= i < j < |block| ==> block[i] != block[j]
    ensures (forall pool, a, count :: NoCollision(c, block, pool, sid) && Outcome(c, a, count, pool, sid) ==>
               Agrees(a, block)) <==> Count(c) <= UINT16
  {
    hide Outcome, Agrees, Distinct, SlotsLeft, WellPlaced, Place, NoCollision;
    if Count(c) <= UINT16 {
      forall pool, a, count | NoCollision(c, block, pool, sid) && Outcome(c, a, count, pool, sid)
        ensures Agrees(a, block)
      {
        OutcomeFills(c, a, count, pool, sid);
        FillingAgrees(a, c, block, pool, sid);
      }
    } else {
      LastInWrongSlot(c, block, sid);
    }
  }

  /** With more, a mempool that has just the last transaction puts it where another one belongs. */
  lemma LastInWrongSlot(c: CompactBlock, block: seq<Tx>, sid: Tx -> nat)
    requires Describes(c, block, sid) && Distinct(c.shorttxids) && Count(c) > UINT16
    requires forall i, j :: 0 <= i < j < |block| ==> block[i] != block[j]
    ensures var pool := [block[|block| - 1]];
      NoCollision(c, block, pool, sid) && exists a, count :: Outcome(c, a, count, pool, sid) && !Agrees(a, block)
  {
    var last := |block| - 1;
    LastIsFree(c);
    var i :| 0 <= i < |SlotsLeft(c)| && SlotsLeft(c)[i] == last;
    LastWord(c, i);
    PrefillSize(c);
    OnlyInPool(SlotMap(c), c, block[last], sid, last % UINT16);
    hide Prefill, SlotsLeft, Place, WellPlaced, SlotMap, Outcome;
    var a := Prefill(c, |c.prefilledtxn|)[last % UINT16 := Some(block[last])];
    assert a[last % UINT16] == Some(block[last]) && last % UINT16 < last;
  }

  lemma LastWord(c: CompactBlock, i: nat)
    requires i < |SlotsLeft(c)| == |c.shorttxids| && Distinct(c.shorttxids)
    ensures c.shorttxids[i] in SlotMap(c) && SlotMap(c)[c.shorttxids[i]] == SlotsLeft(c)[i] % UINT16
  {
    hide Prefill, Empty, SlotsLeft, Assigned, Distinct;
    IdsAre(c.shorttxids, Words(SlotsLeft(c)), SlotMap(c));
  }

  /** A mempool of one transaction puts it where its short id points to. */
  lemma OnlyInPool(ids: map<nat, nat>, c: CompactBlock, tx: Tx, sid: Tx -> nat, w: nat)
    requires |SlotsLeft(c)| == |c.shorttxids| && ids == SlotMap(c) && sid(tx) in ids && ids[sid(tx)] == w < Count(c)
    ensures w < |Prefill(c, |c.prefilledtxn|)|
    ensures Outcome(c, Prefill(c, |c.prefilledtxn|)[w := Some(tx)], 1, [tx], sid)
  {
    var a0, pool := Prefill(c, |c.prefilledtxn|), [tx];
    PrefillSize(c);
    hide Prefill, SlotsLeft, SlotMap, ScanTo;
    ScanStart(ids, a0, pool, sid);
    ScanNext(ids, a0, pool, sid, 0);
    assert StopsAt(ids, a0, pool, sid, 1);
    assert Shows(ScanTo(ids, a0, pool, sid, 1), a0[w := Some(tx)], 1);
  }

  /** No transaction is sent whole for a slot beyond 16 bits. */
  lemma LastIsFree(c: CompactBlock)
    requires WellPlaced(c) && Count(c) > UINT16
    ensures Count(c) - 1 in SlotsLeft(c)
  {
    var p := c.prefilledtxn;
    if |p| > 0 { assert PlacedAt(c, |p|); }
    AtBeyond(p, |p|, Count(c) - 1);
    EmptyIs(Prefill(c, |p|), 0);
  }

  lemma {:induction false} AtIsBlock(p: seq<Prefilled>, n: nat, k: nat, block: seq<Tx>)
    requires n <= |p| && k < |block| && At(p, n, k).Some?
    requires forall m :: 0 < m <= |p| ==> 0 <= Place(p, m) < |block| && block[Place(p, m)] == p[m - 1].tx
    ensures At(p, n, k).value == block[k]
  {
    if Place(p, n) != k { AtIsBlock(p, n - 1, k, block); }
  }

  /** The transactions of the mempool that are in the block are not asked for, if it has each of them once. */
  lemma OnlyMissingAsked(a: Slots, c: CompactBlock, block: seq<Tx>, pool: seq<Tx>, sid: Tx -> nat, i: nat)
    requires Describes(c, block, sid) && Filling(a, c, pool, sid) && i < |c.shorttxids|
    requires exists j :: 0 <= j < |pool| && sid(pool[j]) == c.shorttxids[i]
    requires forall j, l :: 0 <= j < l < |pool| && sid(pool[j]) == c.shorttxids[i] ==> sid(pool[l]) != c.shorttxids[i]
    ensures SlotsLeft(c)[i] !in Empty(a, 0)
  {
    var n: nat :| Holds(a, c, pool, sid, n) && (n == |pool| || forall k :: 0 <= k < |a| ==> a[k].Some?);
    EmptyIs(a, 0);
    if n == |pool| { OneMatch(pool, sid, n, c.shorttxids[i]); MatchesAre(pool, sid, n, c.shorttxids[i]); }
  }

  lemma {:induction false} OneMatch(pool: seq<Tx>, sid: Tx -> nat, n: nat, id: nat)
    requires n <= |pool|
    requires forall j, l :: 0 <= j < l < |pool| && sid(pool[j]) == id ==> sid(pool[l]) != id
    ensures |Matches(pool, sid, n, id)| <= 1
    ensures (forall j :: 0 <= j < n ==> sid(pool[j]) != id) ==> Matches(pool, sid, n, id) == []
  {
    if n > 0 { OneMatch(pool, sid, n - 1, id); }
  }

  /** The compact form a node sends: the first transaction whole, the others as short ids. */
  method Compact(block: seq<Tx>, sid: Tx -> nat) returns (c: CompactBlock)
    requires 0 < |block| && !block[0].IsNull()
    ensures !c.headerIsNull && Describes(c, block, sid)
    ensures c.prefilledtxn == [Prefilled(0, block[0])] && Place(c.prefilledtxn, 1) == 0
    ensures |c.shorttxids| == |block| - 1 && forall i :: 1 <= i < |block| ==> c.shorttxids[i - 1] == sid(block[i])
  {
    var shorttxids := [];
    for i := 1 to |block|
      invariant |shorttxids| == i - 1 && forall j :: 0 <= j < i - 1 ==> shorttxids[j] == sid(block[j + 1])
    {
      shorttxids := shorttxids + [sid(block[i])];
    }
    c := CompactBlock(false, shorttxids, [Prefilled(0, block[0])]);
    var p := c.prefilledtxn;
    assert Place(p, 0) == -1 && Place(p, 1) == 0;
    assert PlacedAt(c, 1);
    RoomForShortIds(c);
    forall i | 1 <= i < Count(c) ensures Prefill(c, 1)[i].None? { AtBeyond(p, 1, i); }
    EmptyTail(Prefill(c, 1), 1);
    assert SlotsLeft(c) == Empty(Prefill(c, 1), 1) by { EmptyStep(Prefill(c, 1), 0); }
  }

  lemma {:induction false} EmptyTail(a: Slots, k: nat)
    requires k <= |a| && forall i :: k <= i < |a| ==> a[i].None?
    ensures Empty(a, k) == seq(|a| - k, i => k + i)
    decreases |a| - k
  {
    if k < |a| {
      EmptyTail(a, k + 1);
      EmptyStep(a, k);
      hide Empty;
      assert seq(|a| - k, i => k + i) == [k] + seq(|a| - k - 1, i => k + 1 + i);
    } else {
      EmptyEnd(a);
    }
  }

  /** Any compact form of a block, whichever transactions it has whole, gives the block back: from a mempool
      without collisions, with the request for the missing ones sent and read. It fails exactly if two short
      ids are equal or the map of them is too crowded, and is never found invalid. */
  method Rebuild(c: CompactBlock, block: seq<Tx>, crowded: nat -> bool, pool: seq<Tx>, sid: Tx -> nat)
    returns (status: ReadStatus, vtx: seq<Tx>)
    requires !c.headerIsNull && 0 < |block| <= UINT16
    requires Describes(c, block, sid) && NoCollision(c, block, pool, sid)
    ensures status == Ok || status == Failed
    ensures status == Failed <==>
      !Distinct(c.shorttxids) || exists i :: 0 <= i < |c.shorttxids| && crowded(i)
    ensures status == Ok ==> vtx == block
  {
    hide Filling, Agrees, Empty, Merge, Distinct, NoCollision, Outcome, WellPlaced, Filled;
    vtx := [];
    var partial := new PartiallyDownloadedBlock();
    status := partial.InitData(c, crowded, pool, sid);
    if status != Ok { return; }
    OutcomeFills(c, partial.txn_available, partial.mempool_count, pool, sid);
    FillingAgrees(partial.txn_available, c, block, pool, sid);
    MergeRebuilds(partial.txn_available, block, 0);
    assert partial.txn_available[0..] == partial.txn_available && block[0..] == block;
    var indexes := partial.Request();
    var gaps := RequestCodec.WriteIndexes(indexes);
    var ok, asked := RequestCodec.ReadIndexes(gaps);
    RequestSurvives(partial.txn_available);
    status, vtx := partial.FillBlock(Pick(block, asked), Ok);
  }

  /** The request for what is missing is read as it was meant. */
  lemma RequestSurvives(a: Slots)
    requires |a| <= UINT16
    ensures RequestCodec.Undo(RequestCodec.Gaps(Empty(a, 0), 0), 0) == Some(Empty(a, 0))
  {
    EmptyIs(a, 0);
    RequestCodec.RoundTripIff(Empty(a, 0));
  }

  /** The form a node sends is one of them. */
  method SendAndRebuild(block: seq<Tx>, crowded: nat -> bool, pool: seq<Tx>, sid: Tx -> nat)
    returns (status: ReadStatus, vtx: seq<Tx>)
    requires 0 < |block| <= UINT16 && !block[0].IsNull()
    requires forall i :: 0 <= i < |block| - 1 ==> !crowded(i)
    requires forall j, k :: 0 < j < k < |block| ==> sid(block[j]) != sid(block[k])
    requires forall k, t :: 0 < k < |block| && t in pool && sid(t) == sid(block[k]) ==> t == block[k]
    ensures status == Ok && vtx == block
  {
    var c := Compact(block, sid);
    SentWell(c, block, pool, sid);
    status, vtx := Rebuild(c, block, crowded, pool, sid);
  }

  lemma SentWell(c: CompactBlock, block: seq<Tx>, pool: seq<Tx>, sid: Tx -> nat)
    requires Describes(c, block, sid)
    requires forall j, k :: 0 < j < k < |block| ==> sid(block[j]) != sid(block[k])
    requires forall k, t :: 0 < k < |block| && t in pool && sid(t) == sid(block[k]) ==> t == block[k]
    requires |c.prefilledtxn| > 0 && Place(c.prefilledtxn, 1) == 0
    ensures Distinct(c.shorttxids) && NoCollision(c, block, pool, sid)
  {
    var a := Prefill(c, |c.prefilledtxn|);
    EmptyIs(a, 0);
    AtPlace(c.prefilledtxn, |c.prefilledtxn|, 1);
  }
}

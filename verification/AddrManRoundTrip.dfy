/** Loading what was saved gives the same manager, with the entries renumbered. */
module AddrManRoundTrip {
  import opened AddrMan
  import opened AddrManager
  import opened AddrManStream
  import opened Wrappers

  ghost predicate IdsIn(v: View, ids: nat) {
    forall id :: id in v.entries ==> 0 <= id < ids
  }

  /** The new number of an id (ids that are not there do not matter). */
  ghost function Num(v: View, ids: nat, id: int): int {
    if id in v.entries && id >= 0 then Renumber(v.entries, ids, id) else -1
  }

  function NewCount(v: View, ids: nat): nat { |Order(v.entries, false, ids)| }
  function TriedCount(v: View, ids: nat): nat { |Order(v.entries, true, ids)| }

  /** An entry is in `w` under its new number, with its address, source, last success and attempts; the times of the
      last try and the last counted attempt are blank. */
  ghost predicate SameEntry(v: View, ids: nat, w: View, id: int)
    requires id in v.entries
  {
    var k := Num(v, ids, id);
    && k in w.entries
    && var info := v.entries[id];
       w.entries[k] ==
         AddrInfo(info.addr, info.source, 0, 0, info.nLastSuccess, info.nAttempts, w.entries[k].nRefCount,
           info.fInTried, 0)
  }

  /** `table` is `old_` on the slots `slots`, renumbered. */
  ghost predicate Renumbered(v: View, ids: nat, old_: map<Slot, int>, table: map<Slot, int>, slots: set<Slot>) {
    && table.Keys == slots <= old_.Keys
    && forall t :: t in slots ==> table[t] == Num(v, ids, old_[t])
  }

  /** `w` is `v` with its entries renumbered and only the saved fields kept. */
  ghost predicate SameUpToIds(v: View, ids: nat, w: View) {
    && (forall id :: id in v.entries ==>
          SameEntry(v, ids, w, id) && w.entries[Num(v, ids, id)].nRefCount == v.entries[id].nRefCount)
    && (forall i, j :: i in v.entries && j in v.entries && Num(v, ids, i) == Num(v, ids, j) ==> i == j)
    && (forall k :: k in w.entries ==> exists id :: id in v.entries && Num(v, ids, id) == k)
    && Renumbered(v, ids, v.new_, w.new_, v.new_.Keys)
    && Renumbered(v, ids, v.tried, w.tried, v.tried.Keys)
  }

  // ---------- the entries ----------

  lemma SavedNew(h: Hasher, v: View, ids: nat, id: int)
    requires IdsIn(v, ids) && id in v.entries && !v.entries[id].fInTried
    ensures 0 <= Num(v, ids, id) < NewCount(v, ids)
    ensures SavedOf(h, v, ids).news[Num(v, ids, id)] == ToRecord(v.entries[id])
  {
    OrderAt(v.entries, false, ids, id);
  }

  lemma NumInjective(v: View, ids: nat, i: int, j: int)
    requires IdsIn(v, ids) && i in v.entries && j in v.entries
    ensures 0 <= Num(v, ids, i) < NewCount(v, ids) + TriedCount(v, ids)
    ensures Num(v, ids, i) < NewCount(v, ids) <==> !v.entries[i].fInTried
    ensures Num(v, ids, i) == Num(v, ids, j) ==> i == j
  {
    RenumberInjective(v.entries, ids, i, j);
  }

  /** Every number below the total is the number of some id. */
  lemma NumOnto(v: View, ids: nat, k: int) returns (id: int)
    requires IdsIn(v, ids) && 0 <= k < NewCount(v, ids) + TriedCount(v, ids)
    ensures id in v.entries && Num(v, ids, id) == k
  {
    OrderHas(v.entries, false, ids);
    OrderHas(v.entries, true, ids);
    if k < NewCount(v, ids) {
      id := Order(v.entries, false, ids)[k];
      OrderAt(v.entries, false, ids, id);
      OrderSorted(v.entries, false, ids, k, |Order(v.entries, false, id)|);
    } else {
      var j := k - NewCount(v, ids);
      id := Order(v.entries, true, ids)[j];
      OrderAt(v.entries, true, ids, id);
      OrderSorted(v.entries, true, ids, j, |Order(v.entries, true, id)|);
    }
  }

  lemma OrderSorted(entries: map<int, AddrInfo>, tried: bool, n: nat, i: nat, j: nat)
    requires i < |Order(entries, tried, n)| && j < |Order(entries, tried, n)|
    requires Order(entries, tried, n)[i] == Order(entries, tried, n)[j]
    ensures i == j
  {
    OrderHas(entries, tried, n);
  }

  lemma SavedDistinct(h: Hasher, v: View, ids: nat)
    requires IdsIn(v, ids) && AddressesDistinct(v)
    ensures RecordsDistinct(SavedOf(h, v, ids).news + SavedOf(h, v, ids).trieds)
  {
    var sv := SavedOf(h, v, ids);
    var all := sv.news + sv.trieds;
    forall i, j | 0 <= i < j < |all|
      ensures all[i].addr.service.net != all[j].addr.service.net
    {
      var x := RecordHolder(h, v, ids, i);
      var y := RecordHolder(h, v, ids, j);
      assert x != y;
    }
  }

  lemma RecordHolder(h: Hasher, v: View, ids: nat, k: int) returns (id: int)
    requires IdsIn(v, ids) && 0 <= k < NewCount(v, ids) + TriedCount(v, ids)
    ensures id in v.entries && Num(v, ids, id) == k
    ensures (SavedOf(h, v, ids).news + SavedOf(h, v, ids).trieds)[k] == ToRecord(v.entries[id])
  {
    id := NumOnto(v, ids, k);
    NumInjective(v, ids, id, id);
    OrderAt(v.entries, v.entries[id].fInTried, ids, id);
  }

  // ---------- the tried entries ----------

  ghost function TriedBelow(v: View, n: int): set<Slot> {
    set t | t in v.tried && v.tried[t] < n
  }

  /** The entries once the tried ones with ids below `n` are loaded. */
  ghost predicate TriedsExact(v: View, ids: nat, v1: View, w: View, n: nat) {
    && w.new_ == v1.new_
    && (forall k :: k in v1.entries ==> k in w.entries && w.entries[k] == v1.entries[k])
    && (forall id :: id in v.entries && v.entries[id].fInTried && id < n ==> SameEntry(v, ids, w, id))
    && (forall k :: k in w.entries <==>
          k in v1.entries || NewCount(v, ids) <= k < NewCount(v, ids) + |Order(v.entries, true, n)|)
  }

  lemma {:induction false} LoadTriedsExact(h: Hasher, v: View, ids: nat, v1: View, n: nat)
    requires IdsIn(v, ids) && TriedTableOk(h, v)
    requires v1.tried == map[] && forall k :: k in v1.entries ==> 0 <= k < NewCount(v, ids)
    ensures var recs := Records(v.entries, Order(v.entries, true, n));
            var (w, id) := LoadTrieds(h, v1, NewCount(v, ids), recs);
            && id == NewCount(v, ids) + |recs|
            && TriedsExact(v, ids, v1, w, n) && Renumbered(v, ids, v.tried, w.tried, TriedBelow(v, n))
  {
    hide TriedsExact, TriedTableOk, Renumbered, TriedBelow, Order, Records, Num;
    if n == 0 {
      TriedsExactNone(h, v, ids, v1);
      RecordsNone(v.entries, true);
    } else {
      LoadTriedsExact(h, v, ids, v1, n - 1);
      RecordsNext(v.entries, true, n - 1);
      var recs0 := Records(v.entries, Order(v.entries, true, n - 1));
      var (w0, id0) := LoadTrieds(h, v1, NewCount(v, ids), recs0);
      if n - 1 in v.entries && v.entries[n - 1].fInTried {
        var r := ToRecord(v.entries[n - 1]);
        assert (recs0 + [r])[..|recs0|] == recs0;
        TriedsExactStep(v, ids, v1, w0, n - 1, h.TriedSlot(v.entries[n - 1].addr.service));
        TriedTableStep(h, v, ids, w0.tried, n - 1);
      } else {
        assert recs0 + [] == recs0;
        TriedsExactSkip(h, v, ids, v1, w0, n - 1);
      }
    }
  }

  lemma TriedsExactNone(h: Hasher, v: View, ids: nat, v1: View)
    requires IdsIn(v, ids) && TriedTableOk(h, v)
    requires v1.tried == map[] && forall k :: k in v1.entries ==> 0 <= k < NewCount(v, ids)
    ensures TriedsExact(v, ids, v1, v1, 0) && Renumbered(v, ids, v.tried, v1.tried, TriedBelow(v, 0))
  { }

  lemma TriedsExactSkip(h: Hasher, v: View, ids: nat, v1: View, w0: View, n: nat)
    requires IdsIn(v, ids) && TriedTableOk(h, v)
    requires TriedsExact(v, ids, v1, w0, n)
    requires !(n in v.entries && v.entries[n].fInTried)
    ensures TriedsExact(v, ids, v1, w0, n + 1) && TriedBelow(v, n + 1) == TriedBelow(v, n)
  {
    hide SameEntry, Num, Order, TriedTableOk, TriedBelow;
    assert TriedBelow(v, n + 1) == TriedBelow(v, n) by { NoneTriedAt(h, v, n); }
    assert Order(v.entries, true, n + 1) == Order(v.entries, true, n) by { OrderSkips(v.entries, true, n); }
  }

  lemma NoneTriedAt(h: Hasher, v: View, n: nat)
    requires TriedTableOk(h, v) && !(n in v.entries && v.entries[n].fInTried)
    ensures TriedBelow(v, n + 1) == TriedBelow(v, n)
  { }

  lemma OrderSkips(entries: map<int, AddrInfo>, tried: bool, n: nat)
    requires !(n in entries && entries[n].fInTried == tried)
    ensures Order(entries, tried, n + 1) == Order(entries, tried, n)
  { }

  lemma TriedTableStep(h: Hasher, v: View, ids: nat, table: map<Slot, int>, n: nat)
    requires IdsIn(v, ids) && TriedTableOk(h, v)
    requires Renumbered(v, ids, v.tried, table, TriedBelow(v, n))
    requires n in v.entries && v.entries[n].fInTried
    ensures var t := h.TriedSlot(v.entries[n].addr.service);
            && t !in table
            && Renumbered(v, ids, v.tried, table[t := Num(v, ids, n)], TriedBelow(v, n + 1))
  {
    var t := h.TriedSlot(v.entries[n].addr.service);
    assert v.tried[t] == n;
    assert TriedBelow(v, n + 1) == TriedBelow(v, n) + {t};
  }

  lemma TriedsExactStep(v: View, ids: nat, v1: View, w0: View, n: nat, t: Slot)
    requires IdsIn(v, ids)
    requires forall k :: k in v1.entries ==> 0 <= k < NewCount(v, ids)
    requires TriedsExact(v, ids, v1, w0, n)
    requires n in v.entries && v.entries[n].fInTried
    ensures Num(v, ids, n) == NewCount(v, ids) + |Order(v.entries, true, n)|
    ensures TriedsExact(v, ids, v1, Enter(w0, t, Num(v, ids, n), FromRecord(ToRecord(v.entries[n])).Core()), n + 1)
  {
    var w := Enter(w0, t, Num(v, ids, n), FromRecord(ToRecord(v.entries[n])).Core());
    forall id | id in v.entries && v.entries[id].fInTried && id < n + 1
      ensures SameEntry(v, ids, w, id)
    {
      NumInjective(v, ids, id, n);
      if id < n { assert SameEntry(v, ids, w0, id); }
    }
  }

  // ---------- the new table ----------

  /** The occupied slots that come before position `p` of bucket `b`. */
  ghost function SlotsBefore(v: View, b: int, p: int): set<Slot> {
    set t | t in v.new_ && (t.b < b || (t.b == b && t.p < p))
  }

  /** Every entry of `v` has its number in `w`, and nothing else is there. */
  ghost predicate EntriesMatch(v: View, ids: nat, w: View) {
    && (forall id :: id in v.entries ==> SameEntry(v, ids, w, id))
    && (forall k :: k in w.entries <==> 0 <= k < NewCount(v, ids) + TriedCount(v, ids))
  }

  /** A slot's number in the saved bucket leads back to the same slot, which is still free. */
  lemma SlotComesBack(h: Hasher, v: View, ids: nat, w: View, t: Slot, slots: set<Slot>)
    requires TablesOk(h, v, {}) && IdsIn(v, ids)
    requires TablesOk(h, w, Unplaced(w)) && EntriesMatch(v, ids, w)
    requires Renumbered(v, ids, v.new_, w.new_, slots)
    requires t in v.new_ && t !in slots
    ensures v.new_[t] in v.entries && v.new_[t] >= 0
    ensures var k := Num(v, ids, v.new_[t]);
            && 0 <= k < NewCount(v, ids) && k in w.entries
            && t == Slot(t.b, h.Position(true, t.b, w.entries[k].addr.service))
            && t !in w.new_ && w.entries[k].nRefCount < NEW_BUCKETS_PER_ADDRESS
  {
    hide TablesOk;
    var id := v.new_[t];
    HolderIs(h, v, t);
    RefCountIs(h, v, id, {});
    NumInjective(v, ids, id, id);
    var k := Num(v, ids, id);
    assert SameEntry(v, ids, w, id);
    RefCountIs(h, w, k, Unplaced(w));
    hide EntriesMatch;
    assert RefSlots(w, k) <= RefSlots(v, id) - {t} by {
      forall s | s in RefSlots(w, k)
        ensures s in RefSlots(v, id) - {t}
      {
        SlotOwner(h, v, ids, s, id);
      }
    }
    SubsetSize(RefSlots(w, k), RefSlots(v, id) - {t});
    assert t in RefSlots(v, id);
  }

  lemma HolderIs(h: Hasher, v: View, t: Slot)
    requires TablesOk(h, v, {}) && t in v.new_
    ensures v.new_[t] in v.entries && !v.entries[v.new_[t]].fInTried
    ensures t.p == h.Position(true, t.b, v.entries[v.new_[t]].addr.service)
  { }

  lemma SlotOwner(h: Hasher, v: View, ids: nat, s: Slot, id: int)
    requires TablesOk(h, v, {}) && IdsIn(v, ids)
    requires s in v.new_ && id in v.entries
    ensures v.new_[s] in v.entries
    ensures Num(v, ids, v.new_[s]) == Num(v, ids, id) ==> v.new_[s] == id
  {
    assert v.new_[s] in v.entries;
    hide TablesOk;
    NumInjective(v, ids, v.new_[s], id);
  }

  lemma SlotsBeforeStep(v: View, b: int, p: int)
    ensures var t := Slot(b, p);
            SlotsBefore(v, b, p + 1) == SlotsBefore(v, b, p) + if t in v.new_ then {t} else {}
    ensures Slot(b, p) !in SlotsBefore(v, b, p)
  { }

  lemma {:induction false} LoadBucketExact(h: Hasher, v: View, ids: nat, w: View, b: int, p: nat)
    requires TablesOk(h, v, {}) && IdsIn(v, ids)
    requires 0 <= b < NEW_BUCKET_COUNT
    requires TablesOk(h, w, Unplaced(w)) && EntriesMatch(v, ids, w)
    requires Renumbered(v, ids, v.new_, w.new_, SlotsBefore(v, b, 0))
    ensures var w' := LoadBucket(h, w, b, BucketNumbers(v, ids, b, p), NewCount(v, ids));
            && TablesOk(h, w', Unplaced(w')) && SameButRefs(w, w') && EntriesMatch(v, ids, w')
            && Renumbered(v, ids, v.new_, w'.new_, SlotsBefore(v, b, p))
  {
    hide TablesOk, Unplaced, SlotsBefore, Renumbered, EntriesMatch;
    LoadedUntried(v, ids, w);
    LoadBucketOk(h, w, b, BucketNumbers(v, ids, b, p), NewCount(v, ids));
    MatchKept(v, ids, w, LoadBucket(h, w, b, BucketNumbers(v, ids, b, p), NewCount(v, ids)));
    if p > 0 {
      LoadBucketExact(h, v, ids, w, b, p - 1);
      var t := Slot(b, p - 1);
      SlotsBeforeStep(v, b, p - 1);
      var numbers := BucketNumbers(v, ids, b, p - 1);
      var w0 := LoadBucket(h, w, b, numbers, NewCount(v, ids));
      if t in v.new_ {
        SlotComesBack(h, v, ids, w0, t, SlotsBefore(v, b, p - 1));
        var k := Num(v, ids, v.new_[t]);
        assert BucketNumbers(v, ids, b, p) == numbers + [k];
        assert (numbers + [k])[..|numbers|] == numbers;
        TableStep(v, ids, w0.new_, t, SlotsBefore(v, b, p - 1));
      } else {
        assert SlotsBefore(v, b, p) == SlotsBefore(v, b, p - 1);
        assert BucketNumbers(v, ids, b, p) == numbers + [] == numbers;
      }
    }
  }

  lemma TableStep(v: View, ids: nat, table: map<Slot, int>, t: Slot, slots: set<Slot>)
    requires Renumbered(v, ids, v.new_, table, slots) && t in v.new_
    ensures Renumbered(v, ids, v.new_, table[t := Num(v, ids, v.new_[t])], slots + {t})
  { }

  lemma LoadedUntried(v: View, ids: nat, w: View)
    requires IdsIn(v, ids) && EntriesMatch(v, ids, w)
    ensures forall k :: k in w.entries ==> (0 <= k < NewCount(v, ids) <==> !w.entries[k].fInTried)
  {
    forall k | k in w.entries
      ensures 0 <= k < NewCount(v, ids) <==> !w.entries[k].fInTried
    {
      var id := NumOnto(v, ids, k);
      NumInjective(v, ids, id, id);
      assert SameEntry(v, ids, w, id);
    }
  }

  lemma MatchKept(v: View, ids: nat, w: View, w': View)
    requires EntriesMatch(v, ids, w) && SameButRefs(w, w')
    ensures EntriesMatch(v, ids, w')
  {
    forall id | id in v.entries
      ensures SameEntry(v, ids, w', id)
    {
      assert SameEntry(v, ids, w, id);
    }
  }

  lemma {:induction false} LoadBucketsExact(h: Hasher, v: View, ids: nat, w: View, n: nat)
    requires TablesOk(h, v, {}) && IdsIn(v, ids)
    requires n <= NEW_BUCKET_COUNT
    requires TablesOk(h, w, Unplaced(w)) && EntriesMatch(v, ids, w) && w.new_ == map[]
    ensures var w' := LoadBuckets(h, w, SavedOf(h, v, ids).buckets[..n], NewCount(v, ids));
            && TablesOk(h, w', Unplaced(w')) && SameButRefs(w, w') && EntriesMatch(v, ids, w')
            && Renumbered(v, ids, v.new_, w'.new_, SlotsBefore(v, n, 0))
  {
    hide TablesOk, Unplaced, SlotsBefore, Renumbered, EntriesMatch, LoadBucket, BucketNumbers, IdsIn;
    var buckets := SavedOf(h, v, ids).buckets;
    if n == 0 {
      NoSlots(h, v, ids);
    } else {
      LoadBucketsExact(h, v, ids, w, n - 1);
      var w0 := LoadBuckets(h, w, buckets[..n - 1], NewCount(v, ids));
      LoadBucketExact(h, v, ids, w0, n - 1, BUCKET_SIZE);
      assert buckets[..n][..n - 1] == buckets[..n - 1];
      WholeBucket(h, v, n - 1);
    }
  }

  lemma NoSlots(h: Hasher, v: View, ids: nat)
    requires TablesOk(h, v, {})
    ensures Renumbered(v, ids, v.new_, map[], SlotsBefore(v, 0, 0))
  { }

  lemma WholeBucket(h: Hasher, v: View, b: int)
    requires TablesOk(h, v, {})
    ensures SlotsBefore(v, b, BUCKET_SIZE) == SlotsBefore(v, b + 1, 0)
  { }

  // ---------- the theorem ----------

  lemma InvParts(h: Hasher, v: View)
    requires Inv(h, v, {})
    ensures TablesOk(h, v, {}) && TriedTableOk(h, v) && AddressesDistinct(v)
  { }

  lemma MatchFromParts(h: Hasher, v: View, ids: nat, v1: View, w: View)
    requires IdsIn(v, ids)
    requires NewsLoaded(v1, SavedOf(h, v, ids).news, true) && TriedsExact(v, ids, v1, w, ids)
    ensures EntriesMatch(v, ids, w) && w.new_ == map[]
  {
    forall id | id in v.entries
      ensures SameEntry(v, ids, w, id)
    {
      if !v.entries[id].fInTried {
        SavedNew(h, v, ids, id);
      }
    }
  }

  lemma LoadedWithinCount(h: Hasher, v: View, ids: nat, v1: View)
    requires NewsLoaded(v1, SavedOf(h, v, ids).news, true)
    ensures v1.tried == map[] && |SavedOf(h, v, ids).news| == NewCount(v, ids)
    ensures forall k :: k in v1.entries ==> 0 <= k < NewCount(v, ids)
  { }

  lemma EntriesLoaded(h: Hasher, v: View, ids: nat)
    requires Inv(h, v, {}) && IdsIn(v, ids)
    ensures var sv := SavedOf(h, v, ids);
            var v1 := LoadNews(h, sv.news, true);
            var w := LoadTrieds(h, v1, |sv.news|, sv.trieds).0;
            && RecordsDistinct(sv.news + sv.trieds)
            && TablesOk(h, w, Unplaced(w)) && EntriesMatch(v, ids, w) && w.new_ == map[]
            && Renumbered(v, ids, v.tried, w.tried, v.tried.Keys)
  {
    InvParts(h, v);
    hide Inv, TablesOk, AddressesDistinct, TriedTableOk, Unplaced, RecordsDistinct, Renumbered, EntriesMatch,
      TriedsExact, NewsLoaded;
    hide LoadNews, LoadTrieds, Order, BucketNumbers, IdsIn;
    SavedDistinct(h, v, ids);
    var sv := SavedOf(h, v, ids);
    LoadNewsOk(h, sv.news, true);
    BothLoaded(h, sv.news, sv.trieds, true);
    var v1 := LoadNews(h, sv.news, true);
    LoadedWithinCount(h, v, ids, v1);
    LoadTriedsExact(h, v, ids, v1, ids);
    TriedAll(h, v, ids);
    MatchFromParts(h, v, ids, v1, LoadTrieds(h, v1, |sv.news|, sv.trieds).0);
  }

  lemma TriedAll(h: Hasher, v: View, ids: nat)
    requires TablesOk(h, v, {}) && IdsIn(v, ids)
    ensures TriedBelow(v, ids) == v.tried.Keys
  { }

  lemma NewAll(h: Hasher, v: View)
    requires TablesOk(h, v, {})
    ensures SlotsBefore(v, NEW_BUCKET_COUNT, 0) == v.new_.Keys
  { }

  lemma RefCountIs(h: Hasher, v: View, id: int, limbo: set<int>)
    requires TablesOk(h, v, limbo) && id in v.entries
    ensures v.entries[id].nRefCount == |RefSlots(v, id)| <= NEW_BUCKETS_PER_ADDRESS
    ensures id in limbo <==> !v.entries[id].fInTried && v.entries[id].nRefCount == 0
  { }

  lemma RefsComeBack(h: Hasher, v: View, ids: nat, w: View, id: int)
    requires TablesOk(h, v, {}) && IdsIn(v, ids) && id in v.entries
    requires TablesOk(h, w, Unplaced(w)) && EntriesMatch(v, ids, w)
    requires Renumbered(v, ids, v.new_, w.new_, v.new_.Keys)
    ensures SameEntry(v, ids, w, id) && w.entries[Num(v, ids, id)].nRefCount == v.entries[id].nRefCount
    ensures Num(v, ids, id) !in Unplaced(w)
  {
    hide TablesOk;
    var k := Num(v, ids, id);
    assert SameEntry(v, ids, w, id);
    RefCountIs(h, v, id, {});
    RefCountIs(h, w, k, Unplaced(w));
    hide EntriesMatch;
    forall s | s in v.new_
      ensures w.new_[s] == k <==> v.new_[s] == id
    {
      SlotOwner(h, v, ids, s, id);
    }
    assert RefSlots(w, k) == RefSlots(v, id);
  }

  /** Loading what was saved loses nothing: the same entries, in the same slots of both tables, with the
      same reference counts, under one consistent renumbering. */
  lemma RoundTrip(h: Hasher, v: View, ids: nat)
    requires Inv(h, v, {}) && IdsIn(v, ids)
    ensures RecordsDistinct(SavedOf(h, v, ids).news + SavedOf(h, v, ids).trieds)
    ensures SameUpToIds(v, ids, Loaded(h, SavedOf(h, v, ids)))
  {
    InvParts(h, v);
    hide Inv, TablesOk, Unplaced, Renumbered, RecordsDistinct, EntriesMatch, SameUpToIds, SlotsBefore, SavedOf;
    hide LoadNews, LoadTrieds, LoadBuckets, Prune, IdsIn, Order, BucketCount;
    var sv := SavedOf(h, v, ids);
    EntriesLoaded(h, v, ids);
    SavedUsesTable(h, v, ids);
    var w := LoadTrieds(h, LoadNews(h, sv.news, true), |sv.news|, sv.trieds).0;
    LoadBucketsExact(h, v, ids, w, NEW_BUCKET_COUNT);
    NewAll(h, v);
    AllTogether(h, v, ids, LoadBuckets(h, w, sv.buckets, |sv.news|));
  }

  lemma SavedUsesTable(h: Hasher, v: View, ids: nat)
    ensures var sv := SavedOf(h, v, ids);
            && |sv.news| == NewCount(v, ids) && UsesTable(sv)
            && |sv.buckets| == NEW_BUCKET_COUNT && sv.buckets[..NEW_BUCKET_COUNT] == sv.buckets
  {
    hide Order, BucketNumbers;
  }

  lemma AllTogether(h: Hasher, v: View, ids: nat, w: View)
    requires TablesOk(h, v, {}) && IdsIn(v, ids)
    requires TablesOk(h, w, Unplaced(w)) && EntriesMatch(v, ids, w)
    requires Renumbered(v, ids, v.new_, w.new_, v.new_.Keys) && Renumbered(v, ids, v.tried, w.tried, v.tried.Keys)
    ensures Prune(w) == w && SameUpToIds(v, ids, w)
  {
    hide TablesOk, Renumbered;
    forall id | id in v.entries
      ensures SameEntry(v, ids, w, id) && w.entries[Num(v, ids, id)].nRefCount == v.entries[id].nRefCount
      ensures Num(v, ids, id) !in Unplaced(w)
    {
      RefsComeBack(h, v, ids, w, id);
    }
    forall i, j | i in v.entries && j in v.entries && Num(v, ids, i) == Num(v, ids, j)
      ensures i == j
    {
      NumInjective(v, ids, i, j);
    }
    forall k | k in w.entries
      ensures exists id :: id in v.entries && Num(v, ids, id) == k
      ensures k !in Unplaced(w)
    {
      var id := NumOnto(v, ids, k);
    }
    assert Unplaced(w) == {};
    assert w.entries - {} == w.entries;
  }

  /** A set of slots of a table has no more slots than the table. */
  lemma {:induction false} TableBound(slots: set<Slot>, buckets: nat)
    requires forall t :: t in slots ==> InTable(t, buckets)
    ensures |slots| <= buckets * BUCKET_SIZE
  {
    if buckets == 0 {
      assert slots == {};
    } else {
      var last := set t | t in slots && t.b == buckets - 1;
      TableBound(slots - last, buckets - 1);
      BucketBound(last, buckets - 1, BUCKET_SIZE);
      assert slots == (slots - last) + last;
    }
  }

  lemma {:induction false} BucketBound(slots: set<Slot>, b: int, n: nat)
    requires forall t :: t in slots ==> t.b == b && 0 <= t.p < n
    ensures |slots| <= n
  {
    if n == 0 {
      assert slots == {};
    } else {
      var t := Slot(b, n - 1);
      BucketBound(slots - {t}, b, n - 1);
      assert slots - {t} == slots || slots == (slots - {t}) + {t};
    }
  }

  /** Each of `ids` owns a slot of its own, so there are no more ids than slots. */
  lemma {:induction false} OwnersBound(ids: set<int>, table: map<Slot, int>, owned: map<int, Slot>)
    requires owned.Keys == ids
    requires forall id :: id in ids ==> owned[id] in table && table[owned[id]] == id
    ensures |ids| <= |table.Keys|
    decreases |ids|
  {
    if |ids| > 0 {
      var id := AnElement(ids);
      var t := owned[id];
      assert (table - {t}).Keys == table.Keys - {t};
      OwnersBound(ids - {id}, table - {t}, owned - {id});
    }
  }

  /** Some new slot that references an untried entry. */
  ghost function ASlot(h: Hasher, v: View, id: int): (t: Slot)
    requires TablesOk(h, v, {}) && id in v.entries && !v.entries[id].fInTried
    ensures t in v.new_ && v.new_[t] == id
  {
    assert |RefSlots(v, id)| > 0;
    var t :| t in RefSlots(v, id);
    t
  }

  /** A consistent manager never has more entries than loading accepts. */
  lemma CountsFit(h: Hasher, v: View)
    requires TablesOk(h, v, {})
    ensures |NewIds(v.entries)| <= NEW_BUCKET_COUNT * BUCKET_SIZE
    ensures |TriedIds(v.entries)| <= TRIED_BUCKET_COUNT * BUCKET_SIZE
  {
    OwnersBound(NewIds(v.entries), v.new_, map id | id in NewIds(v.entries) :: ASlot(h, v, id));
    TableBound(v.new_.Keys, NEW_BUCKET_COUNT);
    OwnersBound(TriedIds(v.entries), v.tried,
                map id | id in TriedIds(v.entries) :: h.TriedSlot(v.entries[id].addr.service));
    TableBound(v.tried.Keys, TRIED_BUCKET_COUNT);
  }

  /** Saving a manager and loading it into a fresh one succeeds and gives the same tables and counts. */
  method SaveAndLoad(m: Manager, other: Hasher) returns (ok: bool, m': Manager)
    requires m.Consistent()
    requires other.(nKey := m.h.nKey) == m.h
    ensures ok && m'.Consistent() && m'.h == m.h
    ensures m.nIdCount >= 0 && SameUpToIds(m.V(), m.nIdCount, m'.V())
    ensures m'.nNew == m.nNew && m'.nTried == m.nTried
  {
    hide TablesOk, RandomOk, Occupied, RecordsDistinct, Loaded, SavedOf, SameUpToIds, Cores, Unrepeated, AddrOk,
      IdsOk, CountsOk, AddressesDistinct, Placed, IndexPruned, ReadIndex;
    var sv := Serialize(m);
    Facts(m);
    DistinctIsSound(m.h, sv);
    ok, m' := Unserialize(other, sv);
    SameCounts(m, m');
  }

  lemma Facts(m: Manager)
    requires m.Consistent()
    ensures m.nIdCount >= 0 && IdsIn(m.V(), m.nIdCount)
    ensures RecordsDistinct(SavedOf(m.h, m.V(), m.nIdCount).news + SavedOf(m.h, m.V(), m.nIdCount).trieds)
    ensures SameUpToIds(m.V(), m.nIdCount, Loaded(m.h, SavedOf(m.h, m.V(), m.nIdCount)))
    ensures var sv := SavedOf(m.h, m.V(), m.nIdCount);
            sv.nKeySize == 32 && BucketCount(sv) == |sv.buckets| == NEW_BUCKET_COUNT && sv.nKey == m.h.nKey
    ensures m.nNew <= NEW_BUCKET_COUNT * BUCKET_SIZE && m.nTried <= TRIED_BUCKET_COUNT * BUCKET_SIZE
  {
    IdsBelow(m);
    RoundTrip(m.h, m.V(), m.nIdCount);
    CountsFit(m.h, m.V());
  }

  lemma SameCounts(m: Manager, m': Manager)
    requires m.Consistent() && m'.Consistent()
    requires m.nIdCount >= 0 && SameUpToIds(m.V(), m.nIdCount, m'.V())
    ensures m'.nNew == m.nNew && m'.nTried == m.nTried
  {
    var v, w, ids := m.V(), m'.V(), m.nIdCount;
    ImageSize(NewIds(v.entries), NewIds(w.entries), v, ids);
    ImageSize(TriedIds(v.entries), TriedIds(w.entries), v, ids);
  }

  /** Numbering is a bijection between the two sets, so they have the same size. */
  lemma {:induction false} ImageSize(a: set<int>, b: set<int>, v: View, ids: nat)
    requires forall i :: i in a ==> i in v.entries
    requires forall i, j :: i in v.entries && j in v.entries && Num(v, ids, i) == Num(v, ids, j) ==> i == j
    requires forall i :: i in a ==> Num(v, ids, i) in b
    requires forall k :: k in b ==> exists i :: i in a && Num(v, ids, i) == k
    ensures |a| == |b|
    decreases |a|
  {
    if |a| > 0 {
      var i := AnElement(a);
      var k := Num(v, ids, i);
      forall l | l in b - {k}
        ensures exists j :: j in a - {i} && Num(v, ids, j) == l
      {
        var j :| j in a && Num(v, ids, j) == l;
        assert j in a - {i};
      }
      ImageSize(a - {i}, b - {k}, v, ids);
    } else {
      assert forall k :: k !in b;
      assert b == {};
    }
  }
}

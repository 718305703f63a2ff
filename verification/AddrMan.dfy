/** The stochastic address manager seen as a value: entries, the "new" and "tried" tables and
    the invariant that ties them together, with what each operation does to them.
    The class in AddrManager.dfy refines these operations. */
module AddrMan {
  import opened Arith

  const TRIED_BUCKET_COUNT := 256
  const NEW_BUCKET_COUNT := 1024
  const BUCKET_SIZE := 64
  const TRIED_BUCKETS_PER_GROUP := 8
  const NEW_BUCKETS_PER_SOURCE_GROUP := 64
  const NEW_BUCKETS_PER_ADDRESS := 8
  const HORIZON_DAYS := 30
  const RETRIES := 3
  const MAX_FAILURES := 10
  const MIN_FAIL_DAYS := 7
  const GETADDR_MAX_PCT := 23
  const GETADDR_MAX := 2500

  /** A network address; two addresses are the same when their 16 bytes are. */
  datatype NetAddr = NetAddr(ip: nat)

  /** A network address with a port. */
  datatype Service = Service(net: NetAddr, port: nat)

  datatype Address = Address(service: Service, nServices: bv64, nTime: int)

  datatype AddrInfo = AddrInfo(
    addr: Address,
    source: NetAddr,
    nLastTry: int,
    nLastCountAttempt: int,
    nLastSuccess: int,
    nAttempts: int,
    nRefCount: int,
    fInTried: bool,
    nRandomPos: int)
  {
    /** The entry without its place in the shuffled vector. */
    function Core(): AddrInfo { this.(nRandomPos := 0) }

    predicate IsTerrible(nNow: int) {
      if nLastTry != 0 && nLastTry >= nNow - 60 then false
      else
        || addr.nTime > nNow + 10 * 60
        || addr.nTime == 0 || nNow - addr.nTime > HORIZON_DAYS * 24 * 60 * 60
        || (nLastSuccess == 0 && nAttempts >= RETRIES)
        || (nNow - nLastSuccess > MIN_FAIL_DAYS * 24 * 60 * 60 && nAttempts >= MAX_FAILURES)
    }

    /** The time stamps are what the consistency check demands of an entry. */
    predicate TimesOk() {
      nLastTry >= 0 && nLastSuccess >= 0 && (fInTried ==> nLastSuccess != 0)
    }
  }

  /** The entry that the two-argument constructor of an address record makes. */
  function NewInfo(addr: Address, source: NetAddr): AddrInfo {
    AddrInfo(addr, source, 0, 0, 0, 0, 0, false, -1)
  }

  /** Storing a value in the 32-bit unsigned time field of an address. */
  function ToUint32(x: int): int { x % 0x1_0000_0000 }

  function Max(a: int, b: int): int { if a < b then b else a }

  datatype Slot = Slot(b: int, p: int)

  predicate InTable(t: Slot, buckets: int) {
    0 <= t.b < buckets && 0 <= t.p < BUCKET_SIZE
  }

  /** The salted hashes that choose buckets and positions: arbitrary functions of
      the secret key, the address group, the source group and the address. */
  datatype Hasher = Hasher(
    nKey: nat,
    group: NetAddr -> nat,
    triedInner: (nat, Service) -> nat,
    triedOuter: (nat, nat, nat) -> nat,
    newInner: (nat, nat, nat) -> nat,
    newOuter: (nat, nat, nat) -> nat,
    position: (nat, bool, int, Service) -> nat)
  {
    function Position(fNew: bool, bucket: int, s: Service): int {
      position(nKey, fNew, bucket, s) % BUCKET_SIZE
    }

    function NewBucket(s: Service, src: NetAddr): int {
      var hash1 := newInner(nKey, group(s.net), group(src));
      newOuter(nKey, group(src), hash1 % NEW_BUCKETS_PER_SOURCE_GROUP) % NEW_BUCKET_COUNT
    }

    function TriedBucket(s: Service): int {
      var hash1 := triedInner(nKey, s);
      triedOuter(nKey, group(s.net), hash1 % TRIED_BUCKETS_PER_GROUP) % TRIED_BUCKET_COUNT
    }

    /** One of 1024 buckets, picked by the source group from the 64 that the address group can tell apart there, and
        one of its 64 places, picked by the address. */
    function NewSlot(s: Service, src: NetAddr): (t: Slot)
      ensures InTable(t, NEW_BUCKET_COUNT)
      ensures t.b == newOuter(nKey, group(src), newInner(nKey, group(s.net), group(src)) % 64) % 1024
      ensures t.p == position(nKey, true, t.b, s) % 64
    {
      var b := NewBucket(s, src);
      Slot(b, Position(true, b, s))
    }

    /** One of 256 buckets, picked by the address group from the 8 that the address can tell apart there, and one of
        its 64 places, picked by the address. */
    function TriedSlot(s: Service): (t: Slot)
      ensures InTable(t, TRIED_BUCKET_COUNT)
      ensures t.b == triedOuter(nKey, group(s.net), triedInner(nKey, s) % 8) % 256
      ensures t.p == position(nKey, false, t.b, s) % 64
    {
      var b := TriedBucket(s);
      Slot(b, Position(false, b, s))
    }
  }

  /** What the manager holds: the entries by id (shuffle position left out) and the occupied slots. */
  datatype View = View(entries: map<int, AddrInfo>, new_: map<Slot, int>, tried: map<Slot, int>)

  /** The new slots that reference an id. */
  function RefSlots(v: View, id: int): set<Slot> {
    set t | t in v.new_ && v.new_[t] == id
  }

  ghost function NewIds(entries: map<int, AddrInfo>): set<int> {
    set id | id in entries && !entries[id].fInTried
  }

  ghost function TriedIds(entries: map<int, AddrInfo>): set<int> {
    set id | id in entries && entries[id].fInTried
  }

  /** Every occupied new slot holds a known untried entry, at that entry's own position. */
  ghost predicate NewTableOk(h: Hasher, v: View) {
    forall t :: t in v.new_ ==>
      && InTable(t, NEW_BUCKET_COUNT)
      && v.new_[t] in v.entries
      && !v.entries[v.new_[t]].fInTried
      && t.p == h.Position(true, t.b, v.entries[v.new_[t]].addr.service)
  }

  /** The tried table holds exactly the tried entries, each in its own slot. */
  ghost predicate TriedTableOk(h: Hasher, v: View) {
    && (forall t :: t in v.tried ==>
          && v.tried[t] in v.entries
          && v.entries[v.tried[t]].fInTried
          && t == h.TriedSlot(v.entries[v.tried[t]].addr.service))
    && (forall id :: id in v.entries && v.entries[id].fInTried ==>
          && h.TriedSlot(v.entries[id].addr.service) in v.tried
          && v.tried[h.TriedSlot(v.entries[id].addr.service)] == id)
  }

  /** Reference counts are exact and in range; only ids in `limbo` are untried and unreferenced. */
  ghost predicate RefsOk(v: View, limbo: set<int>) {
    && limbo <= v.entries.Keys
    && forall id :: id in v.entries ==>
         && v.entries[id].nRefCount == |RefSlots(v, id)| <= NEW_BUCKETS_PER_ADDRESS
         && (id in limbo <==> !v.entries[id].fInTried && v.entries[id].nRefCount == 0)
  }

  /** No two entries share a network address. */
  ghost predicate AddressesDistinct(v: View) {
    forall i, j :: i in v.entries && j in v.entries && i != j ==>
      v.entries[i].addr.service.net != v.entries[j].addr.service.net
  }

  /** Both tables and the reference counts are right. */
  ghost predicate TablesOk(h: Hasher, v: View, limbo: set<int>) {
    NewTableOk(h, v) && TriedTableOk(h, v) && RefsOk(v, limbo) && -1 !in v.entries
  }

  /** The table invariant; `limbo` is empty between operations. */
  ghost predicate Inv(h: Hasher, v: View, limbo: set<int>) { TablesOk(h, v, limbo) && AddressesDistinct(v) }

  ghost predicate TimesOk(v: View) {
    forall id :: id in v.entries ==> v.entries[id].TimesOk()
  }

  // ---------- what the operations do to a view ----------

  /** Remove an entry that nothing references. */
  function Drop(v: View, id: int): View {
    v.(entries := v.entries - {id})
  }

  /** Empty a new slot, taking one reference from its entry. */
  function Deref(v: View, t: Slot): View
    requires t in v.new_ && v.new_[t] in v.entries
  {
    var id := v.new_[t];
    var info := v.entries[id];
    View(v.entries[id := info.(nRefCount := info.nRefCount - 1)], v.new_ - {t}, v.tried)
  }

  /** Empty a new slot; the entry goes when this was its last reference. */
  function Unref(v: View, t: Slot): View {
    if !(t in v.new_ && v.new_[t] in v.entries) then v.(new_ := v.new_ - {t})
    else if v.entries[v.new_[t]].nRefCount == 1 then Drop(Deref(v, t), v.new_[t])
    else Deref(v, t)
  }

  /** Store an entry with one more reference, at a free slot. */
  function Refer(v: View, t: Slot, id: int, info: AddrInfo): View {
    View(v.entries[id := info.(nRefCount := info.nRefCount + 1)], v.new_[t := id], v.tried)
  }

  /** Take an entry out of the new table altogether. */
  function Unlist(v: View, id: int): View
    requires id in v.entries
  {
    View(v.entries[id := v.entries[id].(nRefCount := 0)], v.new_ - RefSlots(v, id), v.tried)
  }

  /** Take a tried entry out of the tried table. */
  function Demote(v: View, t: Slot): View
    requires t in v.tried && v.tried[t] in v.entries
  {
    var id := v.tried[t];
    View(v.entries[id := v.entries[id].(fInTried := false)], v.new_, v.tried - {t})
  }

  /** Put an unlisted entry in its tried slot. */
  function Enter(v: View, t: Slot, id: int, info: AddrInfo): View {
    View(v.entries[id := info.(fInTried := true)], v.new_, v.tried[t := id])
  }

  // ---------- each step keeps the invariant ----------

  /** Entries that only lose ids or change in fields other than the address stay distinct. */
  lemma StaysDistinct(v: View, w: View)
    requires AddressesDistinct(v)
    requires forall id :: id in w.entries ==>
               id in v.entries && w.entries[id].addr.service == v.entries[id].addr.service
    ensures AddressesDistinct(w)
  { }

  /** Clearing slots, and dropping entries that are then unreferenced, keeps both tables right. */
  lemma ShrinkKeepsTables(h: Hasher, v: View, w: View)
    requires NewTableOk(h, v) && TriedTableOk(h, v)
    requires w.tried == v.tried
    requires forall t :: t in w.new_ ==> t in v.new_ && w.new_[t] == v.new_[t] && v.new_[t] in w.entries
    requires forall id :: id in w.entries ==>
               && id in v.entries
               && w.entries[id].addr.service == v.entries[id].addr.service
               && w.entries[id].fInTried == v.entries[id].fInTried
    requires forall id :: id in v.entries && v.entries[id].fInTried ==> id in w.entries
    ensures NewTableOk(h, w) && TriedTableOk(h, w)
  {
    assert NewTableOk(h, w);
    forall t | t in w.tried
      ensures w.tried[t] in w.entries && w.entries[w.tried[t]].fInTried
      ensures t == h.TriedSlot(w.entries[w.tried[t]].addr.service)
    {
      var id := v.tried[t];
      assert id in v.entries && v.entries[id].fInTried;
      assert id in w.entries;
    }
  }

  lemma DropKeepsOk(h: Hasher, v: View, id: int, limbo: set<int>)
    requires TablesOk(h, v, limbo) && id in limbo
    ensures id in v.entries && !v.entries[id].fInTried && v.entries[id].nRefCount == 0
    ensures TablesOk(h, Drop(v, id), limbo - {id})
  {
    var w := Drop(v, id);
    Unreferenced(v, id, limbo);
    ShrinkKeepsTables(h, v, w);
    forall k | k in w.entries
      ensures RefSlots(w, k) == RefSlots(v, k)
    { }
  }

  lemma DropKeepsDistinct(v: View, id: int)
    ensures AddressesDistinct(v) ==> AddressesDistinct(Drop(v, id))
  { }

  lemma DropKeepsInv(h: Hasher, v: View, id: int, limbo: set<int>)
    requires Inv(h, v, limbo)
    requires id in limbo
    ensures id in v.entries && !v.entries[id].fInTried && v.entries[id].nRefCount == 0
    ensures Inv(h, Drop(v, id), limbo - {id})
    ensures TimesOk(v) ==> TimesOk(Drop(v, id))
  {
    hide TablesOk;
    DropKeepsOk(h, v, id, limbo);
    StaysDistinct(v, Drop(v, id));
  }

  lemma DerefKeepsRefs(v: View, t: Slot, limbo: set<int>)
    requires RefsOk(v, limbo)
    requires t in v.new_ && v.new_[t] in v.entries && !v.entries[v.new_[t]].fInTried
    ensures v.new_[t] !in limbo && v.entries[v.new_[t]].nRefCount > 0
    ensures RefsOk(Deref(v, t), if v.entries[v.new_[t]].nRefCount == 1 then limbo + {v.new_[t]} else limbo)
  {
    var w := Deref(v, t);
    var id := v.new_[t];
    assert t in RefSlots(v, id);
    assert RefSlots(w, id) == RefSlots(v, id) - {t};
    forall k | k in w.entries && k != id
      ensures RefSlots(w, k) == RefSlots(v, k)
    { }
  }

  lemma DerefKeepsInv(h: Hasher, v: View, t: Slot, limbo: set<int>)
    requires Inv(h, v, limbo)
    requires t in v.new_
    ensures v.new_[t] in v.entries && v.new_[t] !in limbo
    ensures v.entries[v.new_[t]].nRefCount > 0 && !v.entries[v.new_[t]].fInTried
    ensures Inv(h, Deref(v, t), if v.entries[v.new_[t]].nRefCount == 1 then limbo + {v.new_[t]} else limbo)
    ensures TimesOk(v) ==> TimesOk(Deref(v, t))
  {
    DerefKeepsRefs(v, t, limbo);
    ShrinkKeepsTables(h, v, Deref(v, t));
    hide NewTableOk, TriedTableOk, RefsOk, AddressesDistinct;
    StaysDistinct(v, Deref(v, t));
  }

  lemma UnrefKeepsInv(h: Hasher, v: View, t: Slot, limbo: set<int>)
    requires Inv(h, v, limbo)
    ensures t in v.new_ ==> v.new_[t] in v.entries
    ensures Inv(h, Unref(v, t), limbo) && t !in Unref(v, t).new_
    ensures t !in v.new_ ==> Unref(v, t) == v
    ensures forall id :: id in limbo ==> id in Unref(v, t).entries && Unref(v, t).entries[id] == v.entries[id]
    ensures TimesOk(v) ==> TimesOk(Unref(v, t))
  {
    if t in v.new_ {
      DerefKeepsInv(h, v, t, limbo);
      if v.entries[v.new_[t]].nRefCount == 1 {
        DropKeepsInv(h, Deref(v, t), v.new_[t], limbo + {v.new_[t]});
        assert limbo + {v.new_[t]} - {v.new_[t]} == limbo;
      }
    } else {
      assert v.new_ - {t} == v.new_;
    }
  }

  lemma ReferKeepsRefs(v: View, t: Slot, id: int, limbo: set<int>)
    requires RefsOk(v, limbo)
    requires id in v.entries && !v.entries[id].fInTried && v.entries[id].nRefCount < NEW_BUCKETS_PER_ADDRESS
    requires t !in v.new_
    ensures RefsOk(Refer(v, t, id, v.entries[id]), limbo - {id})
  {
    var w := Refer(v, t, id, v.entries[id]);
    assert RefSlots(w, id) == RefSlots(v, id) + {t};
    forall k | k in w.entries && k != id
      ensures RefSlots(w, k) == RefSlots(v, k)
    { }
  }

  lemma ReferKeepsInv(h: Hasher, v: View, t: Slot, id: int, limbo: set<int>)
    requires Inv(h, v, limbo)
    requires id in v.entries && !v.entries[id].fInTried && v.entries[id].nRefCount < NEW_BUCKETS_PER_ADDRESS
    requires InTable(t, NEW_BUCKET_COUNT) && t.p == h.Position(true, t.b, v.entries[id].addr.service)
    requires t !in v.new_
    ensures Inv(h, Refer(v, t, id, v.entries[id]), limbo - {id})
    ensures TimesOk(v) ==> TimesOk(Refer(v, t, id, v.entries[id]))
  {
    hide TablesOk, AddressesDistinct;
    StaysDistinct(v, Refer(v, t, id, v.entries[id]));
    ReferKeepsOk(h, v, t, id, limbo);
  }

  lemma ReferKeepsOk(h: Hasher, v: View, t: Slot, id: int, limbo: set<int>)
    requires TablesOk(h, v, limbo)
    requires id in v.entries && !v.entries[id].fInTried && v.entries[id].nRefCount < NEW_BUCKETS_PER_ADDRESS
    requires InTable(t, NEW_BUCKET_COUNT) && t.p == h.Position(true, t.b, v.entries[id].addr.service)
    requires t !in v.new_
    ensures TablesOk(h, Refer(v, t, id, v.entries[id]), limbo - {id})
  {
    hide NewTableOk, TriedTableOk, RefsOk;
    ReferKeepsRefs(v, t, id, limbo);
    ReferKeepsTables(h, v, t, id);
  }

  lemma ReferKeepsTables(h: Hasher, v: View, t: Slot, id: int)
    requires NewTableOk(h, v) && TriedTableOk(h, v)
    requires id in v.entries && !v.entries[id].fInTried
    requires InTable(t, NEW_BUCKET_COUNT) && t.p == h.Position(true, t.b, v.entries[id].addr.service)
    ensures NewTableOk(h, Refer(v, t, id, v.entries[id])) && TriedTableOk(h, Refer(v, t, id, v.entries[id]))
  { }

  lemma UnlistKeepsRefs(v: View, id: int, limbo: set<int>)
    requires RefsOk(v, limbo)
    requires id in v.entries && !v.entries[id].fInTried
    ensures RefsOk(Unlist(v, id), limbo + {id})
  {
    var w := Unlist(v, id);
    assert RefSlots(w, id) == {};
    forall k | k in w.entries && k != id
      ensures RefSlots(w, k) == RefSlots(v, k)
    { }
  }

  lemma UnlistKeepsInv(h: Hasher, v: View, id: int, limbo: set<int>)
    requires Inv(h, v, limbo)
    requires id in v.entries && !v.entries[id].fInTried
    ensures Inv(h, Unlist(v, id), limbo + {id})
    ensures TimesOk(v) ==> TimesOk(Unlist(v, id))
  {
    ShrinkKeepsTables(h, v, Unlist(v, id));
    hide NewTableOk, TriedTableOk, RefsOk, AddressesDistinct;
    StaysDistinct(v, Unlist(v, id));
    UnlistKeepsRefs(v, id, limbo);
  }

  /** Flipping the tried mark of an unreferenced entry moves it in or out of limbo. */
  lemma RetagKeepsRefs(v: View, w: View, id: int, limbo: set<int>)
    requires RefsOk(v, limbo)
    requires id in v.entries && v.entries[id].nRefCount == 0
    requires w.new_ == v.new_
    requires w.entries == v.entries[id := v.entries[id].(fInTried := !v.entries[id].fInTried)]
    ensures RefsOk(w, if w.entries[id].fInTried then limbo - {id} else limbo + {id})
  {
    forall k | k in w.entries
      ensures RefSlots(w, k) == RefSlots(v, k)
    { }
  }

  lemma Unreferenced(v: View, id: int, limbo: set<int>)
    requires RefsOk(v, limbo)
    requires id in v.entries && v.entries[id].nRefCount == 0
    ensures forall t :: t in v.new_ ==> v.new_[t] != id
  {
    forall t | t in v.new_
      ensures v.new_[t] != id
    {
      assert v.new_[t] == id ==> t in RefSlots(v, id);
    }
  }

  lemma LimboIsUnreferenced(h: Hasher, v: View, id: int, limbo: set<int>)
    requires TablesOk(h, v, limbo) && id in limbo
    ensures id in v.entries && !v.entries[id].fInTried && v.entries[id].nRefCount == 0
  { }

  lemma DemoteKeepsInv(h: Hasher, v: View, t: Slot, limbo: set<int>)
    requires Inv(h, v, limbo)
    requires t in v.tried
    ensures v.tried[t] in v.entries && v.entries[v.tried[t]].fInTried
    ensures v.entries[v.tried[t]].nRefCount == 0 && v.tried[t] !in limbo
    ensures Inv(h, Demote(v, t), limbo + {v.tried[t]})
    ensures TimesOk(v) ==> TimesOk(Demote(v, t))
  {
    assert RefSlots(v, v.tried[t]) == {};
    RetagKeepsRefs(v, Demote(v, t), v.tried[t], limbo);
    hide RefsOk;
    StaysDistinct(v, Demote(v, t));
    hide AddressesDistinct;
    DemoteKeepsTables(h, v, t);
    hide NewTableOk, TriedTableOk;
  }

  lemma DemoteKeepsTables(h: Hasher, v: View, t: Slot)
    requires NewTableOk(h, v) && TriedTableOk(h, v)
    requires t in v.tried
    ensures NewTableOk(h, Demote(v, t)) && TriedTableOk(h, Demote(v, t))
  { }

  lemma EnterKeepsInv(h: Hasher, v: View, id: int, limbo: set<int>)
    requires Inv(h, v, limbo)
    requires id in limbo
    requires h.TriedSlot(v.entries[id].addr.service) !in v.tried
    ensures Inv(h, Enter(v, h.TriedSlot(v.entries[id].addr.service), id, v.entries[id]), limbo - {id})
    ensures TimesOk(v) && v.entries[id].nLastSuccess != 0 ==>
              TimesOk(Enter(v, h.TriedSlot(v.entries[id].addr.service), id, v.entries[id]))
  {
    LimboIsUnreferenced(h, v, id, limbo);
    hide TablesOk, AddressesDistinct;
    StaysDistinct(v, Enter(v, h.TriedSlot(v.entries[id].addr.service), id, v.entries[id]));
    EnterKeepsOk(h, v, id, limbo);
  }

  lemma EnterKeepsOk(h: Hasher, v: View, id: int, limbo: set<int>)
    requires TablesOk(h, v, limbo) && id in limbo
    requires h.TriedSlot(v.entries[id].addr.service) !in v.tried
    ensures TablesOk(h, Enter(v, h.TriedSlot(v.entries[id].addr.service), id, v.entries[id]), limbo - {id})
  {
    LimboIsUnreferenced(h, v, id, limbo);
    hide NewTableOk, TriedTableOk, RefsOk;
    RetagKeepsRefs(v, Enter(v, h.TriedSlot(v.entries[id].addr.service), id, v.entries[id]), id, limbo);
    Unreferenced(v, id, limbo);
    EnterKeepsTables(h, v, id);
  }

  lemma EnterKeepsTables(h: Hasher, v: View, id: int)
    requires NewTableOk(h, v) && TriedTableOk(h, v)
    requires id in v.entries && h.TriedSlot(v.entries[id].addr.service) !in v.tried
    requires forall t :: t in v.new_ ==> v.new_[t] != id
    ensures var w := Enter(v, h.TriedSlot(v.entries[id].addr.service), id, v.entries[id]);
            NewTableOk(h, w) && TriedTableOk(h, w)
  { }

  // ---------- promotion to the tried table ----------

  /** Free the tried slot `t`: its holder goes back to the new table, in the slot its source
      gives, whatever was there losing that reference. */
  function Evict(h: Hasher, v: View, t: Slot): View {
    if !(t in v.tried && v.tried[t] in v.entries) then v
    else
      var id := v.tried[t];
      var v1 := Demote(v, t);
      var u := h.NewSlot(v.entries[id].addr.service, v.entries[id].source);
      Refer(Unref(v1, u), u, id, v1.entries[id])
  }

  lemma EvictKeepsInv(h: Hasher, v: View, t: Slot, limbo: set<int>)
    requires Inv(h, v, limbo)
    ensures Inv(h, Evict(h, v, t), limbo) && t !in Evict(h, v, t).tried
    ensures forall id :: id in limbo ==> id in Evict(h, v, t).entries && Evict(h, v, t).entries[id] == v.entries[id]
    ensures TimesOk(v) ==> TimesOk(Evict(h, v, t))
  {
    if t in v.tried {
      var id := v.tried[t];
      DemoteKeepsInv(h, v, t, limbo);
      var v1 := Demote(v, t);
      var u := h.NewSlot(v.entries[id].addr.service, v.entries[id].source);
      hide NewTableOk, TriedTableOk, RefsOk, AddressesDistinct, TimesOk;
      UnrefKeepsInv(h, v1, u, limbo + {id});
      ReferKeepsInv(h, Unref(v1, u), u, id, limbo + {id});
      assert limbo + {id} - {id} == limbo;
    }
  }

  /** Move an untried entry to the tried table. */
  function Promote(h: Hasher, v: View, id: int): View
    requires id in v.entries
  {
    var t := h.TriedSlot(v.entries[id].addr.service);
    var v1 := Unlist(v, id);
    Enter(Evict(h, v1, t), t, id, v1.entries[id])
  }

  lemma PromoteKeepsInv(h: Hasher, v: View, id: int)
    requires Inv(h, v, {})
    requires id in v.entries && !v.entries[id].fInTried
    ensures Inv(h, Promote(h, v, id), {})
    ensures TimesOk(v) && v.entries[id].nLastSuccess != 0 ==> TimesOk(Promote(h, v, id))
  {
    UnlistKeepsInv(h, v, id, {});
    var t := h.TriedSlot(v.entries[id].addr.service);
    EvictKeepsInv(h, Unlist(v, id), t, {} + {id});
    EnterKeepsInv(h, Evict(h, Unlist(v, id), t), id, {} + {id});
    assert {} + {id} - {id} == {};
  }

  /** A promoted entry is tried with its time stamps as they were, so a bad stamp stays bad. */
  lemma PromoteTimes(h: Hasher, v: View, id: int)
    requires id in v.entries && v.entries[id].nLastSuccess <= 0
    ensures !TimesOk(Promote(h, v, id))
  {
    var w := Promote(h, v, id);
    assert id in w.entries && w.entries[id].fInTried && w.entries[id].nLastSuccess == v.entries[id].nLastSuccess;
  }

  // ---------- the indexes derived from the entries ----------

  /** The shuffled vector is a bijection with the ids, inverse to nRandomPos. */
  ghost predicate RandomOk(info: map<int, AddrInfo>, random: seq<int>) {
    && (forall id :: id in info ==>
          0 <= info[id].nRandomPos < |random| && random[info[id].nRandomPos] == id)
    && (forall i :: 0 <= i < |random| ==> random[i] in info && info[random[i]].nRandomPos == i)
  }

  /** Ids are below the id counter. */
  ghost predicate IdsOk(info: map<int, AddrInfo>, ids: int) { ids >= 0 && forall id :: id in info ==> 0 <= id < ids }

  /** The address index is the inverse of "address of an id", and ids are below the id counter. */
  ghost predicate AddrOk(info: map<int, AddrInfo>, addr: map<NetAddr, int>, ids: int) {
    && IdsOk(info, ids)
    && (forall id :: id in info ==> info[id].addr.service.net in addr && addr[info[id].addr.service.net] == id)
    && (forall a :: a in addr ==> addr[a] in info && info[addr[a]].addr.service.net == a)
  }

  /** Both depend on the ids and their addresses only. */
  lemma AddrSame(info: map<int, AddrInfo>, info': map<int, AddrInfo>, addr: map<NetAddr, int>, ids: int)
    requires info'.Keys == info.Keys && forall id :: id in info ==> info'[id].addr.service == info[id].addr.service
    ensures IdsOk(info, ids) ==> IdsOk(info', ids)
    ensures AddrOk(info, addr, ids) ==> AddrOk(info', addr, ids)
  { }

  ghost function Cores(info: map<int, AddrInfo>): map<int, AddrInfo> {
    map id | id in info :: info[id].Core()
  }

  lemma CoresAt(info: map<int, AddrInfo>)
    ensures Cores(info).Keys == info.Keys
    ensures forall id :: id in info ==> Cores(info)[id] == info[id].Core()
  { }

  /** The counters are exact, apart from `uncounted` untried ids that nNew leaves out. */
  ghost predicate CountsOk(entries: map<int, AddrInfo>, nNew: int, nTried: int, uncounted: int) {
    nNew + uncounted == |NewIds(entries)| && nTried == |TriedIds(entries)|
  }

  /** The id table after two places of the shuffled vector are exchanged. */
  function Swapped(info: map<int, AddrInfo>, random: seq<int>, i: int, j: int): map<int, AddrInfo>
    requires 0 <= i < |random| && 0 <= j < |random| && random[i] in info && random[j] in info
  {
    if i == j then info
    else
      var info1 := info[random[i] := info[random[i]].(nRandomPos := j)];
      info1[random[j] := info1[random[j]].(nRandomPos := i)]
  }

  lemma SwapKeepsIndexes(info: map<int, AddrInfo>, random: seq<int>, addr: map<NetAddr, int>, ids: int, i: int, j: int)
    requires RandomOk(info, random)
    requires 0 <= i < |random| && 0 <= j < |random|
    ensures RandomOk(Swapped(info, random, i, j), random[i := random[j]][j := random[i]])
    ensures IdsOk(info, ids) ==> IdsOk(Swapped(info, random, i, j), ids)
    ensures AddrOk(info, addr, ids) ==> AddrOk(Swapped(info, random, i, j), addr, ids)
    ensures Cores(Swapped(info, random, i, j)) == Cores(info)
  {
    SwapKeepsRandom(info, random, i, j);
    SwapIsSilent(info, random, i, j);
    hide RandomOk, Swapped, AddrOk, IdsOk;
    AddrSame(info, Swapped(info, random, i, j), addr, ids);
  }

  lemma SwapKeepsRandom(info: map<int, AddrInfo>, random: seq<int>, i: int, j: int)
    requires RandomOk(info, random)
    requires 0 <= i < |random| && 0 <= j < |random|
    ensures RandomOk(Swapped(info, random, i, j), random[i := random[j]][j := random[i]])
  { }

  lemma SwapIsSilent(info: map<int, AddrInfo>, random: seq<int>, i: int, j: int)
    requires RandomOk(info, random)
    requires 0 <= i < |random| && 0 <= j < |random|
    ensures Swapped(info, random, i, j).Keys == info.Keys
    ensures forall id :: id in info ==> Swapped(info, random, i, j)[id].Core() == info[id].Core()
    ensures forall id :: id in info ==> Swapped(info, random, i, j)[id].addr == info[id].addr
  { }

  lemma RemoveKeepsIndexes(info: map<int, AddrInfo>, random: seq<int>, addr: map<NetAddr, int>, ids: int, id: int)
    requires RandomOk(info, random) && IdsOk(info, ids)
    requires id in info && info[id].nRandomPos == |random| - 1
    ensures RandomOk(info - {id}, random[..|random| - 1]) && IdsOk(info - {id}, ids)
    ensures AddrOk(info, addr, ids) ==> AddrOk(info - {id}, addr - {info[id].addr.service.net}, ids)
    ensures Cores(info - {id}) == Cores(info) - {id}
    ensures !info[id].fInTried ==>
              && NewIds(Cores(info)) == NewIds(Cores(info - {id})) + {id} && id !in NewIds(Cores(info - {id}))
              && TriedIds(Cores(info - {id})) == TriedIds(Cores(info))
  { }

  lemma UnknownNet(info: map<int, AddrInfo>, addr: map<NetAddr, int>, ids: int, net: NetAddr)
    requires AddrOk(info, addr, ids)
    requires net !in addr
    ensures ids !in info && ids >= 0
    ensures forall id :: id in info ==> info[id].addr.service.net != net
  { }

  lemma AppendKeepsIndexes(info: map<int, AddrInfo>, random: seq<int>, addr: map<NetAddr, int>, ids: int, i': AddrInfo)
    requires RandomOk(info, random) && IdsOk(info, ids) && i'.nRandomPos == |random|
    ensures ids !in info && ids >= 0
    ensures RandomOk(info[ids := i'], random + [ids]) && IdsOk(info[ids := i'], ids + 1)
    ensures Cores(info[ids := i']) == Cores(info)[ids := i'.Core()]
    ensures !i'.fInTried ==>
              && NewIds(Cores(info[ids := i'])) == NewIds(Cores(info)) + {ids} && ids !in NewIds(Cores(info))
              && TriedIds(Cores(info[ids := i'])) == TriedIds(Cores(info))
    ensures i'.fInTried ==>
              && TriedIds(Cores(info[ids := i'])) == TriedIds(Cores(info)) + {ids} && ids !in TriedIds(Cores(info))
              && NewIds(Cores(info[ids := i'])) == NewIds(Cores(info))
  { }

  lemma AppendKeepsAddr(info: map<int, AddrInfo>, addr: map<NetAddr, int>, ids: int, i': AddrInfo)
    requires AddrOk(info, addr, ids) && i'.addr.service.net !in addr
    ensures AddrOk(info[ids := i'], addr[i'.addr.service.net := ids], ids + 1)
  { }

  /** Rewriting an entry in place, address and shuffle position untouched. */
  lemma TouchKeepsIndexes(info: map<int, AddrInfo>, random: seq<int>, addr: map<NetAddr, int>, ids: int, id: int,
                          i': AddrInfo)
    requires RandomOk(info, random)
    requires id in info && i'.addr.service == info[id].addr.service && i'.nRandomPos == info[id].nRandomPos
    ensures RandomOk(info[id := i'], random)
    ensures IdsOk(info, ids) ==> IdsOk(info[id := i'], ids)
    ensures AddrOk(info, addr, ids) ==> AddrOk(info[id := i'], addr, ids)
    ensures Cores(info[id := i']) == Cores(info)[id := i'.Core()]
    ensures i'.fInTried == info[id].fInTried ==>
              && NewIds(Cores(info[id := i'])) == NewIds(Cores(info))
              && TriedIds(Cores(info[id := i'])) == TriedIds(Cores(info))
    ensures i'.fInTried && !info[id].fInTried ==>
              && NewIds(Cores(info)) == NewIds(Cores(info[id := i'])) + {id} && id !in NewIds(Cores(info[id := i']))
              && TriedIds(Cores(info[id := i'])) == TriedIds(Cores(info)) + {id} && id !in TriedIds(Cores(info))
    ensures !i'.fInTried && info[id].fInTried ==>
              && NewIds(Cores(info[id := i'])) == NewIds(Cores(info)) + {id} && id !in NewIds(Cores(info))
              && TriedIds(Cores(info)) == TriedIds(Cores(info[id := i'])) + {id}
              && id !in TriedIds(Cores(info[id := i']))
  {
    CoresAt(info);
    AddrSame(info, info[id := i'], addr, ids);
    assert Cores(info[id := i']) == Cores(info)[id := i'.Core()];
    hide Cores, NewIds, TriedIds;
    TouchKinds(Cores(info), id, i'.Core());
  }

  /** The ids of either kind after one entry is changed. */
  lemma TouchKinds(entries: map<int, AddrInfo>, id: int, x: AddrInfo)
    requires id in entries
    ensures var e := entries[id := x];
            if x.fInTried == entries[id].fInTried then NewIds(e) == NewIds(entries) && TriedIds(e) == TriedIds(entries)
            else if x.fInTried then
              && NewIds(entries) == NewIds(e) + {id} && id !in NewIds(e)
              && TriedIds(e) == TriedIds(entries) + {id} && id !in TriedIds(entries)
            else
              && NewIds(e) == NewIds(entries) + {id} && id !in NewIds(entries)
              && TriedIds(entries) == TriedIds(e) + {id} && id !in TriedIds(e)
  { }

  // ---------- clearing an entry's slots bucket by bucket ----------

  function SlotsBelow(v: View, id: int, bucket: int): set<Slot> {
    set t | t in v.new_ && v.new_[t] == id && t.b < bucket
  }

  /** The view once the slots of `id` in the first buckets are cleared. */
  function Unlisting(v: View, id: int, bucket: int): View
    requires id in v.entries
  {
    var cleared := SlotsBelow(v, id, bucket);
    View(v.entries[id := v.entries[id].(nRefCount := v.entries[id].nRefCount - |cleared|)], v.new_ - cleared, v.tried)
  }

  lemma SlotsBelowStep(h: Hasher, v: View, id: int, bucket: int)
    requires NewTableOk(h, v)
    requires id in v.entries && 0 <= bucket < NEW_BUCKET_COUNT
    ensures var t := Slot(bucket, h.Position(true, bucket, v.entries[id].addr.service));
            SlotsBelow(v, id, bucket + 1) ==
            SlotsBelow(v, id, bucket) + if t in v.new_ && v.new_[t] == id then {t} else {}
  { }

  lemma UnlistingStep(h: Hasher, v: View, id: int, bucket: int, limbo: set<int>)
    requires Inv(h, v, limbo)
    requires id in v.entries && 0 <= bucket < NEW_BUCKET_COUNT
    ensures var t := Slot(bucket, h.Position(true, bucket, v.entries[id].addr.service));
            var u := Unlisting(v, id, bucket);
            Unlisting(v, id, bucket + 1) == if t in u.new_ && u.new_[t] == id then Deref(u, t) else u
  {
    hide TriedTableOk, RefsOk, AddressesDistinct, Unlisting;
    SlotsBelowStep(h, v, id, bucket);
    UnlistingNext(v, id, bucket, Slot(bucket, h.Position(true, bucket, v.entries[id].addr.service)));
  }

  lemma UnlistingNext(v: View, id: int, bucket: int, t: Slot)
    requires id in v.entries && t.b == bucket
    requires SlotsBelow(v, id, bucket + 1) ==
      SlotsBelow(v, id, bucket) + if t in v.new_ && v.new_[t] == id then {t} else {}
    ensures var u := Unlisting(v, id, bucket);
            Unlisting(v, id, bucket + 1) == if t in u.new_ && u.new_[t] == id then Deref(u, t) else u
  {
    var a := SlotsBelow(v, id, bucket);
    assert t !in a;
    hide SlotsBelow;
    if t in v.new_ && v.new_[t] == id {
      assert v.new_ - (a + {t}) == v.new_ - a - {t};
    } else {
      assert a + {} == a;
    }
  }

  lemma UnlistingEnds(h: Hasher, v: View, id: int, limbo: set<int>)
    requires Inv(h, v, limbo)
    requires id in v.entries
    ensures Unlisting(v, id, 0) == v
    ensures Unlisting(v, id, NEW_BUCKET_COUNT) == Unlist(v, id)
  {
    assert SlotsBelow(v, id, 0) == {};
    assert v.new_ - {} == v.new_;
    assert SlotsBelow(v, id, NEW_BUCKET_COUNT) == RefSlots(v, id);
  }

  // ---------- adding an address ----------

  function Created(v: View, id: int, info: AddrInfo): View {
    v.(entries := v.entries[id := info.Core()])
  }

  lemma CreateKeepsInv(h: Hasher, v: View, id: int, info: AddrInfo, limbo: set<int>)
    requires Inv(h, v, limbo)
    requires id !in v.entries && id != -1
    requires forall k :: k in v.entries ==> v.entries[k].addr.service.net != info.addr.service.net
    requires info.nRefCount == 0 && !info.fInTried
    ensures Inv(h, Created(v, id, info), limbo + {id})
    ensures TimesOk(v) && info.TimesOk() ==> TimesOk(Created(v, id, info))
  {
    CreateKeepsOk(h, v, id, info, limbo);
    hide TablesOk;
  }

  lemma CreateKeepsOk(h: Hasher, v: View, id: int, info: AddrInfo, limbo: set<int>)
    requires TablesOk(h, v, limbo)
    requires id !in v.entries && id != -1
    requires info.nRefCount == 0 && !info.fInTried
    ensures TablesOk(h, Created(v, id, info), limbo + {id})
  {
    var w := Created(v, id, info);
    assert RefSlots(w, id) == {};
    forall k | k in v.entries
      ensures RefSlots(w, k) == RefSlots(v, k)
    { }
  }

  /** Changes to an entry's statistics, times and services leave the tables right. */
  lemma RewriteKeepsInv(h: Hasher, v: View, id: int, info: AddrInfo, limbo: set<int>)
    requires Inv(h, v, limbo)
    requires id in v.entries
    requires info.addr.service == v.entries[id].addr.service
    requires info.nRefCount == v.entries[id].nRefCount && info.fInTried == v.entries[id].fInTried
    ensures Inv(h, Created(v, id, info), limbo)
    ensures TimesOk(v) ==> (TimesOk(Created(v, id, info)) <==> info.TimesOk())
  {
    var w := Created(v, id, info);
    assert w.entries[id] == info.Core();
    forall k | k in v.entries
      ensures RefSlots(w, k) == RefSlots(v, k)
    { }
    assert RefsOk(w, limbo);
    ShrinkKeepsTables(h, v, w);
    hide NewTableOk, TriedTableOk, RefsOk, AddressesDistinct;
    StaysDistinct(v, w);
  }

  /** Whether the entry in slot `t` gives way to `id`: a terrible entry does, and one that has
      other references does for an entry that has none yet. */
  predicate GivesWay(v: View, t: Slot, id: int, nNow: int)
    requires id in v.entries && t in v.new_ && v.new_[t] in v.entries
  {
    var existing := v.entries[v.new_[t]];
    existing.IsTerrible(nNow) || (existing.nRefCount > 1 && v.entries[id].nRefCount == 0)
  }

  /** Give `id` a reference at slot `t` if the slot is free or its entry gives way;
      an entry left without any reference is dropped. */
  function Insert(v: View, id: int, t: Slot, nNow: int): View
    requires id in v.entries
  {
    if t in v.new_ && v.new_[t] == id then v
    else if !(t in v.new_ && v.new_[t] in v.entries) || GivesWay(v, t, id, nNow) then
      Refer(Unref(v, t), t, id, v.entries[id])
    else if v.entries[id].nRefCount == 0 then Drop(v, id)
    else v
  }

  /** The ids an entry puts in limbo: itself while it has no reference. */
  function LimboOf(v: View, id: int): set<int>
    requires id in v.entries
  {
    if v.entries[id].nRefCount == 0 then {id} else {}
  }

  lemma InsertKeepsInv(h: Hasher, v: View, id: int, t: Slot, nNow: int)
    requires id in v.entries && !v.entries[id].fInTried && v.entries[id].nRefCount < NEW_BUCKETS_PER_ADDRESS
    requires Inv(h, v, LimboOf(v, id))
    requires InTable(t, NEW_BUCKET_COUNT) && t.p == h.Position(true, t.b, v.entries[id].addr.service)
    ensures Inv(h, Insert(v, id, t, nNow), {})
    ensures TimesOk(v) ==> TimesOk(Insert(v, id, t, nNow))
  {
    var limbo := LimboOf(v, id);
    UnrefKeepsInv(h, v, t, limbo);
    if t in v.new_ && v.new_[t] == id {
      assert t in RefSlots(v, id);
    } else if t !in v.new_ || GivesWay(v, t, id, nNow) {
      hide NewTableOk, TriedTableOk, RefsOk, AddressesDistinct, TimesOk;
      ReferKeepsInv(h, Unref(v, t), t, id, limbo);
      assert limbo - {id} == {};
    } else if v.entries[id].nRefCount == 0 {
      DropKeepsInv(h, v, id, limbo);
      assert limbo - {id} == {};
    }
  }

  /** Slot `t` goes to `id`, stored as `info`; whoever held it loses a reference, and with the last one goes. */
  ghost predicate Takes(v: View, w: View, t: Slot, id: int, info: AddrInfo) {
    && w.tried == v.tried && w.new_ == v.new_[t := id]
    && if t !in v.new_ then w.entries == v.entries[id := info]
       else
         var k := v.new_[t];
         && k in v.entries
         && if v.entries[k].nRefCount == 1 then w.entries == (v.entries - {k})[id := info]
            else w.entries == v.entries[k := v.entries[k].(nRefCount := v.entries[k].nRefCount - 1)][id := info]
  }

  /** Who gets a slot: `id` does if it is free, or its holder is terrible, or the holder has other references and `id`
      has none. Otherwise nothing changes, but that an entry without a reference goes. */
  lemma InsertIs(h: Hasher, v: View, id: int, t: Slot, nNow: int)
    requires id in v.entries && Inv(h, v, LimboOf(v, id)) && !(t in v.new_ && v.new_[t] == id)
    ensures t in v.new_ ==> v.new_[t] in v.entries
    ensures var w, mine := Insert(v, id, t, nNow), v.entries[id];
      if t !in v.new_ || v.entries[v.new_[t]].IsTerrible(nNow) ||
        (mine.nRefCount == 0 && v.entries[v.new_[t]].nRefCount > 1)
      then Takes(v, w, t, id, mine.(nRefCount := mine.nRefCount + 1))
      else w == if mine.nRefCount == 0 then v.(entries := v.entries - {id}) else v
  {
    assert t in v.new_ ==> v.new_[t] in v.entries;
    hide Inv;
    assert t in v.new_ ==> (v.new_ - {t})[t := id] == v.new_[t := id];
    assert t !in v.new_ ==> v.new_ - {t} == v.new_;
    if t in v.new_ {
      var k := v.new_[t];
      assert v.entries[k := v.entries[k].(nRefCount := v.entries[k].nRefCount - 1)] - {k} == v.entries - {k};
    }
  }

  /** Taking a slot just after an entry is made, or changed in place, is taking it before. */
  lemma TakesFromBefore(v: View, w: View, t: Slot, id: int, was: AddrInfo, info: AddrInfo)
    requires Takes(v.(entries := v.entries[id := was]), w, t, id, info)
    requires t in v.new_ ==> v.new_[t] in v.entries && v.new_[t] != id
    ensures Takes(v, w, t, id, info)
  {
    if t in v.new_ {
      var k := v.new_[t];
      assert (v.entries[id := was] - {k})[id := info] == (v.entries - {k})[id := info];
      var less := v.entries[k].(nRefCount := v.entries[k].nRefCount - 1);
      assert v.entries[id := was][k := less][id := info] == v.entries[k := less][id := info];
    } else {
      assert v.entries[id := was][id := info] == v.entries[id := info];
    }
  }

  lemma HoldersKnown(h: Hasher, v: View)
    requires Inv(h, v, {})
    ensures forall t :: t in v.new_ ==> v.new_[t] in v.entries
  { }

  /** What hearing about a known address again changes in its entry. */
  function Refreshed(info: AddrInfo, addr: Address, nTimePenalty: int, nNow: int): AddrInfo {
    var fCurrentlyOnline := nNow - addr.nTime < 24 * 60 * 60;
    var nUpdateInterval := if fCurrentlyOnline then 60 * 60 else 24 * 60 * 60;
    var nTime :=
      if addr.nTime != 0 && (info.addr.nTime == 0 || info.addr.nTime < addr.nTime - nUpdateInterval - nTimePenalty)
      then ToUint32(Max(0, addr.nTime - nTimePenalty)) else info.addr.nTime;
    info.(addr := info.addr.(nTime := nTime, nServices := info.addr.nServices | addr.nServices))
  }

  /** Whether a refreshed entry may be given one more reference. */
  predicate MayGainReference(info: AddrInfo, addr: Address) {
    && addr.nTime != 0 && !(info.addr.nTime != 0 && addr.nTime <= info.addr.nTime)
    && !info.fInTried && info.nRefCount != NEW_BUCKETS_PER_ADDRESS
  }

  /** Hearing of a known address adds its services and moves its time forward, to the time heard of less the penalty,
      exactly if that is an hour later for an address seen in the last day, or else a day, or there was no time. Then
      it may gain a reference exactly if it is untried, has fewer than eight and the time heard of is still newer. */
  lemma HeardAgain(info: AddrInfo, addr: Address, nTimePenalty: int, nNow: int)
    requires 0 <= info.addr.nTime && 0 <= addr.nTime < 0x1_0000_0000 && nTimePenalty >= 0
    ensures var now := Refreshed(info, addr, nTimePenalty, nNow);
      && now == info.(addr := Address(info.addr.service, now.addr.nServices, now.addr.nTime))
      && now.addr.nServices == info.addr.nServices | addr.nServices
      && (info.addr.nTime != 0 ==>
            && now.addr.nTime >= info.addr.nTime
            && (now.addr.nTime != info.addr.nTime <==>
                  addr.nTime - nTimePenalty > info.addr.nTime + if nNow < addr.nTime + 86400 then 3600 else 86400))
      && (info.addr.nTime == 0 || now.addr.nTime != info.addr.nTime ==>
            now.addr.nTime == if addr.nTime < nTimePenalty then 0 else addr.nTime - nTimePenalty)
      && (MayGainReference(now, addr) <==> !info.fInTried && info.nRefCount != 8 && addr.nTime > now.addr.nTime)
  { }

  /** An entry is worth keeping exactly if it was tried in the last minute, or if it was seen within thirty days and not
      more than ten minutes ahead, and has not failed three times without a success nor ten times since one over a week
      ago. */
  lemma WorthKeeping(info: AddrInfo, nNow: int)
    ensures !info.IsTerrible(nNow) <==>
      || (info.nLastTry != 0 && nNow - info.nLastTry <= 60)
      || (&& info.addr.nTime != 0 && -600 <= nNow - info.addr.nTime <= 2_592_000
          && (info.nAttempts < 3 || info.nLastSuccess != 0)
          && (info.nAttempts < 10 || nNow - info.nLastSuccess <= 604_800))
  { }

  /** A first entry for an address, its time set back by the penalty. */
  function FirstInfo(addr: Address, source: NetAddr, nTimePenalty: int): AddrInfo {
    var info := NewInfo(addr, source);
    info.(addr := addr.(nTime := ToUint32(Max(0, addr.nTime - nTimePenalty))))
  }

  // ---------- what adding an address does ----------

  /** A new address under `id`: it is stored with one reference, its time set back by the penalty, if its slot is free
      or the holder is terrible or has other references; otherwise nothing changes. */
  ghost predicate AddedNew(h: Hasher, v: View, w: View, id: int, addr: Address, source: NetAddr, nTimePenalty: int,
                           nNow: int) {
    var t := h.NewSlot(addr.service, source);
    var nTime := (if addr.nTime < nTimePenalty then 0 else addr.nTime - nTimePenalty) % 0x1_0000_0000;
    && id !in v.entries && (t in v.new_ ==> v.new_[t] in v.entries)
    && if t !in v.new_ || v.entries[v.new_[t]].IsTerrible(nNow) || v.entries[v.new_[t]].nRefCount > 1
       then Takes(v, w, t, id, AddrInfo(addr.(nTime := nTime), source, 0, 0, 0, 0, 1, false, 0))
       else w == v
  }

  /** An entry with this many references gets another one once in so many times. */
  ghost function Odds(nRefCount: nat): (r: int)
    ensures r == Pow(2, nRefCount) && r >= 1
  {
    PowPos(2, nRefCount);
    Pow(2, nRefCount)
  }

  /** A known address: it is brought up to date and, if it may gain a reference and the random number has it, takes its
      slot if that is free or the holder is terrible. */
  ghost predicate AddedKnown(h: Hasher, v: View, w: View, id: int, addr: Address, source: NetAddr, nTimePenalty: int,
                             nNow: int, nRand: nat) {
    && id in v.entries && v.entries[id].addr.service.net == addr.service.net
    && var info := Refreshed(v.entries[id], addr, nTimePenalty, nNow);
       var t := h.NewSlot(info.addr.service, source);
       && (t in v.new_ ==> v.new_[t] in v.entries) && info.nRefCount >= 0
       && if MayGainReference(info, addr) && nRand % Odds(info.nRefCount) == 0 &&
             (t !in v.new_ || (v.new_[t] != id && v.entries[v.new_[t]].IsTerrible(nNow)))
          then Takes(v, w, t, id, info.(nRefCount := info.nRefCount + 1))
          else w == v.(entries := v.entries[id := info])
  }

  lemma NewTakes(h: Hasher, v: View, id: int, addr: Address, source: NetAddr, nTimePenalty: int, nNow: int)
    requires Inv(h, v, {}) && id !in v.entries && id != -1
    requires forall k :: k in v.entries ==> v.entries[k].addr.service.net != addr.service.net
    ensures var first := FirstInfo(addr, source, nTimePenalty);
      AddedNew(h, v, Insert(Created(v, id, first), id, h.NewSlot(addr.service, source), nNow), id, addr, source,
        nTimePenalty, nNow)
  {
    hide Takes, Insert, Inv, Hasher.NewSlot;
    NewInfoTakes(h, v, id, FirstInfo(addr, source, nTimePenalty), h.NewSlot(addr.service, source), nNow);
  }

  lemma NewInfoTakes(h: Hasher, v: View, id: int, info: AddrInfo, t: Slot, nNow: int)
    requires Inv(h, v, {}) && id !in v.entries && id != -1 && info.nRefCount == 0 && !info.fInTried
    requires forall k :: k in v.entries ==> v.entries[k].addr.service.net != info.addr.service.net
    ensures t in v.new_ ==> v.new_[t] in v.entries
    ensures var w := Insert(Created(v, id, info), id, t, nNow);
      if t !in v.new_ || v.entries[v.new_[t]].IsTerrible(nNow) || v.entries[v.new_[t]].nRefCount > 1
      then Takes(v, w, t, id, info.Core().(nRefCount := 1)) else w == v
  {
    CreateKeepsInv(h, v, id, info, {});
    HoldersKnown(h, v);
    hide Inv, Takes, Insert, AddrInfo.IsTerrible;
    var u := Created(v, id, info);
    assert {} + {id} == LimboOf(u, id);
    InsertIs(h, u, id, t, nNow);
    if t !in v.new_ || v.entries[v.new_[t]].IsTerrible(nNow) || v.entries[v.new_[t]].nRefCount > 1 {
      TakesFromBefore(v, Insert(u, id, t, nNow), t, id, info.Core(), info.Core().(nRefCount := 1));
    } else {
      assert u.entries - {id} == v.entries;
    }
  }

  lemma KnownTakes(h: Hasher, v: View, id: int, info: AddrInfo, t: Slot, nNow: int)
    requires Inv(h, v, {}) && id in v.entries && !info.fInTried && !v.entries[id].fInTried
    requires info.addr.service == v.entries[id].addr.service && info.nRefCount == v.entries[id].nRefCount
    requires info == info.Core()
    ensures t in v.new_ ==> v.new_[t] in v.entries
    ensures var w := Insert(Created(v, id, info), id, t, nNow);
      if t !in v.new_ || (v.new_[t] != id && v.entries[v.new_[t]].IsTerrible(nNow))
      then Takes(v, w, t, id, info.(nRefCount := info.nRefCount + 1))
      else w == v.(entries := v.entries[id := info])
  {
    RewriteKeepsInv(h, v, id, info, {});
    HoldersKnown(h, v);
    assert info.nRefCount != 0;
    var u := Created(v, id, info);
    if t in v.new_ && v.new_[t] == id {
      assert Insert(u, id, t, nNow) == u;
    } else {
      hide Inv, Takes, Insert;
      assert LimboOf(u, id) == {};
      InsertIs(h, u, id, t, nNow);
      if t !in v.new_ || v.entries[v.new_[t]].IsTerrible(nNow) {
        TakesFromBefore(v, Insert(u, id, t, nNow), t, id, info, info.(nRefCount := info.nRefCount + 1));
      }
    }
  }

  /** What hearing of a known address does, with and without the try for a reference. */
  lemma KnownIs(h: Hasher, v: View, id: int, addr: Address, source: NetAddr, nTimePenalty: int, nNow: int, nRand: nat)
    requires Inv(h, v, {}) && id in v.entries && v.entries[id].addr.service.net == addr.service.net
    requires v.entries[id] == v.entries[id].Core()
    ensures v.entries[id].nRefCount >= 0
    ensures var info := Refreshed(v.entries[id], addr, nTimePenalty, nNow);
      AddedKnown(h, v, if MayGainReference(info, addr) && nRand % Odds(info.nRefCount) == 0
        then Insert(Created(v, id, info), id, h.NewSlot(info.addr.service, source), nNow) else Created(v, id, info),
        id, addr, source, nTimePenalty, nNow, nRand)
  {
    var info := Refreshed(v.entries[id], addr, nTimePenalty, nNow);
    HoldersKnown(h, v);
    assert v.entries[id].nRefCount >= 0;
    if !info.fInTried { KnownTakes(h, v, id, info, h.NewSlot(info.addr.service, source), nNow); }
    hide Inv, Takes, Insert, Odds;
  }

  // ---------- what is never lost ----------

  lemma TriedHolder(h: Hasher, v: View, t: Slot)
    requires Inv(h, v, {})
    requires t in v.tried
    ensures v.tried[t] in v.entries && v.entries[v.tried[t]].fInTried && v.entries[v.tried[t]].nRefCount == 0
    ensures forall s :: s in v.new_ ==> v.new_[s] in v.entries && v.new_[s] != v.tried[t]
  {
    assert RefSlots(v, v.tried[t]) == {};
  }

  /** What an eviction does to one entry and to the tried table. */
  lemma EvictAt(h: Hasher, v: View, t: Slot, k: int)
    requires t in v.tried && v.tried[t] in v.entries && k in v.entries
    requires forall s :: s in v.new_ ==> v.new_[s] != v.tried[t]
    ensures Evict(h, v, t).tried == v.tried - {t}
    ensures var e := v.tried[t];
            var w := Evict(h, v, t).entries;
            var u := h.NewSlot(v.entries[e].addr.service, v.entries[e].source);
            if k == e then k in w && w[k] == v.entries[e].(fInTried := false, nRefCount := v.entries[e].nRefCount + 1)
            else if u in v.new_ && v.new_[u] == k then
              if v.entries[k].nRefCount == 1 then k !in w
              else k in w && w[k] == v.entries[k].(nRefCount := v.entries[k].nRefCount - 1)
            else k in w && w[k] == v.entries[k]
  { }

  /** Moving an entry to tried loses at most the entry whose only reference was the slot
      that an evicted entry goes back to; every other entry but those involved stays as it was. */
  lemma PromoteLoses(h: Hasher, v: View, id: int, k: int)
    requires Inv(h, v, {})
    requires id in v.entries && !v.entries[id].fInTried
    requires k in v.entries && k != id
    ensures var w := Promote(h, v, id);
            var t := h.TriedSlot(v.entries[id].addr.service);
            if t !in v.tried then k in w.entries && w.entries[k] == v.entries[k]
            else
              var e := v.tried[t];
              && e in v.entries
              && var u := h.NewSlot(v.entries[e].addr.service, v.entries[e].source);
                 if k == e then k in w.entries
                 else if u in v.new_ && v.new_[u] == k then
                   if v.entries[k].nRefCount == 1 then k !in w.entries
                   else k in w.entries && w.entries[k] == v.entries[k].(nRefCount := v.entries[k].nRefCount - 1)
                 else k in w.entries && w.entries[k] == v.entries[k]
  {
    var t := h.TriedSlot(v.entries[id].addr.service);
    hide Inv;
    if t in v.tried {
      TriedHolder(h, v, t);
      EvictAt(h, Unlist(v, id), t, k);
      hide Evict;
    }
  }

  /** Moving an entry to tried: it is tried and unlisted afterwards, the tried table changes in its slot only,
      an entry evicted from there is back in the new table with exactly one reference, and no other changes kind. */
  lemma PromoteEffect(h: Hasher, v: View, id: int)
    requires Inv(h, v, {})
    requires id in v.entries && !v.entries[id].fInTried
    ensures var w := Promote(h, v, id);
            var t := h.TriedSlot(v.entries[id].addr.service);
            && id in w.entries && w.entries[id] == v.entries[id].(nRefCount := 0, fInTried := true)
            && w.tried == v.tried[t := id]
            && (t in v.tried ==>
                  var e := v.tried[t];
                  && e in v.entries && e in w.entries
                  && w.entries[e] == v.entries[e].(nRefCount := 1, fInTried := false))
            && (forall k :: k in w.entries && k != id && (t in v.tried ==> k != v.tried[t]) ==>
                  k in v.entries && w.entries[k].fInTried == v.entries[k].fInTried)
  {
    hide Inv, Promote;
    PromoteMoves(h, v, id);
    forall k | k in Promote(h, v, id).entries && k != id
      ensures k in v.entries
      ensures (h.TriedSlot(v.entries[id].addr.service) in v.tried ==>
        k != v.tried[h.TriedSlot(v.entries[id].addr.service)]) ==>
        Promote(h, v, id).entries[k].fInTried == v.entries[k].fInTried
    {
      PromoteKind(h, v, id, k);
    }
  }

  /** In the new table the slots of the entry moved are free, and an evicted entry has the slot its source gives. */
  lemma PromoteLists(h: Hasher, v: View, id: int)
    requires Inv(h, v, {})
    requires id in v.entries && !v.entries[id].fInTried
    ensures var w, t := Promote(h, v, id), h.TriedSlot(v.entries[id].addr.service);
      var rest := map s | s in v.new_ && v.new_[s] != id :: v.new_[s];
      if t !in v.tried then w.new_ == rest
      else
        var e := v.tried[t];
        e in v.entries && w.new_ == rest[h.NewSlot(v.entries[e].addr.service, v.entries[e].source) := e]
  {
    var t := h.TriedSlot(v.entries[id].addr.service);
    var rest := map s | s in v.new_ && v.new_[s] != id :: v.new_[s];
    assert v.new_ - RefSlots(v, id) == rest;
    if t in v.tried {
      TriedHolder(h, v, t);
      hide Inv;
      var e := v.tried[t];
      EvictLists(h, Unlist(v, id), t);
    }
  }

  lemma EvictLists(h: Hasher, v: View, t: Slot)
    requires t in v.tried && v.tried[t] in v.entries
    ensures var e := v.tried[t];
      Evict(h, v, t).new_ == v.new_[h.NewSlot(v.entries[e].addr.service, v.entries[e].source) := e]
  {
    var e := v.tried[t];
    var u := h.NewSlot(v.entries[e].addr.service, v.entries[e].source);
    assert Unref(Demote(v, t), u).new_ == v.new_ - {u};
    assert (v.new_ - {u})[u := e] == v.new_[u := e];
  }

  lemma PromoteMoves(h: Hasher, v: View, id: int)
    requires Inv(h, v, {})
    requires id in v.entries && !v.entries[id].fInTried
    ensures var w := Promote(h, v, id);
            var t := h.TriedSlot(v.entries[id].addr.service);
            && id in w.entries && w.entries[id] == v.entries[id].(nRefCount := 0, fInTried := true)
            && w.tried == v.tried[t := id]
            && (t in v.tried ==>
                  var e := v.tried[t];
                  && e in v.entries && e in w.entries
                  && w.entries[e] == v.entries[e].(nRefCount := 1, fInTried := false))
  {
    var t := h.TriedSlot(v.entries[id].addr.service);
    hide Inv, RefSlots, Evict;
    if t in v.tried {
      TriedHolder(h, v, t);
      EvictAt(h, Unlist(v, id), t, v.tried[t]);
      EvictAt(h, Unlist(v, id), t, id);
    } else {
      EvictNone(h, Unlist(v, id), t);
    }
  }

  lemma EvictNone(h: Hasher, v: View, t: Slot)
    requires t !in v.tried
    ensures Evict(h, v, t) == v
  { }

  lemma PromoteKind(h: Hasher, v: View, id: int, k: int)
    requires Inv(h, v, {})
    requires id in v.entries && !v.entries[id].fInTried
    requires k in Promote(h, v, id).entries && k != id
    ensures k in v.entries
    ensures var t := h.TriedSlot(v.entries[id].addr.service);
      (t in v.tried ==> k != v.tried[t]) ==> Promote(h, v, id).entries[k].fInTried == v.entries[k].fInTried
  {
    hide Inv;
    PromoteKeys(h, v, id);
    hide Promote;
    PromoteLoses(h, v, id, k);
  }

  lemma PromoteKeys(h: Hasher, v: View, id: int)
    requires id in v.entries
    ensures Promote(h, v, id).entries.Keys <= v.entries.Keys
  { }

  /** Adding an address never touches a tried entry nor the tried table, and loses at most the
      entry whose only reference was the contested slot, or the added entry itself. */
  lemma InsertLoses(h: Hasher, v: View, id: int, t: Slot, nNow: int, k: int)
    requires id in v.entries && !v.entries[id].fInTried
    requires Inv(h, v, LimboOf(v, id))
    requires k in v.entries && k != id
    ensures var w := Insert(v, id, t, nNow);
            && w.tried == v.tried
            && (v.entries[k].fInTried ==> k in w.entries && w.entries[k] == v.entries[k])
            && (k !in w.entries ==>
                  v.entries[k].nRefCount == 1 && t in w.new_ && w.new_[t] == id && RefSlots(v, k) == {t})
            && (k in w.entries && w.entries[k] != v.entries[k] ==>
                  && t in v.new_ && v.new_[t] == k && t in w.new_ && w.new_[t] == id
                  && w.entries[k] == v.entries[k].(nRefCount := v.entries[k].nRefCount - 1))
  {
    assert v.entries[k].nRefCount == |RefSlots(v, k)|;
    assert t in v.new_ ==> v.new_[t] in v.entries && !v.entries[v.new_[t]].fInTried;
    hide Inv, Insert, NewTableOk, TriedTableOk, RefsOk, AddressesDistinct;
    InsertAt(v, id, t, nNow, k);
    if k !in Insert(v, id, t, nNow).entries {
      assert t in RefSlots(v, k);
      assert |RefSlots(v, k) - {t}| == 0;
      assert RefSlots(v, k) - {t} == {};
    }
  }

  /** What adding does to another entry. */
  lemma InsertAt(v: View, id: int, t: Slot, nNow: int, k: int)
    requires id in v.entries && !v.entries[id].fInTried && k in v.entries && k != id
    requires t in v.new_ ==> v.new_[t] in v.entries && !v.entries[v.new_[t]].fInTried
    ensures var w := Insert(v, id, t, nNow);
            && w.tried == v.tried
            && if k in w.entries && w.entries[k] == v.entries[k] then true
               else
                 && t in v.new_ && v.new_[t] == k && t in w.new_ && w.new_[t] == id
                 && if k in w.entries then w.entries[k] == v.entries[k].(nRefCount := v.entries[k].nRefCount - 1)
                    else v.entries[k].nRefCount == 1
  { }

  // ---------- handing out addresses ----------

  /** The addresses of the entries that are not terrible, in the order of `ids`. */
  function Pick(entries: map<int, AddrInfo>, ids: seq<int>, nNow: int): seq<Address> {
    if ids == [] then []
    else
      var id := ids[|ids| - 1];
      Pick(entries, ids[..|ids| - 1], nNow)
      + if id in entries && !entries[id].IsTerrible(nNow) then [entries[id].addr] else []
  }

  lemma {:induction false} PickContents(entries: map<int, AddrInfo>, ids: seq<int>, nNow: int)
    ensures forall a :: a in Pick(entries, ids, nNow) <==>
              exists i ::
                0 <= i < |ids| && ids[i] in entries && !entries[ids[i]].IsTerrible(nNow) && entries[ids[i]].addr == a
  {
    if ids != [] {
      var rest := ids[..|ids| - 1];
      PickContents(entries, rest, nNow);
      forall a | a in Pick(entries, ids, nNow)
        ensures exists i ::
          0 <= i < |ids| && ids[i] in entries && !entries[ids[i]].IsTerrible(nNow) && entries[ids[i]].addr == a
      {
        if a in Pick(entries, rest, nNow) {
          var i :| 0 <= i < |rest| && rest[i] in entries && !entries[rest[i]].IsTerrible(nNow) &&
            entries[rest[i]].addr == a;
          assert ids[i] == rest[i];
        } else {
          assert a == entries[ids[|ids| - 1]].addr;
        }
      }
      forall i | 0 <= i < |ids| && ids[i] in entries && !entries[ids[i]].IsTerrible(nNow)
        ensures entries[ids[i]].addr in Pick(entries, ids, nNow)
      {
        if i < |rest| { assert rest[i] == ids[i]; }
      }
    }
  }

  /** No network address occurs twice. */
  ghost predicate NetsDistinct(r: seq<Address>) {
    forall i, j :: 0 <= i < j < |r| ==> r[i].service.net != r[j].service.net
  }

  lemma {:induction false} PickDistinct(entries: map<int, AddrInfo>, ids: seq<int>, nNow: int)
    requires forall i, j :: i in entries && j in entries && i != j ==>
               entries[i].addr.service.net != entries[j].addr.service.net
    requires forall i, j :: 0 <= i < j < |ids| ==> ids[i] != ids[j]
    ensures NetsDistinct(Pick(entries, ids, nNow))
  {
    if ids != [] {
      var rest := ids[..|ids| - 1];
      PickDistinct(entries, rest, nNow);
      PickContents(entries, rest, nNow);
      var r, p := Pick(entries, ids, nNow), Pick(entries, rest, nNow);
      var last := ids[|ids| - 1];
      forall i, j | 0 <= i < j < |r|
        ensures r[i].service.net != r[j].service.net
      {
        assert r[i] == p[i];
        if j < |p| {
          assert r[j] == p[j];
          assert p[i].service.net != p[j].service.net;
        } else {
          assert r[j] == entries[last].addr;
          assert r[i] in p;
          var k :| 0 <= k < |rest| && rest[k] in entries && !entries[rest[k]].IsTerrible(nNow) &&
            entries[rest[k]].addr == r[i];
          assert rest[k] == ids[k] != last;
          assert entries[rest[k]].addr.service.net != entries[last].addr.service.net;
        }
      }
    }
  }

  lemma {:induction false} DistinctSize(xs: seq<int>, s: set<int>)
    requires forall i, j :: 0 <= i < j < |xs| ==> xs[i] != xs[j]
    requires forall x :: x in xs <==> x in s
    ensures |xs| == |s|
  {
    if xs == [] {
      assert forall x :: x !in s;
      assert s == {};
    } else {
      var last := xs[|xs| - 1];
      var rest := xs[..|xs| - 1];
      assert xs == rest + [last];
      DistinctSize(rest, s - {last});
    }
  }

  /** The shuffled vector has one place for each counted entry. */
  lemma SizeIsCount(info: map<int, AddrInfo>, random: seq<int>, nNew: int, nTried: int)
    requires RandomOk(info, random)
    requires CountsOk(Cores(info), nNew, nTried, 0)
    ensures |random| == nNew + nTried == |info|
  {
    var entries := Cores(info);
    assert NewIds(entries) + TriedIds(entries) == info.Keys;
    assert NewIds(entries) !! TriedIds(entries);
    forall id | id in info
      ensures id in random
    { }
    DistinctSize(random, info.Keys);
  }
}

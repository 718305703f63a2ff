/** The address manager as the program keeps it: five cross-linked indexes updated in place. */
module AddrManager {
  import opened AddrMan
  import opened Arith

  /** The occupied slots of a table whose free slots hold -1. */
  ghost function Occupied(a: array2<int>): map<Slot, int>
    reads a
  {
    map b, p | 0 <= b < a.Length0 && 0 <= p < a.Length1 && a[b, p] != -1 :: Slot(b, p) := a[b, p]
  }

  lemma OccupiedAt(a: array2<int>)
    ensures forall b, p :: 0 <= b < a.Length0 && 0 <= p < a.Length1 ==>
              && (Slot(b, p) in Occupied(a) <==> a[b, p] != -1)
              && (Slot(b, p) in Occupied(a) ==> Occupied(a)[Slot(b, p)] == a[b, p])
  { }

  method SetSlot(a: array2<int>, t: Slot, id: int)
    requires 0 <= t.b < a.Length0 && 0 <= t.p < a.Length1
    modifies a
    ensures Occupied(a) == if id == -1 then old(Occupied(a)) - {t} else old(Occupied(a))[t := id]
  {
    a[t.b, t.p] := id;
  }

  /** A random number below a bound: any one may come. */
  method RandomInt(nMax: int) returns (r: int)
    requires nMax > 0
    ensures 0 <= r < nMax
  {
    r :| 0 <= r < nMax;
  }

  lemma NoneOccupied(vv: array2<int>)
    requires forall i, j :: 0 <= i < vv.Length0 && 0 <= j < vv.Length1 ==> vv[i, j] == -1
    ensures Occupied(vv) == map[]
  { }

  lemma NothingIsOk(h: Hasher)
    ensures Cores(map[]) == map[] && RandomOk(map[], []) && IdsOk(map[], 0) && AddrOk(map[], map[], 0)
    ensures CountsOk(map[], 0, 0, 0)
    ensures TablesOk(h, View(map[], map[], map[]), {}) && AddressesDistinct(View(map[], map[], map[]))
  {
    assert NewIds(map[]) == {} && TriedIds(map[]) == {};
  }

  class Manager {
    const h: Hasher
    var nIdCount: int
    var mapInfo: map<int, AddrInfo>
    var mapAddr: map<NetAddr, int>
    var vRandom: seq<int>
    var nTried: int
    const vvTried: array2<int>
    var nNew: int
    const vvNew: array2<int>
    var nLastGood: int

    ghost function V(): View
      reads this, vvNew, vvTried
    {
      View(Cores(mapInfo), Occupied(vvNew), Occupied(vvTried))
    }

    ghost predicate Shape() {
      && vvNew.Length0 == NEW_BUCKET_COUNT && vvNew.Length1 == BUCKET_SIZE
      && vvTried.Length0 == TRIED_BUCKET_COUNT && vvTried.Length1 == BUCKET_SIZE
      && vvNew != vvTried
    }

    /** All of it but the index by address. */
    ghost predicate Loose(limbo: set<int>, uncounted: int)
      reads this, vvNew, vvTried
    {
      && Shape()
      && RandomOk(mapInfo, vRandom)
      && IdsOk(mapInfo, nIdCount)
      && CountsOk(Cores(mapInfo), nNew, nTried, uncounted)
      && TablesOk(h, V(), limbo)
    }

    /** The whole invariant, with the slack an operation has in its middle. */
    ghost predicate Valid(limbo: set<int>, uncounted: int)
      reads this, vvNew, vvTried
    { Loose(limbo, uncounted) && AddrOk(mapInfo, mapAddr, nIdCount) && AddressesDistinct(V()) }

    /** What holds between operations. */
    ghost predicate Consistent()
      reads this, vvNew, vvTried
    { Valid({}, 0) }

    constructor (h: Hasher)
      ensures Consistent() && this.h == h
      ensures V() == View(map[], map[], map[]) && nLastGood == 1
      ensures mapInfo == map[] && mapAddr == map[] && vRandom == []
      ensures fresh(vvNew) && fresh(vvTried)
    {
      this.h := h;
      vvNew := new int[NEW_BUCKET_COUNT, BUCKET_SIZE]((i, j) => -1);
      vvTried := new int[TRIED_BUCKET_COUNT, BUCKET_SIZE]((i, j) => -1);
      vRandom := [];
      mapInfo := map[];
      mapAddr := map[];
      nIdCount := 0;
      nTried := 0;
      nNew := 0;
      nLastGood := 1;
      new;
      hide Occupied, Cores, RandomOk, IdsOk, AddrOk, CountsOk, TablesOk, AddressesDistinct;
      NoneOccupied(vvNew);
      NoneOccupied(vvTried);
      NothingIsOk(h);
    }

    /** Exchanges two places of the shuffled vector. */
    method SwapRandom(pos1: int, pos2: int)
      requires RandomOk(mapInfo, vRandom)
      requires 0 <= pos1 < |vRandom| && 0 <= pos2 < |vRandom|
      modifies this`vRandom, this`mapInfo
      ensures RandomOk(mapInfo, vRandom)
      ensures old(IdsOk(mapInfo, nIdCount)) ==> IdsOk(mapInfo, nIdCount)
      ensures old(AddrOk(mapInfo, mapAddr, nIdCount)) ==> AddrOk(mapInfo, mapAddr, nIdCount)
      ensures vRandom == old(vRandom)[pos1 := old(vRandom)[pos2]][pos2 := old(vRandom)[pos1]]
      ensures Cores(mapInfo) == old(Cores(mapInfo))
    {
      SwapKeepsIndexes(mapInfo, vRandom, mapAddr, nIdCount, pos1, pos2);
      if pos1 == pos2 { return; }
      assert pos1 < |vRandom| && pos2 < |vRandom|;
      var id1 := vRandom[pos1];
      var id2 := vRandom[pos2];
      assert id1 in mapInfo && id2 in mapInfo;
      mapInfo := mapInfo[id1 := mapInfo[id1].(nRandomPos := pos2)];
      mapInfo := mapInfo[id2 := mapInfo[id2].(nRandomPos := pos1)];
      vRandom := vRandom[pos1 := id2];
      vRandom := vRandom[pos2 := id1];
    }

    /** Removes an untried entry that no new slot references, and its address from the index. */
    method Delete(id: int, ghost limbo: set<int>, ghost uncounted: int)
      requires Loose(limbo, uncounted) && id in limbo
      modifies this
      ensures Loose(limbo - {id}, uncounted) && (old(Valid(limbo, uncounted)) ==> Valid(limbo - {id}, uncounted))
      ensures V() == Drop(old(V()), id)
      ensures id in old(mapInfo) && mapAddr == old(mapAddr) - {old(mapInfo)[id].addr.service.net}
      ensures nIdCount == old(nIdCount) && nLastGood == old(nLastGood)
    {
      hide NewTableOk, TriedTableOk, RefsOk, AddressesDistinct, AddrOk, IdsOk, NewIds, TriedIds, Occupied;
      ghost var v := V();
      DropKeepsOk(h, v, id, limbo);
      assert id in mapInfo;
      var info := mapInfo[id];
      assert !info.fInTried;
      assert info.nRefCount == 0;
      SwapRandom(info.nRandomPos, |vRandom| - 1);
      assert Cores(mapInfo)[id] == info.Core();
      RemoveKeepsIndexes(mapInfo, vRandom, mapAddr, nIdCount, id);
      vRandom := vRandom[..|vRandom| - 1];
      mapAddr := mapAddr - {info.addr.service.net};
      mapInfo := mapInfo - {id};
      nNew := nNew - 1;
      DropKeepsDistinct(v, id);
    }

    /** Empties a new slot, dropping its entry when that was the last reference to it. */
    method ClearNew(t: Slot, ghost limbo: set<int>, ghost uncounted: int)
      requires Valid(limbo, uncounted)
      requires InTable(t, NEW_BUCKET_COUNT)
      modifies this, vvNew
      ensures Valid(limbo, uncounted)
      ensures V() == Unref(old(V()), t)
      ensures nIdCount == old(nIdCount) && nLastGood == old(nLastGood)
    {
      hide NewTableOk, TriedTableOk, RefsOk, AddressesDistinct, RandomOk, AddrOk, NewIds, TriedIds, Occupied;
      OccupiedAt(vvNew);
      if vvNew[t.b, t.p] != -1 {
        DerefKeepsInv(h, V(), t, limbo);
        var id := vvNew[t.b, t.p];
        assert id in V().entries;
        assert id in mapInfo;
        var info := mapInfo[id];
        assert V().entries[id] == info.Core();
        assert info.nRefCount > 0;
        var info' := info.(nRefCount := info.nRefCount - 1);
        TouchKeepsIndexes(mapInfo, vRandom, mapAddr, nIdCount, id, info');
        mapInfo := mapInfo[id := info'];
        SetSlot(vvNew, t, -1);
        assert V() == Deref(old(V()), t);
        if mapInfo[id].nRefCount == 0 {
          Delete(id, limbo + {id}, uncounted);
          assert limbo + {id} - {id} == limbo;
        }
      }
    }

    /** Rewrites an entry in place, its address and shuffle position untouched. */
    method Touch(id: int, info: AddrInfo)
      requires RandomOk(mapInfo, vRandom)
      requires id in mapInfo && info.addr.service == mapInfo[id].addr.service &&
        info.nRandomPos == mapInfo[id].nRandomPos
      modifies this`mapInfo
      ensures RandomOk(mapInfo, vRandom)
      ensures old(IdsOk(mapInfo, nIdCount)) ==> IdsOk(mapInfo, nIdCount)
      ensures old(AddrOk(mapInfo, mapAddr, nIdCount)) ==> AddrOk(mapInfo, mapAddr, nIdCount)
      ensures mapInfo == old(mapInfo)[id := info]
      ensures Cores(mapInfo) == old(Cores(mapInfo))[id := info.Core()]
      ensures forall uncounted :: old(CountsOk(Cores(mapInfo), nNew, nTried, uncounted)) ==>
                if info.fInTried == old(mapInfo[id].fInTried) then CountsOk(Cores(mapInfo), nNew, nTried, uncounted)
                else if info.fInTried then CountsOk(Cores(mapInfo), nNew, nTried + 1, uncounted - 1)
                else CountsOk(Cores(mapInfo), nNew, nTried - 1, uncounted + 1)
    {
      hide Cores, NewIds, TriedIds, RandomOk, AddrOk, IdsOk;
      TouchKeepsIndexes(mapInfo, vRandom, mapAddr, nIdCount, id, info);
      mapInfo := mapInfo[id := info];
    }

    /** First part of moving to tried: the entry leaves every new bucket, and the new count. */
    method RemoveFromNew(id: int)
      requires Consistent()
      requires id in mapInfo && !mapInfo[id].fInTried
      modifies this`mapInfo, this`nNew, vvNew
      ensures Valid({id}, 1)
      ensures V() == Unlist(old(V()), id)
      ensures id in mapInfo && mapInfo[id].addr == old(mapInfo[id].addr)
    {
      hide NewTableOk, TriedTableOk, RefsOk, AddressesDistinct, RandomOk, AddrOk, NewIds, TriedIds, Occupied,
        SlotsBelow, RefSlots;
      ghost var v := V();
      UnlistKeepsInv(h, v, id, {});
      UnlistingEnds(h, v, id, {});
      var addr := mapInfo[id].addr;
      for bucket := 0 to NEW_BUCKET_COUNT
        invariant RandomOk(mapInfo, vRandom) && IdsOk(mapInfo, nIdCount) && AddrOk(mapInfo, mapAddr, nIdCount)
        invariant CountsOk(Cores(mapInfo), nNew, nTried, 0)
        invariant id in mapInfo && !mapInfo[id].fInTried && mapInfo[id].addr == addr
        invariant V() == Unlisting(v, id, bucket)
      {
        UnlistingStep(h, v, id, bucket, {});
        OccupiedAt(vvNew);
        var pos := h.Position(true, bucket, addr.service);
        if vvNew[bucket, pos] == id {
          SetSlot(vvNew, Slot(bucket, pos), -1);
          Touch(id, mapInfo[id].(nRefCount := mapInfo[id].nRefCount - 1));
        }
      }
      nNew := nNew - 1;
    }

    /** Takes the holder of a tried slot out of the tried table and its count. */
    method DemoteHolder(t: Slot, ghost limbo: set<int>, ghost uncounted: int) returns (id: int)
      requires Valid(limbo, uncounted)
      requires InTable(t, TRIED_BUCKET_COUNT) && vvTried[t.b, t.p] != -1
      modifies this`mapInfo, this`nTried, vvTried
      ensures id == old(vvTried[t.b, t.p]) && id in mapInfo && id !in limbo
      ensures t in old(V()).tried && old(V()).tried[t] == id && id in old(V()).entries
      ensures Valid(limbo + {id}, uncounted + 1)
      ensures V() == Demote(old(V()), t)
    {
      hide NewTableOk, TriedTableOk, RefsOk, AddressesDistinct, RandomOk, AddrOk, NewIds, TriedIds, Occupied,
        RefSlots, Cores;
      OccupiedAt(vvTried);
      DemoteKeepsInv(h, V(), t, limbo);
      CoresAt(mapInfo);
      id := vvTried[t.b, t.p];
      assert id in mapInfo;
      Touch(id, mapInfo[id].(fInTried := false));
      SetSlot(vvTried, t, -1);
      nTried := nTried - 1;
    }

    /** Clears a new slot and gives it to an entry that is in no table, as its first reference. */
    method Relist(u: Slot, id: int, ghost limbo: set<int>, ghost uncounted: int)
      requires Valid(limbo, uncounted) && id in limbo && id in mapInfo
      requires InTable(u, NEW_BUCKET_COUNT) && u.p == h.Position(true, u.b, mapInfo[id].addr.service)
      modifies this, vvNew
      ensures Valid(limbo - {id}, uncounted - 1)
      ensures V() == Refer(Unref(old(V()), u), u, id, old(mapInfo[id]).Core())
      ensures nIdCount == old(nIdCount) && nLastGood == old(nLastGood)
    {
      hide NewTableOk, TriedTableOk, RefsOk, AddressesDistinct, RandomOk, AddrOk, NewIds, TriedIds, Occupied,
        RefSlots, Cores, Unref;
      CoresAt(mapInfo);
      LimboIsUnreferenced(h, V(), id, limbo);
      UnrefKeepsInv(h, V(), u, limbo);
      ReferKeepsInv(h, Unref(V(), u), u, id, limbo);
      ClearNew(u, limbo, uncounted);
      OccupiedAt(vvNew);
      assert vvNew[u.b, u.p] == -1;
      CoresAt(mapInfo);
      Touch(id, mapInfo[id].(nRefCount := 1));
      SetSlot(vvNew, u, id);
      nNew := nNew + 1;
    }

    /** Second part: whoever holds the tried slot is moved back to the new table. */
    method MakeRoom(t: Slot, id: int)
      requires Valid({id}, 1)
      requires InTable(t, TRIED_BUCKET_COUNT)
      modifies this, vvNew, vvTried
      ensures Valid({id}, 1)
      ensures V() == Evict(h, old(V()), t)
      ensures nIdCount == old(nIdCount) && nLastGood == old(nLastGood)
    {
      hide NewTableOk, TriedTableOk, RefsOk, AddressesDistinct, RandomOk, AddrOk, NewIds, TriedIds, Occupied,
        RefSlots, Cores, Unref, Refer;
      OccupiedAt(vvTried);
      if vvTried[t.b, t.p] != -1 {
        var idEvict := DemoteHolder(t, {id}, 1);
        CoresAt(mapInfo);
        var u := h.NewSlot(mapInfo[idEvict].addr.service, mapInfo[idEvict].source);
        Relist(u, idEvict, {id} + {idEvict}, 2);
        assert {id} + {idEvict} - {idEvict} == {id};
      }
    }

    /** Moves an entry from the new table to the tried table. */
    method MakeTried(id: int)
      requires Consistent()
      requires id in mapInfo && !mapInfo[id].fInTried
      modifies this, vvNew, vvTried
      ensures Consistent()
      ensures V() == Promote(h, old(V()), id)
      ensures nIdCount == old(nIdCount) && nLastGood == old(nLastGood)
    {
      hide NewTableOk, TriedTableOk, RefsOk, AddressesDistinct, RandomOk, AddrOk, NewIds, TriedIds, Occupied, RefSlots,
        Cores, Evict, CountsOk;
      CoresAt(mapInfo);
      PromoteKeepsInv(h, V(), id);
      RemoveFromNew(id);
      CoresAt(mapInfo);
      assert mapInfo[id].nRefCount == 0;
      var t := h.TriedSlot(mapInfo[id].addr.service);
      EvictKeepsInv(h, V(), t, {id});
      MakeRoom(t, id);
      CoresAt(mapInfo);
      OccupiedAt(vvTried);
      assert vvTried[t.b, t.p] == -1;
      SetSlot(vvTried, t, id);
      Touch(id, mapInfo[id].(fInTried := true));
      nTried := nTried + 1;
    }

    /** Enters an entry under an id above all others, in the id table, the address index and the shuffled vector. */
    method Append(id: int, info: AddrInfo)
      requires RandomOk(mapInfo, vRandom) && IdsOk(mapInfo, id)
      requires info.nRandomPos == |vRandom|
      modifies this`mapInfo, this`mapAddr, this`vRandom
      ensures RandomOk(mapInfo, vRandom) && IdsOk(mapInfo, id + 1)
      ensures mapInfo == old(mapInfo)[id := info] && id !in old(mapInfo)
      ensures mapAddr == old(mapAddr)[info.addr.service.net := id]
      ensures Cores(mapInfo) == old(Cores(mapInfo))[id := info.Core()]
      ensures forall a, b :: old(CountsOk(Cores(mapInfo), a, b, 0)) ==>
                if info.fInTried then CountsOk(Cores(mapInfo), a, b + 1, 0) else CountsOk(Cores(mapInfo), a + 1, b, 0)
    {
      AppendKeepsIndexes(mapInfo, vRandom, mapAddr, id, info);
      mapInfo := mapInfo[id := info];
      mapAddr := mapAddr[info.addr.service.net := id];
      vRandom := vRandom + [id];
    }

    /** Makes an entry with a fresh id; the caller counts it as new and gives it a slot. */
    method Create(addr: Address, source: NetAddr, nTimePenalty: int) returns (id: int)
      requires Consistent()
      requires addr.service.net !in mapAddr
      modifies this
      ensures id == old(nIdCount) && nIdCount == old(nIdCount) + 1 && nLastGood == old(nLastGood)
      ensures id !in old(mapInfo) && id in mapInfo && mapInfo[id].Core() == FirstInfo(addr, source, nTimePenalty).Core()
      ensures Valid({id}, 0)
      ensures V() == Created(old(V()), id, FirstInfo(addr, source, nTimePenalty))
      ensures TimesOk(old(V())) ==> TimesOk(V())
    {
      hide TimesOk;
      hide NewTableOk, TriedTableOk, RefsOk, AddressesDistinct, NewIds, TriedIds, Occupied, RefSlots, RandomOk,
        AddrOk, Cores;
      ghost var first := FirstInfo(addr, source, nTimePenalty);
      UnknownNet(mapInfo, mapAddr, nIdCount, addr.service.net);
      CoresAt(mapInfo);
      CreateKeepsInv(h, V(), nIdCount, first, {});
      assert {} + {nIdCount} == {nIdCount};
      id := nIdCount;
      nIdCount := nIdCount + 1;
      var info := NewInfo(addr, source).(nRandomPos := |vRandom|);
      info := info.(addr := addr.(nTime := ToUint32(Max(0, addr.nTime - nTimePenalty))));
      AppendKeepsAddr(mapInfo, mapAddr, id, info);
      Append(id, info);
      nNew := nNew + 1;
    }

    /** Clears a new slot and gives it to `id`. */
    method Overwrite(t: Slot, id: int, ghost limbo: set<int>)
      requires Valid(limbo, 0) && InTable(t, NEW_BUCKET_COUNT)
      requires id in mapInfo && !mapInfo[id].fInTried && mapInfo[id].nRefCount < NEW_BUCKETS_PER_ADDRESS
      requires t.p == h.Position(true, t.b, mapInfo[id].addr.service)
      requires vvNew[t.b, t.p] != id
      modifies this, vvNew
      ensures Valid(limbo - {id}, 0)
      ensures V() == Refer(Unref(old(V()), t), t, id, old(mapInfo[id]).Core())
      ensures nIdCount == old(nIdCount) && nLastGood == old(nLastGood)
    {
      hide NewTableOk, TriedTableOk, RefsOk, AddressesDistinct, RandomOk, AddrOk, NewIds, TriedIds, Occupied,
        RefSlots, Cores;
      CoresAt(mapInfo);
      OccupiedAt(vvNew);
      UnrefKeepsInv(h, V(), t, limbo);
      ReferKeepsInv(h, Unref(V(), t), t, id, limbo);
      ClearNew(t, limbo, 0);
      CoresAt(mapInfo);
      Touch(id, mapInfo[id].(nRefCount := mapInfo[id].nRefCount + 1));
      SetSlot(vvNew, t, id);
    }

    /** Gives an entry a reference in its bucket for `source`, or drops it if it has none and gets none. */
    method PlaceInNew(id: int, source: NetAddr, nNow: int)
      requires id in mapInfo && !mapInfo[id].fInTried && mapInfo[id].nRefCount < NEW_BUCKETS_PER_ADDRESS
      requires Valid(if mapInfo[id].nRefCount == 0 then {id} else {}, 0)
      modifies this, vvNew
      ensures Consistent()
      ensures id in old(V()).entries
      ensures V() == Insert(old(V()), id, h.NewSlot(old(mapInfo[id].addr.service), source), nNow)
      ensures TimesOk(old(V())) ==> TimesOk(V())
      ensures nIdCount == old(nIdCount) && nLastGood == old(nLastGood)
    {
      hide NewTableOk, TriedTableOk, RefsOk, AddressesDistinct, RandomOk, AddrOk, NewIds, TriedIds, Occupied,
        RefSlots, Cores, TimesOk;
      CoresAt(mapInfo);
      OccupiedAt(vvNew);
      ghost var limbo := LimboOf(V(), id);
      var t := h.NewSlot(mapInfo[id].addr.service, source);
      InsertKeepsInv(h, V(), id, t, nNow);
      if vvNew[t.b, t.p] != id {
        var fInsert := vvNew[t.b, t.p] == -1;
        UnrefKeepsInv(h, V(), t, limbo);
        if !fInsert {
          var existing := mapInfo[vvNew[t.b, t.p]];
          if existing.IsTerrible(nNow) || (existing.nRefCount > 1 && mapInfo[id].nRefCount == 0) {
            fInsert := true;
          }
        }
        if fInsert {
          Overwrite(t, id, limbo);
        } else if mapInfo[id].nRefCount == 0 {
          Delete(id, limbo, 0);
        }
      }
    }

    /** The known id of a network address. */
    ghost predicate Known(net: NetAddr)
      reads this
    { net in mapAddr && mapAddr[net] in mapInfo }

    /** Rewrites the statistics, time or services of an entry. */
    method Rewrite(id: int, info: AddrInfo)
      requires Consistent()
      requires id in mapInfo && info.addr.service == mapInfo[id].addr.service &&
        info.nRandomPos == mapInfo[id].nRandomPos
      requires info.nRefCount == mapInfo[id].nRefCount && info.fInTried == mapInfo[id].fInTried
      modifies this`mapInfo
      ensures Consistent()
      ensures mapInfo == old(mapInfo)[id := info]
      ensures V() == Created(old(V()), id, info)
      ensures TimesOk(old(V())) ==> (TimesOk(V()) <==> info.TimesOk())
    {
      hide NewTableOk, TriedTableOk, RefsOk, AddressesDistinct, RandomOk, AddrOk, NewIds, TriedIds, Occupied,
        RefSlots, Cores, TimesOk;
      CoresAt(mapInfo);
      RewriteKeepsInv(h, V(), id, info, {});
      Touch(id, info);
    }

    /** Adds an address heard of from `source`. A new one is stored if its slot is free, or the holder is terrible or
        has other references. A known one is brought up to date, and if it may gain a reference and chance has it, it
        takes the slot if that is free or the holder terrible. */
    method Add_(addr: Address, source: NetAddr, nTimePenalty: int, fRoutable: bool, nNow: int, nRand: nat)
      returns (fNew: bool)
      requires Consistent()
      modifies this, vvNew
      ensures Consistent()
      ensures TimesOk(old(V())) ==> TimesOk(V())
      ensures nLastGood == old(nLastGood)
      ensures fNew <==> fRoutable && !old(Known(addr.service.net))
      ensures !fRoutable ==> V() == old(V())
      ensures fNew ==> AddedNew(h, old(V()), V(), old(nIdCount), addr, source, nTimePenalty, nNow)
      ensures fRoutable && !fNew ==>
        AddedKnown(h, old(V()), V(), old(mapAddr[addr.service.net]), addr, source, nTimePenalty, nNow, nRand)
    {
      hide Inv, RandomOk, CountsOk, Occupied, Cores, TimesOk, AddedNew, AddedKnown;
      fNew := false;
      if !fRoutable { return; }
      if addr.service.net in mapAddr {
        AddKnown(addr, source, nTimePenalty, nNow, nRand);
      } else {
        AddUnknown(addr, source, nTimePenalty, nNow);
        fNew := true;
      }
    }

    /** Makes an entry for an address and gives it its slot if it gets it. */
    method AddUnknown(addr: Address, source: NetAddr, nTimePenalty: int, nNow: int)
      requires Consistent() && addr.service.net !in mapAddr
      modifies this, vvNew
      ensures Consistent() && nLastGood == old(nLastGood)
      ensures TimesOk(old(V())) ==> TimesOk(V())
      ensures AddedNew(h, old(V()), V(), old(nIdCount), addr, source, nTimePenalty, nNow)
    {
      hide NewTableOk, TriedTableOk, RefsOk, AddressesDistinct, RandomOk, CountsOk, Occupied, RefSlots, Cores, TimesOk,
        Insert, AddedNew, AddrOk;
      UnknownNet(mapInfo, mapAddr, nIdCount, addr.service.net);
      CoresAt(mapInfo);
      NewTakes(h, V(), nIdCount, addr, source, nTimePenalty, nNow);
      var id := Create(addr, source, nTimePenalty);
      PlaceInNew(id, source, nNow);
    }

    /** Brings a known entry up to date and gives it one more reference if it gets one. */
    method AddKnown(addr: Address, source: NetAddr, nTimePenalty: int, nNow: int, nRand: nat)
      requires Consistent() && addr.service.net in mapAddr
      modifies this, vvNew
      ensures Consistent() && nLastGood == old(nLastGood)
      ensures TimesOk(old(V())) ==> TimesOk(V())
      ensures AddedKnown(h, old(V()), V(), old(mapAddr[addr.service.net]), addr, source, nTimePenalty, nNow, nRand)
    {
      hide TablesOk, AddressesDistinct, RandomOk, CountsOk, Occupied, Cores, TimesOk, Insert, AddedKnown, Created,
        Refreshed, MayGainReference;
      EntryOf(addr.service.net);
      KnownIs(h, V(), mapAddr[addr.service.net], addr, source, nTimePenalty, nNow, nRand);
      var id, tries := HearAgain(addr, nTimePenalty, nNow, nRand);
      if tries { PlaceInNew(id, source, nNow); }
    }

    lemma EntryOf(net: NetAddr)
      requires Consistent() && net in mapAddr
      ensures var id := mapAddr[net];
        && id in mapInfo && id in V().entries && V().entries[id] == mapInfo[id].Core()
        && V().entries[id].addr.service.net == net && V().entries[id].nRefCount >= 0
    {
      CoresAt(mapInfo);
    }

    /** Brings a known entry up to date, and says whether it is to try for one more reference. */
    method HearAgain(addr: Address, nTimePenalty: int, nNow: int, nRand: nat) returns (id: int, tries: bool)
      requires Consistent() && addr.service.net in mapAddr
      modifies this`mapInfo
      ensures Consistent() && id == mapAddr[addr.service.net] && id in mapInfo && id in old(V()).entries
      ensures TimesOk(old(V())) ==> TimesOk(V())
      ensures var info := Refreshed(old(V()).entries[id], addr, nTimePenalty, nNow);
        && V() == Created(old(V()), id, info) && mapInfo[id].Core() == info && info.nRefCount >= 0
        && (tries <==> MayGainReference(info, addr) && nRand % Odds(info.nRefCount) == 0)
      ensures tries ==> !mapInfo[id].fInTried && 0 < mapInfo[id].nRefCount < NEW_BUCKETS_PER_ADDRESS
    {
      hide NewTableOk, TriedTableOk, RefsOk, AddressesDistinct, RandomOk, AddrOk, CountsOk, Occupied, RefSlots, Cores,
        TimesOk, Pow;
      EntryOf(addr.service.net);
      id := mapAddr[addr.service.net];
      UntriedIsReferenced(id);
      var info := Refreshed(mapInfo[id], addr, nTimePenalty, nNow);
      Rewrite(id, info);
      if addr.nTime == 0 || (info.addr.nTime != 0 && addr.nTime <= info.addr.nTime) { return id, false; }
      if info.fInTried { return id, false; }
      if info.nRefCount == NEW_BUCKETS_PER_ADDRESS { return id, false; }
      var nFactor := Chances(info.nRefCount);
      tries := !(nFactor > 1 && nRand % nFactor != 0);
    }

    /** One chance in this many for an entry that has `nRefCount` references. */
    method Chances(nRefCount: nat) returns (nFactor: int)
      ensures nFactor == Pow(2, nRefCount) && nFactor >= 1
    {
      nFactor := 1;
      for n := 0 to nRefCount
        invariant nFactor == Pow(2, n) && nFactor >= 1
      {
        nFactor := nFactor * 2;
      }
    }

    lemma UntriedIsReferenced(id: int)
      requires Consistent()
      requires id in mapInfo
      ensures 0 <= mapInfo[id].nRefCount <= NEW_BUCKETS_PER_ADDRESS
      ensures mapInfo[id].fInTried <==> mapInfo[id].nRefCount == 0
      ensures TimesOk(V()) ==> mapInfo[id].TimesOk()
    {
      CoresAt(mapInfo);
      assert V().entries[id] == mapInfo[id].Core();
      if mapInfo[id].fInTried { assert RefSlots(V(), id) == {}; }
    }

    /** The manager knows this very address, port included. */
    ghost predicate Matches(addr: Service)
      reads this
    {
      addr.net in mapAddr && mapAddr[addr.net] in mapInfo && mapInfo[mapAddr[addr.net]].addr.service == addr
    }

    /** When a search that starts at bucket `nRnd` and wraps around reaches bucket `b`. */
    ghost function Turn(b: int, nRnd: int): int {
      if b >= nRnd then b - nRnd else b - nRnd + NEW_BUCKET_COUNT
    }

    /** The bucket search of `Good_` over all new buckets, from a random one on: it always finds one. */
    method FindBucket(id: int, nRnd: int) returns (nUBucket: int)
      requires Consistent()
      requires id in mapInfo && !mapInfo[id].fInTried
      requires 0 <= nRnd < NEW_BUCKET_COUNT
      ensures 0 <= nUBucket < NEW_BUCKET_COUNT
      ensures vvNew[nUBucket, h.Position(true, nUBucket, mapInfo[id].addr.service)] == id
    {
      hide NewTableOk, TriedTableOk, RefsOk, AddressesDistinct, RandomOk, AddrOk, NewIds, TriedIds, Occupied,
        RefSlots, Cores;
      var s := mapInfo[id].addr.service;
      for n := 0 to NEW_BUCKET_COUNT
        invariant forall b :: 0 <= b < NEW_BUCKET_COUNT && Turn(b, nRnd) < n ==>
                    vvNew[b, h.Position(true, b, s)] != id
      {
        var nB := (n + nRnd) % NEW_BUCKET_COUNT;
        if vvNew[nB, h.Position(true, nB, s)] == id { return nB; }
      }
      ghost var b := ReferencedBucket(id);
      assert false;
    }

    lemma ReferencedBucket(id: int) returns (b: int)
      requires Consistent()
      requires id in mapInfo && !mapInfo[id].fInTried
      ensures 0 <= b < NEW_BUCKET_COUNT
      ensures vvNew[b, h.Position(true, b, mapInfo[id].addr.service)] == id
    {
      UntriedIsReferenced(id);
      OccupiedAt(vvNew);
      assert V().entries[id] == mapInfo[id].Core();
      assert RefSlots(V(), id) != {};
      var t :| t in RefSlots(V(), id);
      b := t.b;
    }

    /** Marks an address as good at `nTime`: its statistics are reset, and if it was untried it moves
        to the tried table. The time conditions survive exactly when the stamp is positive. */
    method Good_(addr: Service, nTime: int)
      requires Consistent()
      modifies this, vvNew, vvTried
      ensures Consistent()
      ensures nLastGood == nTime
      ensures !old(Matches(addr)) ==> V() == old(V())
      ensures old(Matches(addr)) ==>
                var id := old(mapAddr[addr.net]);
                var info := old(mapInfo[id]).(nLastSuccess := nTime, nLastTry := nTime, nAttempts := 0);
                var v := Created(old(V()), id, info);
                V() == if info.fInTried then v else Promote(h, v, id)
      ensures TimesOk(old(V())) ==> (TimesOk(V()) <==> !old(Matches(addr)) || nTime > 0)
    {
      hide NewTableOk, TriedTableOk, RefsOk, AddressesDistinct, RandomOk, NewIds, TriedIds, Occupied, RefSlots,
        Cores, TimesOk;
      nLastGood := nTime;
      if addr.net !in mapAddr { return; }
      var id := mapAddr[addr.net];
      var info := mapInfo[id];
      if info.addr.service != addr { return; }
      info := info.(nLastSuccess := nTime, nLastTry := nTime, nAttempts := 0);
      Rewrite(id, info);
      if info.fInTried { return; }
      var nRnd := RandomInt(NEW_BUCKET_COUNT);
      var nUBucket := FindBucket(id, nRnd);
      assert nUBucket != -1;
      CoresAt(mapInfo);
      PromoteKeepsInv(h, V(), id);
      if nTime <= 0 { PromoteTimes(h, V(), id); }
      MakeTried(id);
    }

    /** Notes a connection attempt, and a failure when it counts. */
    method Attempt_(addr: Service, fCountFailure: bool, nTime: int)
      requires Consistent()
      modifies this`mapInfo
      ensures Consistent()
      ensures !old(Matches(addr)) ==> V() == old(V())
      ensures old(Matches(addr)) ==>
                var id := old(mapAddr[addr.net]);
                var info := old(mapInfo[id]).(nLastTry := nTime);
                V() == Created(old(V()), id,
                  if fCountFailure && info.nLastCountAttempt < nLastGood
                  then info.(nLastCountAttempt := nTime, nAttempts := info.nAttempts + 1) else info)
      ensures TimesOk(old(V())) ==> (TimesOk(V()) <==> !old(Matches(addr)) || nTime >= 0)
    {
      hide NewTableOk, TriedTableOk, RefsOk, AddressesDistinct, RandomOk, NewIds, TriedIds, Occupied, RefSlots,
        Cores, TimesOk;
      if addr.net !in mapAddr { return; }
      var id := mapAddr[addr.net];
      var info := mapInfo[id];
      if info.addr.service != addr { return; }
      UntriedIsReferenced(id);
      info := info.(nLastTry := nTime);
      if fCountFailure && info.nLastCountAttempt < nLastGood {
        info := info.(nLastCountAttempt := nTime, nAttempts := info.nAttempts + 1);
      }
      Rewrite(id, info);
    }

    /** Notes that a peer is connected, moving its time forward in steps of twenty minutes. */
    method Connected_(addr: Service, nTime: int)
      requires Consistent()
      modifies this`mapInfo
      ensures Consistent()
      ensures TimesOk(old(V())) ==> TimesOk(V())
      ensures !old(Matches(addr)) ==> V() == old(V())
      ensures old(Matches(addr)) ==>
                var id := old(mapAddr[addr.net]);
                var info := old(mapInfo[id]);
                V() == Created(old(V()), id,
                  if nTime - info.addr.nTime > 20 * 60 then info.(addr := info.addr.(nTime := ToUint32(nTime)))
                    else info)
    {
      hide NewTableOk, TriedTableOk, RefsOk, AddressesDistinct, RandomOk, NewIds, TriedIds, Occupied, RefSlots,
        Cores, TimesOk;
      if addr.net !in mapAddr { return; }
      var id := mapAddr[addr.net];
      var info := mapInfo[id];
      if info.addr.service != addr { return; }
      UntriedIsReferenced(id);
      if nTime - info.addr.nTime > 20 * 60 {
        info := info.(addr := info.addr.(nTime := ToUint32(nTime)));
      }
      Rewrite(id, info);
    }

    /** Replaces the service bits of a known peer. */
    method SetServices_(addr: Service, nServices: bv64)
      requires Consistent()
      modifies this`mapInfo
      ensures Consistent()
      ensures TimesOk(old(V())) ==> TimesOk(V())
      ensures !old(Matches(addr)) ==> V() == old(V())
      ensures old(Matches(addr)) ==>
                var id := old(mapAddr[addr.net]);
                var info := old(mapInfo[id]);
                V() == Created(old(V()), id, info.(addr := info.addr.(nServices := nServices)))
    {
      hide NewTableOk, TriedTableOk, RefsOk, AddressesDistinct, RandomOk, NewIds, TriedIds, Occupied, RefSlots,
        Cores, TimesOk;
      if addr.net !in mapAddr { return; }
      var id := mapAddr[addr.net];
      var info := mapInfo[id];
      if info.addr.service != addr { return; }
      UntriedIsReferenced(id);
      Rewrite(id, info.(addr := info.addr.(nServices := nServices)));
    }

    /** Hands out a random sample: at most a quarter or so of the entries and at most 2500, each entry
        once, none of them terrible; if fewer than the limit, then every entry that is not terrible. */
    method GetAddr_(nNow: int) returns (vAddr: seq<Address>)
      requires Consistent()
      modifies this`vRandom, this`mapInfo
      ensures Consistent() && V() == old(V())
      ensures |vAddr| <= 2500 && 100 * |vAddr| <= 23 * |V().entries|
      ensures NetsDistinct(vAddr)
      ensures forall a :: a in vAddr ==>
                exists id :: id in V().entries && !V().entries[id].IsTerrible(nNow) && V().entries[id].addr == a
      ensures |vAddr| < 2500 && 100 * |vAddr| + 100 <= 23 * |V().entries| ==>
                forall id :: id in V().entries && !V().entries[id].IsTerrible(nNow) ==> V().entries[id].addr in vAddr
    {
      hide NewTableOk, TriedTableOk, RefsOk, AddressesDistinct, NewIds, TriedIds, Occupied, RefSlots, RandomOk,
        AddrOk, Cores, Pick;
      var nNodes := GETADDR_MAX_PCT * |vRandom| / 100;
      if nNodes > GETADDR_MAX {
        nNodes := GETADDR_MAX;
      }
      vAddr := [];
      var n := 0;
      ghost var entries := V().entries;
      PickNone(entries, vRandom[..0], nNow);
      while n < |vRandom| && |vAddr| < nNodes
        invariant 0 <= n <= |vRandom| == |old(vRandom)|
        invariant RandomOk(mapInfo, vRandom) && IdsOk(mapInfo, nIdCount) && AddrOk(mapInfo, mapAddr, nIdCount)
        invariant Cores(mapInfo) == entries
        invariant vAddr == Pick(entries, vRandom[..n], nNow)
        invariant |vAddr| <= nNodes
      {
        var r := RandomInt(|vRandom| - n);
        ghost var before := vRandom;
        SwapRandom(n, r + n);
        assert vRandom[..n] == before[..n];
        assert vRandom[..n + 1] == vRandom[..n] + [vRandom[n]];
        RandomIds(n);
        assert vRandom[n] in mapInfo;
        var ai := mapInfo[vRandom[n]];
        PickNext(entries, vRandom[..n], vRandom[n], nNow);
        if !ai.IsTerrible(nNow) {
          vAddr := vAddr + [ai.addr];
        }
        n := n + 1;
      }
      assert V() == old(V());
      SampleIsGood(n, nNow);
      SizeIsCount(mapInfo, vRandom, nNew, nTried);
      CoresAt(mapInfo);
    }

    lemma RandomIds(n: int)
      requires RandomOk(mapInfo, vRandom) && 0 <= n < |vRandom|
      ensures vRandom[n] in mapInfo && vRandom[n] in Cores(mapInfo)
      ensures Cores(mapInfo)[vRandom[n]] == mapInfo[vRandom[n]].Core()
    { }

    lemma PickNone(entries: map<int, AddrInfo>, ids: seq<int>, nNow: int)
      requires ids == []
      ensures Pick(entries, ids, nNow) == []
    { }

    lemma PickNext(entries: map<int, AddrInfo>, ids: seq<int>, id: int, nNow: int)
      ensures Pick(entries, ids + [id], nNow)
           == Pick(entries, ids, nNow)
              + if id in entries && !entries[id].IsTerrible(nNow) then [entries[id].addr] else []
    {
      assert (ids + [id])[..|ids|] == ids;
    }

    lemma SampleIsGood(n: int, nNow: int)
      requires Consistent()
      requires 0 <= n <= |vRandom|
      ensures var r := Pick(V().entries, vRandom[..n], nNow);
              && NetsDistinct(r)
              && (forall a :: a in r ==>
                    exists id :: id in V().entries && !V().entries[id].IsTerrible(nNow) && V().entries[id].addr == a)
              && (n == |vRandom| ==>
                    forall id :: id in V().entries && !V().entries[id].IsTerrible(nNow) ==> V().entries[id].addr in r)
    {
      var ids := vRandom[..n];
      PickContents(V().entries, ids, nNow);
      PickDistinct(V().entries, ids, nNow);
      if n == |vRandom| {
        forall id | id in V().entries && !V().entries[id].IsTerrible(nNow)
          ensures V().entries[id].addr in Pick(V().entries, ids, nNow)
        {
          assert ids[mapInfo[id].nRandomPos] == id;
        }
      }
    }
  }

  /** One call of the manager's interface. */
  datatype Op =
    | Add(addr: Address, source: NetAddr, nTimePenalty: int, fRoutable: bool, nNow: int, nRand: nat)
    | Good(service: Service, nTime: int)
    | Attempt(service: Service, fCountFailure: bool, nTime: int)
    | Connected(service: Service, nTime: int)
    | SetServices(service: Service, nServices: bv64)
    | GetAddr(nNow: int)

  /** Whatever is called, in whatever order, from a fresh manager on: every index agrees with every other
      after each call, and the time conditions too if every success is stamped with a positive time. */
  method Run(h: Hasher, ops: seq<Op>) returns (m: Manager)
    ensures m.Consistent()
    ensures (forall i :: 0 <= i < |ops| ==>
              (ops[i].Good? ==> ops[i].nTime > 0) && (ops[i].Attempt? ==> ops[i].nTime >= 0)) ==>
              TimesOk(m.V())
  {
    m := new Manager(h);
    for i := 0 to |ops|
      invariant m.Consistent()
      invariant fresh(m) && fresh(m.vvNew) && fresh(m.vvTried)
      invariant (forall j :: 0 <= j < i ==>
                  (ops[j].Good? ==> ops[j].nTime > 0) && (ops[j].Attempt? ==> ops[j].nTime >= 0)) ==>
                  TimesOk(m.V())
    {
      hide Inv, RandomOk, AddrOk, CountsOk, TimesOk, Occupied, Cores;
      match ops[i] {
        case Add(addr, source, nTimePenalty, fRoutable, nNow, nRand) =>
          var _ := m.Add_(addr, source, nTimePenalty, fRoutable, nNow, nRand);
        case Good(service, nTime) => m.Good_(service, nTime);
        case Attempt(service, fCountFailure, nTime) => m.Attempt_(service, fCountFailure, nTime);
        case Connected(service, nTime) => m.Connected_(service, nTime);
        case SetServices(service, nServices) => m.SetServices_(service, nServices);
        case GetAddr(nNow) => var _ := m.GetAddr_(nNow);
      }
    }
  }
}

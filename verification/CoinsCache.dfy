/** The stack of coin caches as the program keeps it: each cache fills itself from the one below,
    holds modifications back, and pushes them down when flushed. */
module CoinsCache {
  import opened CoinsView
  import opened Wrappers

  class CoinsStack {
    var db: Db
    var ls: seq<Layer>

    constructor (db: Db)
      ensures this.db == db && ls == [] && Ok(db, ls)
    {
      this.db := db;
      ls := [];
    }

    /** Reads at level `n`: the database, or a cache. */
    method GetCoins(n: nat, t: Txid) returns (r: Option<Coins>)
      requires Ok(db, ls) && n <= |ls|
      modifies this`ls
      ensures Ok(db, ls) && |ls| == |old(ls)|
      ensures forall i :: n <= i < |ls| ==> ls[i] == old(ls)[i]
      ensures forall i :: 0 <= i < |ls| ==> ls[i].modifier == old(ls)[i].modifier
      ensures forall m, x :: 0 <= m <= |ls| ==> Look(db, ls, m, x) == Look(db, old(ls), m, x)
      ensures r == Look(db, old(ls), n, t)
      decreases n, 0
    {
      if n == 0 {
        r := Read(db, t);
      } else {
        r := FetchCoins(n - 1, t);
      }
    }

    /** Finds a transaction in cache `k`, filling the cache from below if need be. */
    method FetchCoins(k: nat, t: Txid) returns (r: Option<Coins>)
      requires Ok(db, ls) && k < |ls|
      modifies this`ls
      ensures Ok(db, ls) && |ls| == |old(ls)|
      ensures forall i :: k < i < |ls| ==> ls[i] == old(ls)[i]
      ensures forall i :: 0 <= i < |ls| ==> ls[i].modifier == old(ls)[i].modifier
      ensures forall m, x :: 0 <= m <= |ls| ==> Look(db, ls, m, x) == Look(db, old(ls), m, x)
      ensures r == Look(db, old(ls), k + 1, t)
      ensures r.Some? ==> t in ls[k].cache && ls[k].cache[t].coins == r.value
      ensures t in old(ls)[k].cache ==> ls == old(ls)
      ensures t !in old(ls)[k].cache ==>
        ls[k].cache ==
          if r.Some? then old(ls)[k].cache[t := Entry(r.value, false, r.value.IsPruned())] else old(ls)[k].cache
      decreases k, 1
    {
      if t in ls[k].cache {
        return Some(ls[k].cache[t].coins);
      }
      var tmp := GetCoins(k, t);
      if tmp.None? {
        return None;
      }
      FillKeepsReads(db, ls, k, t);
      ls := WithEntry(ls, k, t, Some(Entry(tmp.value, false, tmp.value.IsPruned())));
      r := tmp;
    }

    /** Tells whether what a read finds has outputs at all, spent or not: it never denies a transaction with unspent
        ones, and may still report a spent one. */
    method HaveCoins(k: nat, t: Txid) returns (r: bool)
      requires Ok(db, ls) && k < |ls|
      modifies this`ls
      ensures Ok(db, ls) && |ls| == |old(ls)|
      ensures forall i :: 0 <= i < |ls| ==> ls[i].modifier == old(ls)[i].modifier
      ensures forall m, x :: 0 <= m <= |ls| ==> Look(db, ls, m, x) == Look(db, old(ls), m, x)
      ensures r <==> Look(db, old(ls), k + 1, t).Some? && Look(db, old(ls), k + 1, t).value.vout != []
      ensures Flat(db, ls, k + 1, t).Some? ==> r
    {
      var it := FetchCoins(k, t);
      r := it.Some? && it.value.vout != [];
    }

    /** Puts an empty cache on top. */
    method Push()
      requires Ok(db, ls)
      modifies this`ls
      ensures Ok(db, ls) && ls == old(ls) + [EMPTY_LAYER]
      ensures forall n, x :: 0 <= n < |ls| ==> Flat(db, ls, n, x) == Flat(db, old(ls), n, x)
      ensures forall x :: Flat(db, ls, |ls|, x) == Flat(db, old(ls), |old(ls)|, x)
    {
      ghost var old_ := ls;
      ls := ls + [EMPTY_LAYER];
      OkBelow(db, old_, ls, |old_|);
      assert LayerOk(db, ls, |old_|);
    }

    /** Throws the top cache away: its modifications are forgotten. */
    method Pop()
      requires Ok(db, ls) && |ls| > 0
      requires ls[|ls| - 1].modifier == None
      modifies this`ls
      ensures Ok(db, ls) && ls == old(ls)[..|old(ls)| - 1]
      ensures forall n, x :: 0 <= n <= |ls| ==> Flat(db, ls, n, x) == Flat(db, old(ls), n, x)
    {
      ghost var old_ := ls;
      ls := ls[..|ls| - 1];
      OkBelow(db, old_, ls, |ls|);
    }

    /** Opens a handle on a transaction of the top cache, creating an entry if there is none. No coin set changes. */
    method ModifyCoins(t: Txid) returns (coins: Coins)
      requires Ok(db, ls) && |ls| > 0
      requires ls[|ls| - 1].modifier == None
      modifies this`ls
      ensures Ok(db, ls) && |ls| == |old(ls)|
      ensures forall n, x :: 0 <= n <= |ls| ==> Flat(db, ls, n, x) == Flat(db, old(ls), n, x)
      ensures forall i :: 0 <= i < |ls| - 1 ==> ls[i].modifier == old(ls)[i].modifier
      ensures ls[|ls| - 1].modifier == Some(t)
      ensures t in ls[|ls| - 1].cache && coins == ls[|ls| - 1].cache[t].coins
      ensures Norm(Some(coins)) == Flat(db, ls, |ls|, t)
      ensures var was, found := old(ls)[|ls| - 1].cache, Look(db, old(ls), |ls| - 1, t);
        && ls[|ls| - 1].cache == was[t := Entry(coins, true,
             if t in was then was[t].isFresh else found.None? || found.value.IsPruned())]
        && coins ==
             if t in was then was[t].coins else if found.Some? then found.value else Coins(false, false, [], 0, 0)
    {
      var top := |ls| - 1;
      var e: Entry;
      if t !in ls[top].cache {
        var r := GetCoins(top, t);
        if r.None? {
          e := Entry(NO_COINS, false, true);
        } else {
          e := Entry(r.value, false, r.value.IsPruned());
        }
      } else {
        e := ls[top].cache[t];
        assert LayerOk(db, ls, top);
      }
      e := e.(isDirty := true);
      SilentChange(db, ls, top, t, Some(e));
      ghost var before := ls;
      ls := WithEntry(ls, top, t, Some(e));
      HandleKeepsOk(db, ls, Some(t));
      ghost var between := ls;
      ls := ls[top := ls[top].(modifier := Some(t))];
      coins := e.coins;
      forall n, x | 0 <= n <= |ls|
        ensures Flat(db, ls, n, x) == Flat(db, old(ls), n, x)
      {
        assert Look(db, ls, n, x) == Look(db, between, n, x);
        assert Flat(db, between, n, x) == Flat(db, before, n, x);
      }
    }

    /** Opens a handle on a transaction whose outputs are all to be new. The marks stay right exactly when it is
        a coinbase or the level below has nothing unspent for it. */
    method ModifyNewCoins(t: Txid, coinbase: bool)
      requires |ls| > 0 && ls[|ls| - 1].modifier == None
      modifies this`ls
      ensures ls == Opened(old(ls), t, NewEntry(old(ls)[|old(ls)| - 1].cache, t, coinbase))
      ensures Open(ls) && Handle(ls) == t && Held(ls).coins == Coins(false, false, [], 0, 0)
      ensures Ok(db, old(ls)) ==> TopIs(db, old(ls), ls, t, None)
      ensures Ok(db, old(ls)) ==> (Ok(db, ls) <==> coinbase || Flat(db, old(ls), |ls| - 1, t) == None)
    {
      var top := |ls| - 1;
      ghost var old_ := ls;
      var e := if t in ls[top].cache then ls[top].cache[t] else Entry(NO_COINS, false, false);
      e := e.(coins := NO_COINS);
      if !coinbase {
        e := e.(isFresh := true, isDirty := false);
      }
      e := e.(isDirty := true);
      ls := WithEntry(ls, top, t, Some(e));
      ls := ls[top := ls[top].(modifier := Some(t))];
      if Ok(db, old_) { OpenedOk(db, old_, t, coinbase); }
    }

    /** Writes through the open handle. */
    method Edit(coins: Coins)
      requires |ls| > 0 && Open(ls)
      modifies this`ls
      ensures ls == WithEntry(old(ls), |old(ls)| - 1, Handle(old(ls)), Some(Held(old(ls)).(coins := coins)))
      ensures Open(ls) && Handle(ls) == Handle(old(ls)) && Held(ls) == Held(old(ls)).(coins := coins)
      ensures Ok(db, old(ls)) ==> Ok(db, ls) && TopIs(db, old(ls), ls, Handle(ls), Norm(Some(coins)))
    {
      if Ok(db, ls) { EditedOk(db, ls, coins); }
      var top := |ls| - 1;
      var t := ls[top].modifier.value;
      var e := ls[top].cache[t].(coins := coins);
      ls := WithEntry(ls, top, t, Some(e));
    }

    /** Closes the handle: spent outputs at the end go, and an entry that is spent and marked as unknown below
        goes altogether. */
    method CloseModifier()
      requires |ls| > 0 && Open(ls)
      modifies this`ls
      ensures ls == Closed(old(ls), Handle(old(ls)), Closing(Held(old(ls))))
      ensures Ok(db, old(ls)) ==>
        Ok(db, ls) && TopIs(db, old(ls), ls, Handle(old(ls)), Norm(Some(Cleaned(Held(old(ls)).coins))))
    {
      if Ok(db, ls) { ClosedOk(db, ls, Held(ls).coins); }
      var top := |ls| - 1;
      var t := ls[top].modifier.value;
      ls := ls[top := ls[top].(modifier := None)];
      var e := ls[top].cache[t];
      var vout := Cleanup(e.coins.vout);
      e := e.(coins := e.coins.(vout := vout));
      if e.isFresh && e.coins.IsPruned() {
        ls := WithEntry(ls, top, t, None);
      } else {
        ls := WithEntry(ls, top, t, Some(e));
      }
    }

    /** Writes through the open handle and closes it. */
    method EditAndClose(coins: Coins)
      requires |ls| > 0 && Open(ls)
      modifies this`ls
      ensures ls == Closed(old(ls), Handle(old(ls)), Closing(Held(old(ls)).(coins := coins)))
      ensures Ok(db, old(ls)) ==> Ok(db, ls) && TopIs(db, old(ls), ls, Handle(old(ls)), Norm(Some(Cleaned(coins))))
    {
      ghost var old_ := ls;
      Edit(coins);
      CloseModifier();
      ClosedAfterEdit(old_, coins);
      if Ok(db, old_) { ClosedOk(db, old_, coins); }
    }

    /** Makes new coins for a transaction, whether they are new or not. The top coin set then has them exactly if it
        is a coinbase, or some are unspent, or the level below has nothing unspent for it: otherwise what is below
        shows through. The marks stay right exactly if it is a coinbase, or all are spent, or there is nothing. */
    method Create(t: Txid, coinbase: bool, coins: Coins)
      requires Ok(db, ls) && |ls| > 0 && ls[|ls| - 1].modifier == None
      modifies this`ls
      ensures |ls| == |old(ls)| && forall i :: 0 <= i < |ls| ==> ls[i].modifier == old(ls)[i].modifier
      ensures var below := Flat(db, old(ls), |ls| - 1, t);
              && (Flat(db, ls, |ls|, t) == Norm(Some(Cleaned(coins))) <==>
                coinbase || !coins.IsPruned() || below == None)
              && (Ok(db, ls) <==> coinbase || coins.IsPruned() || below == None)
              && TopIs(db, old(ls), ls, t, if coinbase || !coins.IsPruned() then Norm(Some(Cleaned(coins))) else below)
    {
      hide Ok, Look, Norm, TopIs, Closing;
      ghost var old_ := ls;
      ModifyNewCoins(t, coinbase);
      ghost var e := NewEntry(old_[|old_| - 1].cache, t, coinbase);
      OpenedHolds(old_, t, e, Closing(e.(coins := coins)));
      EditAndClose(coins);
      CreatedIs(db, old_, t, coinbase, coins);
    }

    /** Drops an unmodified entry from a cache; no reader at any level notices. */
    method Uncache(k: nat, t: Txid)
      requires Ok(db, ls) && k < |ls|
      modifies this`ls
      ensures Ok(db, ls) && |ls| == |old(ls)|
      ensures forall i :: 0 <= i < |ls| ==> ls[i].modifier == old(ls)[i].modifier
      ensures forall n, x :: 0 <= n <= |ls| ==> Flat(db, ls, n, x) == Flat(db, old(ls), n, x)
      ensures forall i :: 0 <= i < |ls| && i != k ==> ls[i] == old(ls)[i]
      ensures ls[k].cache == if t in old(ls)[k].cache && !old(ls)[k].cache[t].isDirty && !old(ls)[k].cache[t].isFresh
        then old(ls)[k].cache - {t} else old(ls)[k].cache
    {
      if t in ls[k].cache && !ls[k].cache[t].isDirty && !ls[k].cache[t].isFresh {
        assert LayerOk(db, ls, k);
        SilentChange(db, ls, k, t, None);
        ls := WithEntry(ls, k, t, None);
      }
    }

    /** Writes every dirty entry of `child` into cache `k`, in any order. */
    method BatchWrite(k: nat, child: map<Txid, Entry>)
      requires k < |ls| && ls[k].modifier == None
      modifies this`ls
      ensures |ls| == |old(ls)| && forall i :: 0 <= i < |ls| && i != k ==> ls[i] == old(ls)[i]
      ensures ls[k].modifier == None && Written(old(ls)[k].cache, child, child.Keys, ls[k].cache)
    {
      var todo := child.Keys;
      assert child.Keys - todo == {};
      while todo != {}
        invariant todo <= child.Keys
        invariant |ls| == |old(ls)| && forall i :: 0 <= i < |ls| && i != k ==> ls[i] == old(ls)[i]
        invariant ls[k].modifier == None
        invariant Written(old(ls)[k].cache, child, child.Keys - todo, ls[k].cache)
        decreases |todo|
      {
        var t :| t in todo;
        var e := child[t];
        assert Get(ls[k].cache, t) == Get(old(ls)[k].cache, t);
        if e.isDirty {
          if t !in ls[k].cache {
            if !(e.isFresh && e.coins.IsPruned()) {
              ls := WithEntry(ls, k, t, Some(Entry(e.coins, true, e.isFresh)));
            }
          } else {
            if ls[k].cache[t].isFresh && e.coins.IsPruned() {
              ls := WithEntry(ls, k, t, None);
            } else {
              ls := WithEntry(ls, k, t, Some(ls[k].cache[t].(coins := e.coins, isDirty := true)));
            }
          }
        }
        todo := todo - {t};
      }
      assert child.Keys - todo == child.Keys;
    }

    /** Writes every dirty entry of `child` into the database, in any order, erasing spent ones. */
    method BatchWriteDb(child: map<Txid, Entry>)
      modifies this`db
      ensures Stored(old(db), child, child.Keys, db)
    {
      var todo := child.Keys;
      assert child.Keys - todo == {};
      while todo != {}
        invariant todo <= child.Keys
        invariant Stored(old(db), child, child.Keys - todo, db)
        decreases |todo|
      {
        var t :| t in todo;
        if child[t].isDirty {
          if child[t].coins.IsPruned() {
            db := db - {t};
          } else {
            db := db[t := child[t].coins];
          }
        }
        todo := todo - {t};
      }
      assert child.Keys - todo == child.Keys;
    }

    /** Pushes the modifications of cache `k` one level down and empties it: the level below now stands for
        its coin set, and no reader at this level or above notices. */
    method Flush(k: nat)
      requires Ok(db, ls) && k < |ls|
      requires ls[k].modifier == None && (k > 0 ==> ls[k - 1].modifier == None)
      modifies this
      ensures Ok(db, ls) && |ls| == |old(ls)| && ls[k].cache == map[]
      ensures forall i :: 0 <= i < |ls| ==> ls[i].modifier == old(ls)[i].modifier
      ensures forall n, x :: 0 <= n < k ==> Flat(db, ls, n, x) == Flat(old(db), old(ls), n, x)
      ensures forall x :: Flat(db, ls, k, x) == Flat(old(db), old(ls), k + 1, x)
      ensures forall n, x :: k < n <= |ls| ==> Flat(db, ls, n, x) == Flat(old(db), old(ls), n, x)
    {
      ghost var db0, ls0 := db, ls;
      var child := ls[k].cache;
      if k == 0 {
        BatchWriteDb(child);
        StoreKeepsOk(db0, ls0, db);
        ls := ls[0 := ls[0].(cache := map[])];
      } else {
        BatchWrite(k - 1, child);
        FlushKeepsOk(db0, ls0, k, ls[k - 1].cache);
        ls := ls[k := ls[k].(cache := map[])];
        assert ls == Flushed(ls0, k, ls[k - 1].cache);
      }
    }
  }

  /** Drops the spent outputs at the end, one at a time. */
  method Cleanup(vout: seq<TxOut>) returns (r: seq<TxOut>)
    ensures r == Trim(vout)
  {
    r := vout;
    while |r| > 0 && r[|r| - 1].IsNull()
      invariant Trim(r) == Trim(vout)
    {
      r := r[..|r| - 1];
    }
  }

  // ---------- whole runs against flat coin sets ----------

  /** One operation: reads and cache management at any level, changes at the top. */
  datatype Op =
    | Fetch(k: nat, t: Txid)
    | Have(k: nat, t: Txid)
    | Modify(t: Txid, to: Coins)
    | Create(t: Txid, coinbase: bool, to: Coins)
    | Drop(k: nat, t: Txid)
    | FlushLayer(k: nat)
    | PushLayer
    | PopLayer

  type CoinSet = Txid -> Option<Coins>

  /** Whether an operation makes sense: there is such a layer, and new coins are really new. */
  ghost predicate Allowed(sets: seq<CoinSet>, op: Op) {
    match op
    case Fetch(k, t) => k < |sets| - 1
    case Have(k, t) => k < |sets| - 1
    case Modify(t, to) => |sets| > 1
    case Create(t, coinbase, to) => |sets| > 1 && (coinbase || sets[|sets| - 2](t) == None)
    case Drop(k, t) => k < |sets| - 1
    case FlushLayer(k) => k < |sets| - 1
    case PushLayer => true
    case PopLayer => |sets| > 1
  }

  /** What an operation does to plain coin sets, one per level: no marks, no caches. */
  ghost function Spec(sets: seq<CoinSet>, op: Op): seq<CoinSet>
    requires |sets| > 0 && Allowed(sets, op)
  {
    var top := |sets| - 1;
    match op
    case Modify(t, to) => sets[top := (x: Txid) => if x == t then Norm(Some(Cleaned(to))) else sets[top](x)]
    case Create(t, coinbase, to) => sets[top := (x: Txid) => if x == t then Norm(Some(Cleaned(to))) else sets[top](x)]
    case FlushLayer(k) => sets[k := sets[k + 1]]
    case PushLayer => sets + [sets[top]]
    case PopLayer => sets[..top]
    case _ => sets
  }

  /** Each level of the stack stands for the corresponding coin set. */
  ghost predicate Stands(m: CoinsStack, sets: seq<CoinSet>)
    reads m
  {
    && |sets| == |m.ls| + 1
    && (forall i :: 0 <= i < |m.ls| ==> m.ls[i].modifier == None)
    && forall n, t :: 0 <= n < |sets| ==> Flat(m.db, m.ls, n, t) == sets[n](t)
  }

  /** One operation of the stack does to what it stands for exactly what the plain coin sets do. */
  method Step(m: CoinsStack, op: Op, ghost sets: seq<CoinSet>)
    requires Ok(m.db, m.ls) && Stands(m, sets) && Allowed(sets, op)
    modifies m
    ensures Ok(m.db, m.ls) && Stands(m, Spec(sets, op))
  {
    hide Ok, Look, Norm;
    match op {
      case Fetch(k, t) => var _ := m.FetchCoins(k, t);
      case Have(k, t) => var _ := m.HaveCoins(k, t);
      case Modify(t, to) =>
        var _ := m.ModifyCoins(t);
        m.EditAndClose(to);
      case Create(t, coinbase, to) =>
        m.Create(t, coinbase, to);
      case Drop(k, t) => m.Uncache(k, t);
      case FlushLayer(k) => m.Flush(k);
      case PushLayer => m.Push();
      case PopLayer => m.Pop();
    }
  }

  /** Output i of a transaction is there, unspent. */
  ghost predicate Has(o: Option<Coins>, i: nat, out: TxOut) {
    o.Some? && i < |o.value.vout| && o.value.vout[i] == out && !out.IsNull()
  }

  /** What standing for coin sets means to a reader at any level: the unspent outputs it finds are those of the coin
      set, with the same height, version and kind, and it finds none exactly if the coin set has none. */
  method ReadLike(m: CoinsStack, ghost sets: seq<CoinSet>, n: nat, t: Txid) returns (r: Option<Coins>)
    requires Ok(m.db, m.ls) && Stands(m, sets) && n < |sets|
    modifies m`ls
    ensures Ok(m.db, m.ls) && Stands(m, sets)
    ensures forall i, out :: Has(r, i, out) <==> Has(sets[n](t), i, out)
    ensures sets[n](t).Some? ==> r == sets[n](t) && exists i, out :: Has(r, i, out)
    ensures sets[n](t).None? ==> forall i, out :: !Has(r, i, out)
  {
    r := m.GetCoins(n, t);
    NormIs(r);
  }

  /** Counting a fully spent record as none keeps every unspent output. */
  lemma NormIs(o: Option<Coins>)
    ensures forall i, out :: Has(Norm(o), i, out) <==> Has(o, i, out)
    ensures Norm(o).Some? ==> Norm(o) == o && exists i, out :: Has(o, i, out)
  {
    if Norm(o).Some? {
      var i :| 0 <= i < |o.value.vout| && !o.value.vout[i].IsNull();
      assert Has(o, i, o.value.vout[i]);
    } else if o.Some? {
      assert forall i: nat :: i < |o.value.vout| ==> o.value.vout[i].IsNull();
    }
  }

  /** Writing coins gives the top coin set their unspent outputs, and changes no other transaction. */
  lemma SpecWrites(sets: seq<CoinSet>, t: Txid, coinbase: bool, to: Coins, create: bool, x: Txid)
    requires |sets| > 1 && (create ==> coinbase || sets[|sets| - 2](t) == None)
    ensures var sets', top := Spec(sets, if create then Create(t, coinbase, to) else Modify(t, to)), |sets| - 1;
      && |sets'| == |sets| && sets'[..top] == sets[..top]
      && (x != t ==> sets'[top](x) == sets[top](x))
      && (forall i, out :: Has(sets'[top](t), i, out) <==> Has(Some(to), i, out))
      && (sets'[top](t).Some? ==>
            sets'[top](t).value.(vout := []) == to.(vout := []) && sets'[top](t).value.vout <= to.vout)
  {
    NormIs(Some(Cleaned(to)));
    TrimIs(to.vout);
    forall i, out ensures Has(Some(Cleaned(to)), i, out) <==> Has(Some(to), i, out) { }
  }

  ghost predicate AllAllowed(sets: seq<CoinSet>, ops: seq<Op>)
    requires |sets| > 0
    decreases |ops|
  {
    ops != [] ==> Allowed(sets, ops[0]) && AllAllowed(Spec(sets, ops[0]), ops[1..])
  }

  /** What a run does to plain coin sets. */
  ghost function SpecAll(sets: seq<CoinSet>, ops: seq<Op>): seq<CoinSet>
    requires |sets| > 0 && AllAllowed(sets, ops)
    decreases |ops|
  {
    if ops == [] then sets else SpecAll(Spec(sets, ops[0]), ops[1..])
  }

  /** A stack of caches of any depth over any database, run through any operations, reads at every level
      exactly like the plain coin sets run through the same operations. */
  method Run(db: Db, ops: seq<Op>) returns (m: CoinsStack)
    requires AllAllowed([(t: Txid) => Norm(Read(db, t))], ops)
    ensures Ok(m.db, m.ls)
    ensures Stands(m, SpecAll([(t: Txid) => Norm(Read(db, t))], ops))
  {
    m := new CoinsStack(db);
    ghost var start: seq<CoinSet> := [(t: Txid) => Norm(Read(db, t))];
    ghost var sets := start;
    var i := 0;
    while i < |ops|
      invariant 0 <= i <= |ops|
      invariant fresh(m) && Ok(m.db, m.ls) && |sets| > 0 && Stands(m, sets)
      invariant AllAllowed(sets, ops[i..])
      invariant SpecAll(start, ops) == SpecAll(sets, ops[i..])
    {
      assert ops[i..][0] == ops[i] && ops[i..][1..] == ops[i + 1..];
      Step(m, ops[i], sets);
      sets := Spec(sets, ops[i]);
      i := i + 1;
    }
  }

  /** Why new coins must be new: if the database has unspent coins for `t`, then coins created as new in a cache and
      closed fully spent are dropped, and a read finds the old ones again, where the plain coin set has none. */
  method OverwrittenCoinsReappear(db: Db, t: Txid, spent: Coins) returns (r: Option<Coins>)
    requires t in db && !db[t].IsPruned() && spent.IsPruned()
    ensures r == Some(db[t]) && Norm(Some(Cleaned(spent))) == None
  {
    var m := new CoinsStack(db);
    m.Push();
    m.Create(t, false, spent);
    assert Flat(db, m.ls, 1, t) == Norm(Read(db, t));
    r := m.GetCoins(1, t);
    CleanedIsPruned(spent);
  }
}

/** A stack of coin caches over a database, as a value: what a read through the stack finds,
    what the DIRTY and FRESH marks must mean, and what each operation does to them. */
module CoinsView {
  import opened Wrappers

  datatype TxOut = TxOut(nValue: Int64, scriptPubKey: seq<Byte>)
  {
    predicate IsNull() { nValue == -1 }
  }

  const NULL_OUT := TxOut(-1, [])

  /** The outputs of a transaction that are still unspent, with what is known of the transaction. */
  datatype Coins = Coins(fCoinBase: bool, fCoinStake: bool, vout: seq<TxOut>, nHeight: int, nVersion: int)
  {
    predicate IsPruned() {
      forall i :: 0 <= i < |vout| ==> vout[i].IsNull()
    }
  }

  const NO_COINS := Coins(false, false, [], 0, 0)

  /** The outputs without the spent ones at the end. */
  function Trim(vout: seq<TxOut>): seq<TxOut> {
    if vout != [] && vout[|vout| - 1].IsNull() then Trim(vout[..|vout| - 1]) else vout
  }

  function Cleaned(c: Coins): Coins { c.(vout := Trim(c.vout)) }

  type Txid = nat

  datatype Entry = Entry(coins: Coins, isDirty: bool, isFresh: bool)

  /** One cache: its entries, and the transaction being modified through an open handle. */
  datatype Layer = Layer(cache: map<Txid, Entry>, modifier: Option<Txid>)

  const EMPTY_LAYER := Layer(map[], None)

  type Db = map<Txid, Coins>

  function Read(db: Db, t: Txid): Option<Coins> {
    if t in db then Some(db[t]) else None
  }

  /** What a read at level `n` finds: level 0 is the database, level n the n-th cache. */
  function Look(db: Db, ls: seq<Layer>, n: nat, t: Txid): Option<Coins>
    requires n <= |ls|
  {
    if n == 0 then Read(db, t)
    else if t in ls[n - 1].cache then Some(ls[n - 1].cache[t].coins)
    else Look(db, ls, n - 1, t)
  }

  /** A fully spent record counts as none. */
  function Norm(o: Option<Coins>): Option<Coins> {
    if o.Some? && !o.value.IsPruned() then o else None
  }

  /** The coin set that level `n` stands for. */
  function Flat(db: Db, ls: seq<Layer>, n: nat, t: Txid): Option<Coins>
    requires n <= |ls|
  {
    Norm(Look(db, ls, n, t))
  }

  /** What the marks of an entry promise about the level below it. */
  ghost predicate EntryOk(e: Entry, below: Option<Coins>) {
    && (e.isFresh ==> below == None)
    && (!e.isDirty ==> Norm(Some(e.coins)) == below)
  }

  ghost predicate LayerOk(db: Db, ls: seq<Layer>, n: nat)
    requires n < |ls|
  {
    && (forall t :: t in ls[n].cache ==> EntryOk(ls[n].cache[t], Flat(db, ls, n, t)))
    && (ls[n].modifier.Some? ==> ls[n].modifier.value in ls[n].cache && ls[n].cache[ls[n].modifier.value].isDirty)
  }

  /** Every mark in every cache is right. */
  ghost predicate Ok(db: Db, ls: seq<Layer>) {
    forall n :: 0 <= n < |ls| ==> LayerOk(db, ls, n)
  }

  // ---------- how reads depend on the layers ----------

  /** Reads at a level depend only on the layers below it. */
  lemma {:induction false} LookBelow(db: Db, ls: seq<Layer>, ls': seq<Layer>, n: nat, t: Txid)
    requires n <= |ls| && n <= |ls'| && ls[..n] == ls'[..n]
    ensures Look(db, ls, n, t) == Look(db, ls', n, t)
  {
    if n > 0 {
      assert ls[n - 1] == ls[..n][n - 1] == ls'[..n][n - 1] == ls'[n - 1];
      assert ls[..n - 1] == ls[..n][..n - 1];
      assert ls'[..n - 1] == ls'[..n][..n - 1];
      LookBelow(db, ls, ls', n - 1, t);
    }
  }

  /** If one layer is replaced and the coin set it stands for does not change for `t`,
      no level from there on changes for `t`. */
  lemma {:induction false} FlatAbove(db: Db, ls: seq<Layer>, db': Db, ls': seq<Layer>, k: nat, n: nat, t: Txid)
    requires |ls'| == |ls| && k <= n <= |ls|
    requires forall i :: k <= i < |ls| ==> ls'[i] == ls[i]
    requires Flat(db', ls', k, t) == Flat(db, ls, k, t)
    ensures Flat(db', ls', n, t) == Flat(db, ls, n, t)
  {
    if n > k {
      FlatAbove(db, ls, db', ls', k, n - 1, t);
    }
  }

  /** Changing the layers below `k` (and the database) in a way that keeps the coin set of level `k`
      keeps the marks right from layer `k` on. */
  lemma OkAbove(db: Db, ls: seq<Layer>, db': Db, ls': seq<Layer>, k: nat)
    requires |ls'| == |ls| && k <= |ls|
    requires forall i :: k <= i < |ls| ==> ls'[i] == ls[i]
    requires forall t :: Flat(db', ls', k, t) == Flat(db, ls, k, t)
    requires forall n :: k <= n < |ls| ==> LayerOk(db, ls, n)
    ensures forall n :: k <= n < |ls| ==> LayerOk(db', ls', n)
    ensures forall n, t :: k <= n <= |ls| ==> Flat(db', ls', n, t) == Flat(db, ls, n, t)
  {
    forall n, t | k <= n <= |ls|
      ensures Flat(db', ls', n, t) == Flat(db, ls, n, t)
    {
      FlatAbove(db, ls, db', ls', k, n, t);
    }
    forall n | k <= n < |ls|
      ensures LayerOk(db', ls', n)
    {
      assert LayerOk(db, ls, n);
    }
  }

  /** Replacing layer `k` keeps the marks right below it. */
  lemma OkBelow(db: Db, ls: seq<Layer>, ls': seq<Layer>, k: nat)
    requires k <= |ls| && k <= |ls'|
    requires forall i :: 0 <= i < k ==> ls'[i] == ls[i]
    requires forall n :: 0 <= n < k ==> LayerOk(db, ls, n)
    ensures forall n :: 0 <= n < k ==> LayerOk(db, ls', n)
    ensures forall n, t :: 0 <= n <= k ==> Look(db, ls', n, t) == Look(db, ls, n, t)
  {
    forall n: nat, t | n <= k
      ensures Look(db, ls', n, t) == Look(db, ls, n, t)
    {
      assert ls[..n] == ls'[..n];
      LookBelow(db, ls, ls', n, t);
    }
    forall n | 0 <= n < k
      ensures LayerOk(db, ls', n)
    {
      assert LayerOk(db, ls, n);
    }
  }

  // ---------- flushing a layer into the one below ----------

  function Get(cache: map<Txid, Entry>, t: Txid): Option<Entry> {
    if t in cache then Some(cache[t]) else None
  }

  /** What becomes of a parent's entry when a child's entry for the same transaction is written to it. */
  function WriteOne(us: Option<Entry>, e: Entry): Option<Entry> {
    if !e.isDirty then us
    else if us.None? then
      if e.isFresh && e.coins.IsPruned() then None else Some(Entry(e.coins, true, e.isFresh))
    else if us.value.isFresh && e.coins.IsPruned() then None
    else Some(Entry(e.coins, true, us.value.isFresh))
  }

  /** `cache` is `parent` with the entries of `child` on `done` written to it. */
  ghost predicate Written(parent: map<Txid, Entry>, child: map<Txid, Entry>, done: set<Txid>, cache: map<Txid, Entry>) {
    && done <= child.Keys
    && forall t :: Get(cache, t) == if t in done then WriteOne(Get(parent, t), child[t]) else Get(parent, t)
  }

  /** `db'` is the database with the dirty entries of `child` on `done` written to it, spent ones erased. */
  ghost predicate Stored(db: Db, child: map<Txid, Entry>, done: set<Txid>, db': Db) {
    && done <= child.Keys
    && forall t ::
         Read(db', t) ==
         if t in done && child[t].isDirty then (if child[t].coins.IsPruned() then None else Some(child[t].coins))
         else Read(db, t)
  }

  /** The layers after layer `k` has been flushed into layer `k - 1`. */
  function Flushed(ls: seq<Layer>, k: nat, cache: map<Txid, Entry>): seq<Layer>
    requires 0 < k < |ls|
  {
    ls[k - 1 := ls[k - 1].(cache := cache)][k := ls[k].(cache := map[])]
  }

  /** What is written to a parent's entry: nothing that is not modified; otherwise the child's coins, marked as
      modified, unless they are all spent and not known below the parent. A mark that they are not known there is the
      parent's own, or the child's if the parent has no entry. */
  lemma WriteOneIs(us: Option<Entry>, e: Entry)
    ensures var w, unknown := WriteOne(us, e), if us.Some? then us.value.isFresh else e.isFresh;
      && (!e.isDirty ==> w == us)
      && (e.isDirty ==>
            (w == None <==> unknown && forall i :: 0 <= i < |e.coins.vout| ==> e.coins.vout[i].nValue == -1))
      && (e.isDirty && w.Some? ==> w.value == Entry(e.coins, true, unknown))
  { }

  /** One transaction: the parent now stands for what the child stood for, with right marks. */
  lemma WriteOneOk(us: Option<Entry>, e: Entry, below: Option<Coins>, level: Option<Coins>)
    requires us.Some? ==> EntryOk(us.value, below)
    requires level == if us.Some? then Norm(Some(us.value.coins)) else below
    requires EntryOk(e, level)
    ensures var w := WriteOne(us, e);
            && (w.Some? ==> EntryOk(w.value, below))
            && (if w.Some? then Norm(Some(w.value.coins)) else below) == Norm(Some(e.coins))
  { }

  lemma FlushLevel(db: Db, ls: seq<Layer>, k: nat, cache: map<Txid, Entry>, t: Txid)
    requires Ok(db, ls) && 0 < k < |ls| && ls[k - 1].modifier == None
    requires Written(ls[k - 1].cache, ls[k].cache, ls[k].cache.Keys, cache)
    ensures var ls' := Flushed(ls, k, cache);
            && Look(db, ls', k - 1, t) == Look(db, ls, k - 1, t)
            && Flat(db, ls', k, t) == Flat(db, ls, k + 1, t)
            && (t in cache ==> EntryOk(cache[t], Flat(db, ls', k - 1, t)))
  {
    var ls' := Flushed(ls, k, cache);
    assert ls'[..k - 1] == ls[..k - 1];
    LookBelow(db, ls, ls', k - 1, t);
    assert LayerOk(db, ls, k - 1) && LayerOk(db, ls, k);
    var us := Get(ls[k - 1].cache, t);
    assert Get(cache, t) == if t in ls[k].cache then WriteOne(us, ls[k].cache[t]) else us;
    assert Look(db, ls, k, t) == if us.Some? then Some(us.value.coins) else Look(db, ls, k - 1, t);
    assert Look(db, ls', k, t) == if t in cache then Some(cache[t].coins) else Look(db, ls', k - 1, t);
    if t in ls[k].cache {
      WriteOneOk(us, ls[k].cache[t], Flat(db, ls, k - 1, t), Flat(db, ls, k, t));
    }
  }

  /** Flushing into another cache: its coin set becomes the flushed one's, levels above see no change,
      and all marks stay right. */
  lemma FlushKeepsOk(db: Db, ls: seq<Layer>, k: nat, cache: map<Txid, Entry>)
    requires Ok(db, ls) && 0 < k < |ls| && ls[k - 1].modifier == None && ls[k].modifier == None
    requires Written(ls[k - 1].cache, ls[k].cache, ls[k].cache.Keys, cache)
    ensures var ls' := Flushed(ls, k, cache);
            && Ok(db, ls')
            && (forall n, t :: 0 <= n < k ==> Look(db, ls', n, t) == Look(db, ls, n, t))
            && (forall t :: Flat(db, ls', k, t) == Flat(db, ls, k + 1, t))
            && (forall n, t :: k < n <= |ls| ==> Flat(db, ls', n, t) == Flat(db, ls, n, t))
  {
    var ls' := Flushed(ls, k, cache);
    forall t
      ensures Look(db, ls', k - 1, t) == Look(db, ls, k - 1, t) && Flat(db, ls', k, t) == Flat(db, ls, k + 1, t)
      ensures t in cache ==> EntryOk(cache[t], Flat(db, ls', k - 1, t))
      ensures Flat(db, ls', k + 1, t) == Flat(db, ls, k + 1, t)
    {
      FlushLevel(db, ls, k, cache, t);
    }
    OkBelow(db, ls, ls', k - 1);
    assert LayerOk(db, ls', k - 1);
    assert LayerOk(db, ls', k);
    OkAbove(db, ls, db, ls', k + 1);
  }

  /** Flushing the lowest cache into the database. */
  lemma StoreKeepsOk(db: Db, ls: seq<Layer>, db': Db)
    requires Ok(db, ls) && |ls| > 0 && ls[0].modifier == None
    requires Stored(db, ls[0].cache, ls[0].cache.Keys, db')
    ensures var ls' := ls[0 := ls[0].(cache := map[])];
            && Ok(db', ls')
            && (forall t :: Flat(db', ls', 0, t) == Flat(db, ls, 1, t))
            && (forall n, t :: 0 < n <= |ls| ==> Flat(db', ls', n, t) == Flat(db, ls, n, t))
  {
    var ls' := ls[0 := ls[0].(cache := map[])];
    assert LayerOk(db, ls, 0);
    forall t
      ensures Flat(db', ls', 0, t) == Flat(db, ls, 1, t) && Flat(db', ls', 1, t) == Flat(db, ls, 1, t)
    {
      assert Look(db, ls, 0, t) == Read(db, t) && Look(db', ls', 0, t) == Read(db', t);
      assert Look(db, ls, 1, t) == if t in ls[0].cache then Some(ls[0].cache[t].coins) else Read(db, t);
      if t in ls[0].cache { assert EntryOk(ls[0].cache[t], Flat(db, ls, 0, t)); }
    }
    assert LayerOk(db', ls', 0);
    OkAbove(db, ls, db', ls', 1);
  }

  // ---------- changing entries of one layer ----------

  /** A cache with the entry for `t` set, or removed. */
  function Put(cache: map<Txid, Entry>, t: Txid, e: Option<Entry>): map<Txid, Entry> {
    if e.Some? then cache[t := e.value] else cache - {t}
  }

  lemma PutTwice(cache: map<Txid, Entry>, t: Txid, e: Option<Entry>, f: Option<Entry>)
    ensures Put(Put(cache, t, e), t, f) == Put(cache, t, f)
  {
    assert forall x :: x in Put(Put(cache, t, e), t, f) <==> x in Put(cache, t, f);
  }

  /** Layer `k` with the entry for `t` set, or removed. */
  function WithEntry(ls: seq<Layer>, k: nat, t: Txid, e: Option<Entry>): seq<Layer>
    requires k < |ls|
  {
    ls[k := ls[k].(cache := Put(ls[k].cache, t, e))]
  }

  lemma WithEntryReads(db: Db, ls: seq<Layer>, k: nat, t: Txid, e: Option<Entry>)
    requires Ok(db, ls) && k < |ls|
    ensures var ls' := WithEntry(ls, k, t, e);
            && (forall n :: 0 <= n < k ==> LayerOk(db, ls', n))
            && (forall n, x :: 0 <= n <= k ==> Look(db, ls', n, x) == Look(db, ls, n, x))
            && (forall n, x :: n == k + 1 && x != t ==> Look(db, ls', n, x) == Look(db, ls, n, x))
            && Look(db, ls', k + 1, t) == if e.Some? then Some(e.value.coins) else Look(db, ls, k, t)
  {
    OkBelow(db, ls, WithEntry(ls, k, t, e), k);
  }

  /** An entry that agrees with what is below may be added or taken away in any layer without any reader noticing. */
  lemma SilentChange(db: Db, ls: seq<Layer>, k: nat, t: Txid, e: Option<Entry>)
    requires Ok(db, ls) && k < |ls|
    requires e.Some? ==> EntryOk(e.value, Flat(db, ls, k, t))
    requires (if e.Some? then Norm(Some(e.value.coins)) else Flat(db, ls, k, t)) == Flat(db, ls, k + 1, t)
    requires ls[k].modifier == Some(t) ==> e.Some? && e.value.isDirty
    ensures var ls' := WithEntry(ls, k, t, e);
            Ok(db, ls') && forall n, x :: 0 <= n <= |ls| ==> Flat(db, ls', n, x) == Flat(db, ls, n, x)
  {
    var ls' := WithEntry(ls, k, t, e);
    WithEntryReads(db, ls, k, t, e);
    assert LayerOk(db, ls, k);
    assert LayerOk(db, ls', k);
    OkAbove(db, ls, db, ls', k + 1);
  }

  lemma {:induction false} LookAbove(db: Db, ls: seq<Layer>, ls': seq<Layer>, k: nat, n: nat, t: Txid)
    requires |ls'| == |ls| && k <= n <= |ls|
    requires forall i :: k <= i < |ls| ==> ls'[i].cache == ls[i].cache
    requires Look(db, ls', k, t) == Look(db, ls, k, t)
    ensures Look(db, ls', n, t) == Look(db, ls, n, t)
  {
    if n > k {
      LookAbove(db, ls, ls', k, n - 1, t);
    }
  }

  /** Filling a cache from below changes no read at any level. */
  lemma FillKeepsReads(db: Db, ls: seq<Layer>, k: nat, t: Txid)
    requires Ok(db, ls) && k < |ls| && t !in ls[k].cache && Look(db, ls, k, t).Some?
    ensures var c := Look(db, ls, k, t).value;
            var ls' := WithEntry(ls, k, t, Some(Entry(c, false, c.IsPruned())));
            Ok(db, ls') && forall n, x :: 0 <= n <= |ls| ==> Look(db, ls', n, x) == Look(db, ls, n, x)
  {
    var c := Look(db, ls, k, t).value;
    var e := Some(Entry(c, false, c.IsPruned()));
    var ls' := WithEntry(ls, k, t, e);
    assert LayerOk(db, ls, k);
    SilentChange(db, ls, k, t, e);
    WithEntryReads(db, ls, k, t, e);
    forall n, x | 0 <= n <= |ls|
      ensures Look(db, ls', n, x) == Look(db, ls, n, x)
    {
      if n > k {
        assert Look(db, ls', k + 1, x) == Look(db, ls, k + 1, x);
        LookAbove(db, ls, ls', k + 1, n, x);
      }
    }
  }

  /** Opening or closing a handle on the top layer. */
  lemma HandleKeepsOk(db: Db, ls: seq<Layer>, m: Option<Txid>)
    requires Ok(db, ls) && |ls| > 0
    requires m.Some? ==> m.value in ls[|ls| - 1].cache && ls[|ls| - 1].cache[m.value].isDirty
    ensures var ls' := ls[|ls| - 1 := ls[|ls| - 1].(modifier := m)];
            Ok(db, ls') && forall n, x :: 0 <= n <= |ls| ==> Look(db, ls', n, x) == Look(db, ls, n, x)
  {
    var top := |ls| - 1;
    var ls' := ls[top := ls[top].(modifier := m)];
    OkBelow(db, ls, ls', top);
    assert LayerOk(db, ls, top);
    assert LayerOk(db, ls', top);
    forall n, x | 0 <= n <= |ls|
      ensures Look(db, ls', n, x) == Look(db, ls, n, x)
    {
      if n > top { LookAbove(db, ls, ls', top, n, x); }
    }
  }

  // ---------- handles on new coins ----------

  /** There is an open handle on an entry of the top layer. */
  predicate Open(ls: seq<Layer>)
    requires |ls| > 0
  {
    ls[|ls| - 1].modifier.Some? && ls[|ls| - 1].modifier.value in ls[|ls| - 1].cache
  }

  function Handle(ls: seq<Layer>): Txid
    requires |ls| > 0 && Open(ls)
  { ls[|ls| - 1].modifier.value }

  function Held(ls: seq<Layer>): Entry
    requires |ls| > 0 && Open(ls)
  { ls[|ls| - 1].cache[Handle(ls)] }

  /** A handle opened on `t`, with its entry put in. */
  function Opened(ls: seq<Layer>, t: Txid, e: Entry): seq<Layer>
    requires |ls| > 0
  { ls[|ls| - 1 := Layer(Put(ls[|ls| - 1].cache, t, Some(e)), Some(t))] }

  /** A handle on `t` closed, with its entry put in or taken out. */
  function Closed(ls: seq<Layer>, t: Txid, e: Option<Entry>): seq<Layer>
    requires |ls| > 0
  { ls[|ls| - 1 := Layer(Put(ls[|ls| - 1].cache, t, e), None)] }

  /** The entry for coins that are to be new: marked as unknown below unless it is a coinbase's. */
  function NewEntry(was: map<Txid, Entry>, t: Txid, coinbase: bool): Entry {
    Entry(NO_COINS, true, !coinbase || (t in was && was[t].isFresh))
  }

  /** What closing a handle leaves of its entry. */
  function Closing(e: Entry): Option<Entry> {
    if e.isFresh && Cleaned(e.coins).IsPruned() then None else Some(e.(coins := Cleaned(e.coins)))
  }

  /** Closing a handle drops the entry exactly if it is not known below and all of its outputs are spent. */
  lemma ClosingIs(e: Entry)
    ensures Closing(e) == None <==> e.isFresh && forall i :: 0 <= i < |e.coins.vout| ==> e.coins.vout[i].nValue == -1
    ensures Closing(e).Some? ==> Closing(e).value == Entry(Cleaned(e.coins), e.isDirty, e.isFresh)
  {
    CleanedIsPruned(e.coins);
  }

  /** From `ls` to `ls'` the top coin set becomes `o` at `t`, and nothing else changes at any level. */
  ghost predicate TopIs(db: Db, ls: seq<Layer>, ls': seq<Layer>, t: Txid, o: Option<Coins>) {
    && |ls'| == |ls| > 0
    && (forall i :: 0 <= i < |ls| - 1 ==> ls'[i] == ls[i])
    && (forall n, x :: 0 <= n < |ls| ==> Flat(db, ls', n, x) == Flat(db, ls, n, x))
    && (forall x :: x != t ==> Flat(db, ls', |ls|, x) == Flat(db, ls, |ls|, x))
    && Flat(db, ls', |ls|, t) == o
  }

  /** Any entry put in the top layer, or taken out of it: what it does to the coin sets, and when the marks
      stay right. */
  lemma TopEntry(db: Db, ls: seq<Layer>, t: Txid, e: Option<Entry>, m: Option<Txid>)
    requires Ok(db, ls) && |ls| > 0
    ensures var now := Put(ls[|ls| - 1].cache, t, e);
            var ls' := ls[|ls| - 1 := Layer(now, m)];
            var below := Flat(db, ls, |ls| - 1, t);
            && TopIs(db, ls, ls', t, if e.Some? then Norm(Some(e.value.coins)) else below)
            && (Ok(db, ls') <==>
                (e.Some? ==> EntryOk(e.value, below)) && (m.Some? ==> m.value in now && now[m.value].isDirty))
  {
    var top, now := |ls| - 1, Put(ls[|ls| - 1].cache, t, e);
    var ls' := ls[top := Layer(now, m)];
    OkBelow(db, ls, ls', top);
    assert LayerOk(db, ls, top);
    TopLook(db, ls, ls', t, e);
    hide Look, EntryOk, Norm;
    assert Ok(db, ls') <==> LayerOk(db, ls', top);
    if e.Some? { assert t in now; }
  }

  lemma TopLook(db: Db, ls: seq<Layer>, ls': seq<Layer>, t: Txid, e: Option<Entry>)
    requires |ls'| == |ls| > 0 && ls'[|ls| - 1].cache == Put(ls[|ls| - 1].cache, t, e)
    requires forall n, x :: n == |ls| - 1 ==> Look(db, ls', n, x) == Look(db, ls, n, x)
    ensures forall x :: x != t ==> Look(db, ls', |ls|, x) == Look(db, ls, |ls|, x)
    ensures Look(db, ls', |ls|, t) == if e.Some? then Some(e.value.coins) else Look(db, ls, |ls| - 1, t)
  { }

  lemma OpenedOk(db: Db, ls: seq<Layer>, t: Txid, coinbase: bool)
    requires Ok(db, ls) && |ls| > 0
    ensures var ls' := Opened(ls, t, NewEntry(ls[|ls| - 1].cache, t, coinbase));
            TopIs(db, ls, ls', t, None) && (Ok(db, ls') <==> coinbase || Flat(db, ls, |ls| - 1, t) == None)
  {
    assert LayerOk(db, ls, |ls| - 1);
    TopEntry(db, ls, t, Some(NewEntry(ls[|ls| - 1].cache, t, coinbase)), Some(t));
  }

  lemma EditedOk(db: Db, ls: seq<Layer>, coins: Coins)
    requires Ok(db, ls) && |ls| > 0 && Open(ls)
    ensures var ls' := WithEntry(ls, |ls| - 1, Handle(ls), Some(Held(ls).(coins := coins)));
            Ok(db, ls') && TopIs(db, ls, ls', Handle(ls), Norm(Some(coins)))
  {
    assert LayerOk(db, ls, |ls| - 1);
    TopEntry(db, ls, Handle(ls), Some(Held(ls).(coins := coins)), Some(Handle(ls)));
  }

  /** Closing a handle on a stack with right marks keeps them, and the top coin set has what was written. */
  lemma ClosedOk(db: Db, ls: seq<Layer>, coins: Coins)
    requires Ok(db, ls) && |ls| > 0 && Open(ls)
    ensures var ls' := Closed(ls, Handle(ls), Closing(Held(ls).(coins := coins)));
            Ok(db, ls') && TopIs(db, ls, ls', Handle(ls), Norm(Some(Cleaned(coins))))
  {
    assert LayerOk(db, ls, |ls| - 1);
    TopEntry(db, ls, Handle(ls), Closing(Held(ls).(coins := coins)), None);
  }

  lemma ClosedAfterEdit(ls: seq<Layer>, coins: Coins)
    requires |ls| > 0 && Open(ls)
    ensures var e := Held(ls).(coins := coins);
            Closed(WithEntry(ls, |ls| - 1, Handle(ls), Some(e)), Handle(ls), Closing(e)) ==
              Closed(ls, Handle(ls), Closing(e))
  {
    PutTwice(ls[|ls| - 1].cache, Handle(ls), Some(Held(ls).(coins := coins)), Closing(Held(ls).(coins := coins)));
  }

  lemma OpenedHolds(ls: seq<Layer>, t: Txid, e: Entry, f: Option<Entry>)
    requires |ls| > 0
    ensures Open(Opened(ls, t, e)) && Handle(Opened(ls, t, e)) == t && Held(Opened(ls, t, e)) == e
    ensures Closed(Opened(ls, t, e), t, f) == Closed(ls, t, f)
  {
    PutTwice(ls[|ls| - 1].cache, t, Some(e), f);
  }

  /** Coins created as new and closed. */
  lemma CreatedIs(db: Db, ls: seq<Layer>, t: Txid, coinbase: bool, coins: Coins)
    requires Ok(db, ls) && |ls| > 0
    ensures var ls' := Closed(ls, t, Closing(NewEntry(ls[|ls| - 1].cache, t, coinbase).(coins := coins)));
            var below := Flat(db, ls, |ls| - 1, t);
            && (Ok(db, ls') <==> coinbase || coins.IsPruned() || below == None)
            && TopIs(db, ls, ls', t, if coinbase || !coins.IsPruned() then Norm(Some(Cleaned(coins))) else below)
            && (coins.IsPruned() <==> Norm(Some(Cleaned(coins))) == None)
  {
    assert LayerOk(db, ls, |ls| - 1);
    CleanedIsPruned(coins);
    TopEntry(db, ls, t, Closing(NewEntry(ls[|ls| - 1].cache, t, coinbase).(coins := coins)), None);
  }

  // ---------- trimming ----------

  /** Trimming drops spent outputs at the end only: which outputs are available does not change,
      and nothing is left exactly when everything was spent. */
  lemma {:induction false} TrimIs(vout: seq<TxOut>)
    ensures Trim(vout) <= vout
    ensures forall i :: |Trim(vout)| <= i < |vout| ==> vout[i].IsNull()
    ensures Trim(vout) != [] ==> !Trim(vout)[|Trim(vout)| - 1].IsNull()
    ensures Trim(vout) == [] <==> forall i :: 0 <= i < |vout| ==> vout[i].IsNull()
  {
    if vout != [] && vout[|vout| - 1].IsNull() {
      var rest := vout[..|vout| - 1];
      TrimIs(rest);
      assert forall i :: 0 <= i < |rest| ==> rest[i] == vout[i];
    }
  }

  lemma CleanedIsPruned(c: Coins)
    ensures Cleaned(c).IsPruned() <==> c.IsPruned()
    ensures c.IsPruned() ==> Cleaned(c).vout == []
  {
    TrimIs(c.vout);
    if !c.IsPruned() {
      var v := Trim(c.vout);
      assert !v[|v| - 1].IsNull();
    }
  }
}

/** The write-back transaction over a key-value store, and over another such transaction. */
module CacheStore {
  import opened Basics

  datatype Item = Item(value: Option<Bytes>, deleted: bool)
  datatype Action = Set(key: Bytes, value: Option<Bytes>) | Delete(key: Bytes)

  type Data = map<Bytes, Option<Bytes>>

  /** A plain store, or a transaction on a store: its cache of pending writes and their ordered log. */
  datatype Store = Base(data: Data) | Tx(parent: Store, cache: map<Bytes, Item>, log: seq<Action>)

  function Get(s: Store, k: Bytes): Option<Bytes> {
    match s
    case Base(data) => if k in data then data[k] else None
    case Tx(parent, cache, _) => if k in cache then cache[k].value else Get(parent, k)
  }

  predicate Has(s: Store, k: Bytes) {
    match s
    case Base(data) => k in data
    case Tx(parent, cache, _) => if k in cache then !cache[k].deleted else Has(parent, k)
  }

  function WriteData(data: Data, a: Action): Data {
    match a
    case Set(k, v) => data[k := v]
    case Delete(k) => data - {k}
  }

  function ItemOf(a: Action): Item {
    match a
    case Set(_, v) => Item(v, false)
    case Delete(_) => Item(None, true)
  }

  function Write(s: Store, a: Action): Store {
    match s
    case Base(data) => Base(WriteData(data, a))
    case Tx(parent, cache, log) => Tx(parent, cache[a.key := ItemOf(a)], log + [a])
  }

  function WriteAll(s: Store, log: seq<Action>): Store {
    if log == [] then s else Write(WriteAll(s, log[..|log| - 1]), log[|log| - 1])
  }

  function Begin(s: Store): Store { Tx(s, map[], []) }

  function Commit(s: Store): Store
    requires s.Tx?
  { Tx(WriteAll(s.parent, s.log), s.cache, s.log) }

  function Rollback(s: Store): Store
    requires s.Tx?
  { Begin(s.parent) }

  class CacheTx {
    var store: Store
    var cache: map<Bytes, Item>
    var tmpTxs: seq<Action>

    constructor (store: Store)
      ensures Value() == Begin(store)
    {
      this.store, cache, tmpTxs := store, map[], [];
    }

    function Value(): Store
      reads this
    { Tx(store, cache, tmpTxs) }

    method Put(key: Bytes, val: Option<Bytes>)
      modifies this
      ensures Value() == Write(old(Value()), Set(key, val))
    {
      tmpTxs := tmpTxs + [Set(key, val)];
      cache := cache[key := Item(val, false)];
    }

    method Remove(key: Bytes)
      modifies this
      ensures Value() == Write(old(Value()), Delete(key))
    {
      tmpTxs := tmpTxs + [Delete(key)];
      cache := cache[key := Item(None, true)];
    }

    method Contains(key: Bytes) returns (r: bool)
      ensures r == Has(Value(), key)
    {
      if key in cache { return !cache[key].deleted; }
      return Has(store, key);
    }

    method Read(key: Bytes) returns (r: Option<Bytes>)
      ensures r == Get(Value(), key)
    {
      if key in cache { return cache[key].value; }
      return Get(store, key);
    }

    /** Replays the log on the underlying store. */
    method Flush()
      modifies this
      ensures Value() == Commit(old(Value()))
    {
      for i := 0 to |tmpTxs|
        invariant cache == old(cache) && tmpTxs == old(tmpTxs)
        invariant store == WriteAll(old(store), tmpTxs[..i])
      {
        assert tmpTxs[..i + 1][..i] == tmpTxs[..i];
        match tmpTxs[i]
        case Set(k, v) => store := Write(store, Set(k, v));
        case Delete(k) => store := Write(store, Delete(k));
      }
      assert tmpTxs[..|tmpTxs|] == tmpTxs;
    }

    method Discard()
      modifies this
      ensures Value() == Rollback(old(Value()))
    {
      tmpTxs := [];
      cache := map[];
    }
  }

  // ---- the reference: plain data with the ordered log applied ----

  function Replay(data: Data, log: seq<Action>): Data {
    if log == [] then data else WriteData(Replay(data, log[..|log| - 1]), log[|log| - 1])
  }

  /** The contents a reader should see. */
  function View(s: Store): Data {
    match s
    case Base(data) => data
    case Tx(parent, _, log) => Replay(View(parent), log)
  }

  function CacheOf(log: seq<Action>): map<Bytes, Item> {
    if log == [] then map[] else CacheOf(log[..|log| - 1])[log[|log| - 1].key := ItemOf(log[|log| - 1])]
  }

  /** What every transaction keeps, at every level: the cache is the one its log produces. */
  predicate Consistent(s: Store) { s.Tx? ==> s.cache == CacheOf(s.log) && Consistent(s.parent) }

  /** Every operation keeps consistency, and a write changes the view by that write. */
  lemma WriteKeeps(s: Store, a: Action)
    requires Consistent(s)
    ensures Consistent(Write(s, a)) && View(Write(s, a)) == WriteData(View(s), a)
  {
    if s.Tx? { assert (s.log + [a])[..|s.log|] == s.log; }
  }

  /** Reading after one write, on a plain store or in a transaction of any depth: a set key is present with
      its value, a deleted key is absent, every other key is as before. */
  lemma ReadAfterWrite(s: Store, a: Action, k: Bytes)
    ensures k == a.key && a.Set? ==> Has(Write(s, a), k) && Get(Write(s, a), k) == a.value
    ensures k == a.key && a.Delete? ==> !Has(Write(s, a), k) && Get(Write(s, a), k) == None
    ensures k != a.key ==> Has(Write(s, a), k) == Has(s, k) && Get(Write(s, a), k) == Get(s, k)
  {
  }

  /** i is the last action of the log on key k. */
  ghost predicate LastOn(log: seq<Action>, k: Bytes, i: int) {
    0 <= i < |log| && log[i].key == k && forall j :: i < j < |log| ==> log[j].key != k
  }

  ghost predicate Untouched(log: seq<Action>, k: Bytes) { forall j :: 0 <= j < |log| ==> log[j].key != k }

  /** The key is as the action leaves it. */
  ghost predicate LeftBy(data: Data, a: Action) {
    match a
    case Set(k, v) => k in data && data[k] == v
    case Delete(k) => k !in data
  }

  predicate SameAt(a: Data, b: Data, k: Bytes) { (k in a <==> k in b) && (k in a ==> a[k] == b[k]) }

  /** A log leaves each key as its last action on it does, and the keys it does not name as they were. */
  lemma {:induction false} LastActionCounts(data: Data, log: seq<Action>, k: Bytes)
    ensures Untouched(log, k) ==> SameAt(Replay(data, log), data, k)
    ensures forall i :: LastOn(log, k, i) ==> LeftBy(Replay(data, log), log[i])
    decreases |log|
  {
    if log != [] {
      var init := log[..|log| - 1];
      LastActionCounts(data, init, k);
      forall i | LastOn(log, k, i) ensures LeftBy(Replay(data, log), log[i]) {
        if i < |init| { assert LastOn(init, k, i); }
      }
    }
  }

  /** Committing a transaction leaves each key of the underlying store as the last action on it says. */
  lemma CommitLeaves(s: Store, k: Bytes)
    requires s.Tx? && Consistent(s)
    ensures Untouched(s.log, k) ==> SameAt(View(Commit(s).parent), View(s.parent), k)
    ensures forall i :: LastOn(s.log, k, i) ==> LeftBy(View(Commit(s).parent), s.log[i])
  {
    WriteAllKeeps(s.parent, s.log);
    LastActionCounts(View(s.parent), s.log, k);
  }

  lemma {:induction false} WriteAllKeeps(s: Store, log: seq<Action>)
    requires Consistent(s)
    ensures Consistent(WriteAll(s, log)) && View(WriteAll(s, log)) == Replay(View(s), log)
    decreases |log|
  {
    if log != [] {
      WriteAllKeeps(s, log[..|log| - 1]);
      WriteKeeps(WriteAll(s, log[..|log| - 1]), log[|log| - 1]);
    }
  }

  /** What a log leaves at one key. */
  lemma {:induction false} ReplayAt(data: Data, log: seq<Action>, k: Bytes)
    ensures k in CacheOf(log) ==> (k in Replay(data, log) <==> !CacheOf(log)[k].deleted)
    ensures k in CacheOf(log) && k in Replay(data, log) ==> Replay(data, log)[k] == CacheOf(log)[k].value
    ensures k in CacheOf(log) && CacheOf(log)[k].deleted ==> CacheOf(log)[k].value == None
    ensures k !in CacheOf(log) ==> (k in Replay(data, log) <==> k in data)
    ensures k !in CacheOf(log) && k in data ==> Replay(data, log)[k] == data[k]
    decreases |log|
  {
    if log != [] { ReplayAt(data, log[..|log| - 1], k); }
  }

  /** Reads see the underlying data with the ordered log applied, through any number of levels. */
  lemma {:induction false} ReadsSeeView(s: Store, k: Bytes)
    requires Consistent(s)
    ensures Has(s, k) <==> k in View(s)
    ensures Get(s, k) == if k in View(s) then View(s)[k] else None
    decreases s
  {
    if s.Tx? {
      ReadsSeeView(s.parent, k);
      ReplayAt(View(s.parent), s.log, k);
    }
  }

  /** Replaying a log twice is replaying it once. */
  lemma ReplayTwice(data: Data, log: seq<Action>)
    ensures Replay(Replay(data, log), log) == Replay(data, log)
  {
    var once, twice := Replay(data, log), Replay(Replay(data, log), log);
    forall k: Bytes ensures (k in twice <==> k in once) && (k in once ==> twice[k] == once[k]) {
      ReplayAt(data, log, k);
      ReplayAt(once, log, k);
    }
    assert twice.Keys == once.Keys;
  }

  /** Commit gives the underlying store exactly the transaction's view and leaves that view as it was; a
      second commit changes nothing a reader can see, and on a plain store nothing at all. */
  lemma CommitPublishes(s: Store)
    requires s.Tx? && Consistent(s)
    ensures Consistent(Commit(s))
    ensures View(Commit(s).parent) == View(s) == View(Commit(s))
    ensures View(Commit(Commit(s)).parent) == View(Commit(s).parent)
    ensures s.parent.Base? ==> Commit(Commit(s)) == Commit(s)
    ensures forall k :: Get(Commit(s).parent, k) == Get(s, k) && Has(Commit(s).parent, k) == Has(s, k)
  {
    WriteAllKeeps(s.parent, s.log);
    ReplayTwice(View(s.parent), s.log);
    CommitPublishesTwice(s);
    forall k ensures Get(Commit(s).parent, k) == Get(s, k) && Has(Commit(s).parent, k) == Has(s, k) {
      ReadsSeeView(s, k);
      ReadsSeeView(Commit(s).parent, k);
    }
  }

  lemma CommitPublishesTwice(s: Store)
    requires s.Tx? && Consistent(s)
    ensures View(Commit(Commit(s)).parent) == View(Commit(s).parent)
    ensures s.parent.Base? ==> Commit(Commit(s)) == Commit(s)
  {
    WriteAllKeeps(s.parent, s.log);
    WriteAllKeeps(WriteAll(s.parent, s.log), s.log);
    ReplayTwice(View(s.parent), s.log);
    if s.parent.Base? {
      WriteAllBase(s.parent, s.log);
      WriteAllBase(WriteAll(s.parent, s.log), s.log);
    }
  }

  lemma {:induction false} WriteAllBase(s: Store, log: seq<Action>)
    requires s.Base?
    ensures WriteAll(s, log) == Base(Replay(s.data, log))
    decreases |log|
  {
    if log != [] { WriteAllBase(s, log[..|log| - 1]); }
  }

  /** Rollback shows the underlying store again: unchanged before a commit, with the writes after one. */
  lemma RollbackRestores(s: Store)
    requires s.Tx? && Consistent(s)
    ensures Consistent(Rollback(s)) && View(Rollback(s)) == View(s.parent)
    ensures View(Rollback(Commit(s))) == View(s)
  {
    CommitPublishes(s);
  }

  /** Nested transactions: committing the inner one and then the outer one leaves the plain store with
      both logs applied in order; rolling back the outer one leaves it untouched. */
  lemma NestedCommit(outer: Store, inner: Store)
    requires outer.Tx? && outer.parent.Base? && inner.Tx? && inner.parent == outer
    ensures Commit(inner).parent.Tx?
    ensures Commit(Commit(inner).parent).parent == Base(Replay(Replay(outer.parent.data, outer.log), inner.log))
    ensures Rollback(Commit(inner).parent) == Begin(outer.parent)
  {
    WriteAllTx(outer, inner.log);
    OuterCommit(outer.parent.data, WriteAll(outer, inner.log), outer.log, inner.log);
  }

  lemma OuterCommit(data: Data, s: Store, outer: seq<Action>, inner: seq<Action>)
    requires s.Tx? && s.parent == Base(data) && s.log == outer + inner
    ensures Commit(s).parent == Base(Replay(Replay(data, outer), inner))
  {
    WriteAllBase(Base(data), outer + inner);
    ReplayConcat(data, outer, inner);
  }

  lemma {:induction false} WriteAllTx(s: Store, log: seq<Action>)
    requires s.Tx?
    ensures WriteAll(s, log).Tx? && WriteAll(s, log).parent == s.parent && WriteAll(s, log).log == s.log + log
    decreases |log|
  {
    if log != [] {
      WriteAllTx(s, log[..|log| - 1]);
      assert s.log + log == (s.log + log[..|log| - 1]) + [log[|log| - 1]];
    }
  }

  lemma {:induction false} ReplayConcat(data: Data, a: seq<Action>, b: seq<Action>)
    ensures Replay(data, a + b) == Replay(Replay(data, a), b)
    decreases |b|
  {
    if b == [] {
      assert a + b == a;
    } else {
      ReplayConcat(data, a, b[..|b| - 1]);
      assert (a + b)[..|a + b| - 1] == a + b[..|b| - 1];
    }
  }
}

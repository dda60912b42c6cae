/** Transaction processing: the store transaction around a tx, the per-origin sequence number and the
    cache of expected numbers used while checking txs. */
module TxPipeline {
  import opened Basics
  import opened KeyOrder
  import opened CacheStore

  /** "nonce", then the separator that joins key parts, then the origin's address. */
  function NonceKey(origin: Bytes): Bytes { [110, 111, 110, 99, 101, 0] + origin }

  /** A decoded number: absent or empty data is 0, otherwise the first eight bytes. */
  function SequenceValue(data: Option<Bytes>): nat
    requires Raw(data) == [] || |Raw(data)| >= 8
  {
    if Raw(data) == [] then 0 else Decode(Raw(data)[..8])
  }

  function Succ64(n: nat): nat { (n + 1) % TWO_64 }

  /** A transaction as the pipeline sees it: its origin ([] when there is none), its sequence number,
      whether its envelope decodes, whether the call limiter lets it pass, and what its handler does:
      writes, or an error. */
  datatype Tx = Tx(origin: Bytes, sequence: nat, decodes: bool, limiterOk: bool, handler: Option<seq<Action>>)

  datatype App = App(store: Data, height: int, cache: map<Bytes, nat>, lastHeight: int)

  /** Handlers leave the sequence numbers alone. */
  ghost predicate HandlerOk(tx: Tx) {
    tx.handler.Some? ==> forall i, o :: 0 <= i < |tx.handler.value| ==> tx.handler.value[i].key != NonceKey(o)
  }

  /** The committed sequence numbers are eight bytes, or absent. */
  ghost predicate StoreOk(data: Data) {
    forall o :: NonceKey(o) in data ==> data[NonceKey(o)].Some? && |data[NonceKey(o)].value| == 8
  }

  ghost function Stored(data: Data, o: Bytes): (n: nat)
    requires StoreOk(data)
  {
    if NonceKey(o) in data then Decode(data[NonceKey(o)].value) else 0
  }

  /** The cache as this block sees it: emptied when the height has changed. */
  function BlockCache(a: App): map<Bytes, nat> { if a.lastHeight != a.height then map[] else a.cache }

  ghost function NonceWrite(a: App, o: Bytes): Action
    requires StoreOk(a.store)
  { Set(NonceKey(o), Some(Encode(Succ64(Stored(a.store, o)), 8))) }

  /** The number a tx of this origin must carry. */
  ghost function Expected(a: App, o: Bytes, isCheck: bool): nat
    requires StoreOk(a.store)
  {
    if isCheck && o in BlockCache(a) && BlockCache(a)[o] != 0 then BlockCache(a)[o]
    else Succ64(Stored(a.store, o))
  }

  ghost predicate Passes(a: App, tx: Tx, isCheck: bool)
    requires StoreOk(a.store)
  {
    && (isCheck ==> tx.limiterOk) && tx.origin != [] && tx.decodes
    && tx.sequence == Expected(a, tx.origin, isCheck) && tx.handler.Some?
  }

  /** Processing one tx: the new application state and whether the tx succeeded. */
  ghost function Process(a: App, tx: Tx, isCheck: bool): (App, bool)
    requires StoreOk(a.store)
  {
    if (isCheck && !tx.limiterOk) || tx.origin == [] then (a, false)
    else
      var b := a.(cache := BlockCache(a), lastHeight := a.height);
      if !tx.decodes then (b, false)
      else
        var e := Expected(a, tx.origin, isCheck);
        var c := b.(cache := b.cache[tx.origin := e]);
        if tx.sequence != e || tx.handler.None? then (c, false)
        else
          var d := c.(cache := c.cache[tx.origin := Succ64(e)]);
          (if isCheck then d
           else d.(store := Replay(a.store, [NonceWrite(a, tx.origin)] + tx.handler.value)), true)
  }

  class Application {
    var store: Data
    var height: int
    var nonceCache: map<Bytes, nat>
    var lastHeight: int

    constructor (a: App)
      ensures Value() == a
    {
      store, height, nonceCache, lastHeight := a.store, a.height, a.cache, a.lastHeight;
    }

    function Value(): App
      reads this
    { App(store, height, nonceCache, lastHeight) }

    /** The nonce middleware up to the call of the next handler: writes the next number into the tx's
        transaction and checks the tx against the expected number. */
    method Nonce(storeTx: CacheTx, tx: Tx, isCheck: bool) returns (ok: bool)
      requires StoreOk(store) && storeTx.Value() == Begin(Base(store)) && storeTx as object != this
      modifies this, storeTx
      ensures store == old(store) && height == old(height)
      ensures ok <==> tx.origin != [] && tx.decodes && tx.sequence == Expected(old(Value()), tx.origin, isCheck)
      ensures tx.origin == [] ==> Value() == old(Value())
      ensures tx.origin != [] ==> lastHeight == height
      ensures tx.origin != [] && !tx.decodes ==> nonceCache == BlockCache(old(Value()))
      ensures tx.origin != [] && tx.decodes ==>
        nonceCache == BlockCache(old(Value()))[tx.origin := Expected(old(Value()), tx.origin, isCheck)]
      ensures ok ==> storeTx.Value() == Write(Begin(Base(store)), NonceWrite(old(Value()), tx.origin))
    {
      if tx.origin == [] { return false; }
      if lastHeight != height {
        lastHeight := height;
        nonceCache := map[];
      }
      var data := storeTx.Read(NonceKey(tx.origin));
      assert data.Some? ==> data.value[..8] == data.value;
      var seq' := Succ64(SequenceValue(data));
      storeTx.Put(NonceKey(tx.origin), Some(Encode(seq', 8)));
      if !tx.decodes { return false; }
      var cacheSeq := if tx.origin in nonceCache then nonceCache[tx.origin] else 0;
      if cacheSeq != 0 && isCheck {
        seq' := cacheSeq;
      } else {
        nonceCache := nonceCache[tx.origin := seq'];
      }
      assert nonceCache == BlockCache(old(Value()))[tx.origin := seq'];
      return tx.sequence == seq';
    }

    /** Runs the handler's writes on the tx's transaction. */
    method RunHandler(storeTx: CacheTx, actions: seq<Action>)
      modifies storeTx
      ensures storeTx.Value() == WriteAll(old(storeTx.Value()), actions)
    {
      for i := 0 to |actions|
        invariant storeTx.Value() == WriteAll(old(storeTx.Value()), actions[..i])
      {
        assert actions[..i + 1][..i] == actions[..i];
        match actions[i]
        case Set(k, v) => storeTx.Put(k, v);
        case Delete(k) => storeTx.Remove(k);
      }
      assert actions[..|actions|] == actions;
    }

    /** Processes one tx in its own store transaction: committed when a delivered tx succeeds, rolled
        back when it fails, dropped after a check. */
    method ProcessTx(tx: Tx, isCheck: bool) returns (ok: bool)
      requires StoreOk(store)
      modifies this
      ensures (Value(), ok) == Process(old(Value()), tx, isCheck)
    {
      var storeTx := new CacheTx(Base(store));
      if isCheck && !tx.limiterOk {
        storeTx.Discard();
        return false;
      }
      ghost var before := Value();
      ok := Nonce(storeTx, tx, isCheck);
      if !ok || tx.handler.None? {
        storeTx.Discard();
        return false;
      }
      RunHandler(storeTx, tx.handler.value);
      nonceCache := nonceCache[tx.origin := Succ64(nonceCache[tx.origin])];
      if !isCheck {
        CommittedData(before.store, NonceWrite(before, tx.origin), tx.handler.value);
        storeTx.Flush();
        store := storeTx.store.data;
      }
    }
  }

  /** Writing in a fresh transaction and committing it replays the writes on the data. */
  lemma CommittedData(data: Data, first: Action, rest: seq<Action>)
    ensures var t := WriteAll(Write(Begin(Base(data)), first), rest);
      t.Tx? && Commit(t).parent == Base(Replay(data, [first] + rest))
  {
    WriteAllTx(Write(Begin(Base(data)), first), rest);
    assert [] + [first] == [first];
    WriteAllBase(Base(data), [first] + rest);
  }

  // ---- one delivered tx ----

  lemma {:induction false} ReplayElsewhere(data: Data, log: seq<Action>, k: Bytes)
    requires forall i :: 0 <= i < |log| ==> log[i].key != k
    ensures k in Replay(data, log) <==> k in data
    ensures k in data ==> Replay(data, log)[k] == data[k]
    decreases |log|
  {
    if log != [] { ReplayElsewhere(data, log[..|log| - 1], k); }
  }

  /** Where a delivered tx leaves the sequence number entries. */
  lemma DeliveredEntries(a: App, tx: Tx, o: Bytes)
    requires StoreOk(a.store) && HandlerOk(tx) && Passes(a, tx, false)
    ensures var s := Process(a, tx, false).0.store;
      if o == tx.origin then NonceKey(o) in s && s[NonceKey(o)] == NonceWrite(a, o).value
      else (NonceKey(o) in s <==> NonceKey(o) in a.store)
           && (NonceKey(o) in s ==> s[NonceKey(o)] == a.store[NonceKey(o)])
  {
    var first, rest := [NonceWrite(a, tx.origin)], tx.handler.value;
    ReplayConcat(a.store, first, rest);
    ReplayElsewhere(Replay(a.store, first), rest, NonceKey(o));
    assert first[..0] == [] && Replay(a.store, first) == a.store[NonceKey(tx.origin) := first[0].value];
    assert NonceKey(o)[6..] == o && NonceKey(tx.origin)[6..] == tx.origin;
  }

  /** A delivered tx succeeds exactly when it carries its origin's next number and its handler succeeds;
      then only that origin's number moves, to the one the tx carried. A failed delivery and any check
      leave the store as it was. */
  lemma DeliverOne(a: App, tx: Tx, isCheck: bool)
    requires StoreOk(a.store) && HandlerOk(tx)
    ensures var (b, ok) := Process(a, tx, isCheck);
      && (ok <==> Passes(a, tx, isCheck))
      && StoreOk(b.store)
      && (isCheck || !ok ==> b.store == a.store)
      && (!isCheck && ok ==> tx.sequence == Succ64(Stored(a.store, tx.origin)))
      && forall o :: Stored(b.store, o) == if !isCheck && ok && o == tx.origin then tx.sequence else Stored(a.store, o)
  {
    var (b, ok) := Process(a, tx, isCheck);
    if ok && !isCheck {
      forall o ensures NonceKey(o) in b.store ==> b.store[NonceKey(o)].Some? && |b.store[NonceKey(o)].value| == 8 {
        DeliveredEntries(a, tx, o);
      }
      forall o ensures Stored(b.store, o) == if o == tx.origin then tx.sequence else Stored(a.store, o) {
        DeliveredEntries(a, tx, o);
        if o == tx.origin {
          Widths();
          EncodeRoundTrip(tx.sequence, 8);
        }
      }
    }
  }

  ghost predicate NoNonceKey(k: Bytes) { forall o :: k != NonceKey(o) }

  /** A successful delivery publishes what its handler wrote: each key that is no sequence number is as the
      handler's last action on it leaves it, and unchanged if the handler does not name it. */
  lemma DeliveredWrites(a: App, tx: Tx, k: Bytes)
    requires StoreOk(a.store) && NoNonceKey(k) && Passes(a, tx, false)
    ensures var s := Process(a, tx, false).0.store;
      && (Untouched(tx.handler.value, k) ==> SameAt(s, a.store, k))
      && (forall i :: LastOn(tx.handler.value, k, i) ==> LeftBy(s, tx.handler.value[i]))
      && SameAt(s, Replay(a.store, tx.handler.value), k)
  {
    var first, rest := [NonceWrite(a, tx.origin)], tx.handler.value;
    ReplayConcat(a.store, first, rest);
    assert Untouched(first, k);
    LastActionCounts(a.store, first, k);
    LastActionCounts(Replay(a.store, first), rest, k);
    SameReplay(Replay(a.store, first), a.store, rest, k);
  }

  lemma {:induction false} SameReplay(data: Data, data': Data, log: seq<Action>, k: Bytes)
    requires SameAt(data, data', k)
    ensures SameAt(Replay(data, log), Replay(data', log), k)
    decreases |log|
  {
    if log != [] { SameReplay(data, data', log[..|log| - 1], k); }
  }

  // ---- whole runs ----

  datatype Event = Deliver(tx: Tx) | Check(tx: Tx) | NewBlock(height: int)

  ghost predicate EventOk(e: Event) { !e.NewBlock? ==> HandlerOk(e.tx) }

  ghost predicate EventsOk(es: seq<Event>) { forall i :: 0 <= i < |es| ==> EventOk(es[i]) }

  /** The state after a run and the txs that were delivered with success. */
  ghost function RunFrom(a: App, es: seq<Event>): (r: (App, seq<Tx>))
    requires StoreOk(a.store) && EventsOk(es)
    ensures StoreOk(r.0.store)
    decreases |es|
  {
    if es == [] then (a, [])
    else
      var (b, log) := RunFrom(a, es[..|es| - 1]);
      match es[|es| - 1]
      case NewBlock(h) => (b.(height := h), log)
      case Check(tx) => DeliverOne(b, tx, true); (Process(b, tx, true).0, log)
      case Deliver(tx) =>
        DeliverOne(b, tx, false);
        var (c, ok) := Process(b, tx, false);
        (c, if ok then log + [tx] else log)
  }

  /** The sequence numbers of one origin's txs, in order. */
  function Numbers(log: seq<Tx>, o: Bytes): seq<nat> {
    if log == [] then []
    else Numbers(log[..|log| - 1], o) + if log[|log| - 1].origin == o then [log[|log| - 1].sequence] else []
  }

  /** ns are the numbers after s0, modulo 2^64, and `stored` is the last of them. */
  ghost predicate Consecutive(s0: nat, ns: seq<nat>, stored: nat) {
    && (forall k :: 0 <= k < |ns| ==> ns[k] == (s0 + 1 + k) % TWO_64)
    && stored == if |ns| == 0 then s0 else ns[|ns| - 1]
  }

  lemma ConsecutiveExtends(s0: nat, ns: seq<nat>, stored: nat)
    requires Consecutive(s0, ns, stored)
    ensures Consecutive(s0, ns + [Succ64(stored)], Succ64(stored))
  {
    if |ns| > 0 { AddAfterMod(s0 + |ns|); }
  }

  lemma AddAfterMod(x: int)
    ensures (x % TWO_64 + 1) % TWO_64 == (x + 1) % TWO_64
  {
  }

  /** One more event either leaves an origin's numbers alone or appends the next one. */
  lemma RunStep(a: App, es: seq<Event>, o: Bytes)
    requires StoreOk(a.store) && EventsOk(es) && es != []
    ensures var (b, log) := RunFrom(a, es[..|es| - 1]);
      var (c, log') := RunFrom(a, es);
      || (Numbers(log', o) == Numbers(log, o) && Stored(c.store, o) == Stored(b.store, o))
      || (Numbers(log', o) == Numbers(log, o) + [Succ64(Stored(b.store, o))]
          && Stored(c.store, o) == Succ64(Stored(b.store, o)))
  {
    var (b, log) := RunFrom(a, es[..|es| - 1]);
    var e := es[|es| - 1];
    assert EventOk(e);
    if !e.NewBlock? {
      DeliverOne(b, e.tx, e.Check?);
      assert (log + [e.tx])[..|log|] == log;
    }
  }

  lemma {:induction false} ConsecutiveNumbers(a: App, es: seq<Event>, o: Bytes)
    requires StoreOk(a.store) && EventsOk(es)
    ensures Consecutive(Stored(a.store, o), Numbers(RunFrom(a, es).1, o), Stored(RunFrom(a, es).0.store, o))
    decreases |es|
  {
    if es != [] {
      var init := es[..|es| - 1];
      ConsecutiveNumbers(a, init, o);
      RunStep(a, es, o);
      ConsecutiveExtends(Stored(a.store, o), Numbers(RunFrom(a, init).1, o), Stored(RunFrom(a, init).0.store, o));
    }
  }

  lemma SameRemainder(x: int, d: int)
    ensures x % TWO_64 == (x + d) % TWO_64 <==> d % TWO_64 == 0
  {
  }

  lemma ConsecutiveDistinct(s0: nat, ns: seq<nat>, stored: nat, i: nat, j: nat)
    requires Consecutive(s0, ns, stored) && i < j < |ns|
    ensures ns[i] == ns[j] <==> (j - i) % TWO_64 == 0
  {
    SameRemainder(s0 + 1 + i, j - i);
  }

  /** Over every run, an origin's successful txs carry consecutive numbers starting after the stored one,
      the last of which is the committed number, and two of them share a number if and only if a multiple
      of 2^64 txs lies between them. */
  lemma NoReplay(a: App, es: seq<Event>, o: Bytes)
    requires StoreOk(a.store) && EventsOk(es)
    ensures var ns := Numbers(RunFrom(a, es).1, o);
      && Consecutive(Stored(a.store, o), ns, Stored(RunFrom(a, es).0.store, o))
      && (forall i, j :: 0 <= i < j < |ns| ==> (ns[i] == ns[j] <==> (j - i) % TWO_64 == 0))
  {
    ConsecutiveNumbers(a, es, o);
    var ns := Numbers(RunFrom(a, es).1, o);
    forall i, j | 0 <= i < j < |ns| ensures ns[i] == ns[j] <==> (j - i) % TWO_64 == 0 {
      ConsecutiveDistinct(Stored(a.store, o), ns, Stored(RunFrom(a, es).0.store, o), i, j);
    }
  }

  /** Everything the handlers of these txs write, in order. */
  function HandlerWrites(log: seq<Tx>): seq<Action> {
    if log == [] then []
    else
      var last := log[|log| - 1];
      HandlerWrites(log[..|log| - 1]) + if last.handler.Some? then last.handler.value else []
  }

  lemma {:induction false} RunReplays(a: App, es: seq<Event>, k: Bytes)
    requires StoreOk(a.store) && EventsOk(es) && NoNonceKey(k)
    ensures var (b, log) := RunFrom(a, es); SameAt(b.store, Replay(a.store, HandlerWrites(log)), k)
    decreases |es|
  {
    if es != [] {
      var init, e := es[..|es| - 1], es[|es| - 1];
      RunReplays(a, init, k);
      var (b, log) := RunFrom(a, init);
      assert EventOk(e);
      if !e.NewBlock? { DeliverOne(b, e.tx, e.Check?); }
      if e.Deliver? && Process(b, e.tx, false).1 { RunReplaysOne(a, b, log, e.tx, k); }
    }
  }

  lemma RunReplaysOne(a: App, b: App, log: seq<Tx>, tx: Tx, k: Bytes)
    requires StoreOk(b.store) && NoNonceKey(k) && Passes(b, tx, false)
    requires SameAt(b.store, Replay(a.store, HandlerWrites(log)), k)
    ensures SameAt(Process(b, tx, false).0.store, Replay(a.store, HandlerWrites(log + [tx])), k)
  {
    var ws := HandlerWrites(log);
    DeliveredWrites(b, tx, k);
    SameReplay(b.store, Replay(a.store, ws), tx.handler.value, k);
    assert (log + [tx])[..|log|] == log;
    ReplayConcat(a.store, ws, tx.handler.value);
  }

  /** Over every run the store holds what the successful deliveries wrote and nothing else: each key that is
      no sequence number is as the last action on it, among the handlers of all successfully delivered txs in
      order, leaves it, and as it was at the start if none names it. */
  lemma RunPublishes(a: App, es: seq<Event>, k: Bytes)
    requires StoreOk(a.store) && EventsOk(es) && NoNonceKey(k)
    ensures var (b, log) := RunFrom(a, es);
      var ws := HandlerWrites(log);
      && (Untouched(ws, k) ==> SameAt(b.store, a.store, k))
      && (forall i :: LastOn(ws, k, i) ==> LeftBy(b.store, ws[i]))
  {
    RunReplays(a, es, k);
    LastActionCounts(a.store, HandlerWrites(RunFrom(a, es).1), k);
  }

  // ---- checking txs ----

  /** The cached numbers are uint64 values. */
  ghost predicate CacheOk(a: App) { forall o :: o in a.cache ==> a.cache[o] < TWO_64 }

  /** The number expected after one more accepted check. The cached number after the largest uint64 is 0,
      which reads as no entry, so the number after the committed one is expected again. */
  function NextExpected(stored: nat, e: nat): nat { if e + 1 < TWO_64 then e + 1 else Succ64(stored) }

  /** The number expected after n accepted checks. */
  function Advance(stored: nat, e: nat, n: nat): nat {
    if n == 0 then e else NextExpected(stored, Advance(stored, e, n - 1))
  }

  /** Below 2^64 advancing is adding. */
  lemma {:induction false} AdvanceAdds(stored: nat, e: nat, n: nat)
    requires e + n < TWO_64
    ensures Advance(stored, e, n) == e + n
  {
    if n > 0 { AdvanceAdds(stored, e, n - 1); }
  }

  /** A check moves the number expected of its origin by one step when it succeeds and of nobody
      otherwise. */
  lemma CheckOne(a: App, tx: Tx, o: Bytes)
    requires StoreOk(a.store) && CacheOk(a) && HandlerOk(tx)
    ensures var (b, ok) := Process(a, tx, true);
      && b.store == a.store && b.height == a.height && CacheOk(b)
      && (ok <==> Passes(a, tx, true))
      && Expected(b, o, true) == if ok && o == tx.origin then NextExpected(Stored(a.store, o), Expected(a, o, true))
                                 else Expected(a, o, true)
  {
    DeliverOne(a, tx, true);
    assert Expected(a, tx.origin, true) < TWO_64;
  }

  /** The state after checking a sequence of txs, and which of them were accepted. */
  ghost function CheckAll(a: App, txs: seq<Tx>): (r: (App, seq<bool>))
    requires StoreOk(a.store)
    ensures r.0.store == a.store && |r.1| == |txs|
    decreases |txs|
  {
    if txs == [] then (a, [])
    else
      var (b, oks) := CheckAll(a, txs[..|txs| - 1]);
      var (c, ok) := Process(b, txs[|txs| - 1], true);
      (c, oks + [ok])
  }

  /** How many of the first n txs are accepted ones of origin o. */
  function AcceptedOf(txs: seq<Tx>, oks: seq<bool>, o: Bytes, n: nat): nat
    requires n <= |txs| && n <= |oks|
  {
    if n == 0 then 0 else AcceptedOf(txs, oks, o, n - 1) + if oks[n - 1] && txs[n - 1].origin == o then 1 else 0
  }

  lemma {:induction false} AcceptedPrefix(txs: seq<Tx>, oks: seq<bool>, txs': seq<Tx>, oks': seq<bool>,
      o: Bytes, n: nat)
    requires n <= |txs| && n <= |oks| && txs <= txs' && oks <= oks'
    ensures AcceptedOf(txs, oks, o, n) == AcceptedOf(txs', oks', o, n) <= n
  {
    if n > 0 { AcceptedPrefix(txs, oks, txs', oks', o, n - 1); }
  }

  /** At one height, with no delivery in between, the number expected of an origin has advanced from the
      first expected one by as many steps as txs of its were accepted. */
  lemma {:induction false} ExpectedAfterChecks(a: App, txs: seq<Tx>, o: Bytes)
    requires StoreOk(a.store) && CacheOk(a) && forall i :: 0 <= i < |txs| ==> HandlerOk(txs[i])
    ensures var (b, oks) := CheckAll(a, txs);
      && CacheOk(b)
      && Expected(b, o, true) == Advance(Stored(a.store, o), Expected(a, o, true), AcceptedOf(txs, oks, o, |txs|))
    decreases |txs|
  {
    if txs != [] {
      var init := txs[..|txs| - 1];
      ExpectedAfterChecks(a, init, o);
      var (b, oks) := CheckAll(a, init);
      var (c, all) := CheckAll(a, txs);
      AcceptedPrefix(init, oks, txs, all, o, |init|);
      CheckOne(b, txs[|txs| - 1], o);
    }
  }

  /** Checks accept exactly a consecutive run of numbers per origin: the next tx passes if and only if it
      is well formed, its handler succeeds and it carries the number the accepted ones lead to, which is the
      first expected number plus how many there were, as long as that is below 2^64. */
  lemma ChecksAcceptConsecutive(a: App, txs: seq<Tx>, tx: Tx)
    requires StoreOk(a.store) && CacheOk(a) && HandlerOk(tx) && forall i :: 0 <= i < |txs| ==> HandlerOk(txs[i])
    ensures var (b, oks) := CheckAll(a, txs);
      var first, n := Expected(a, tx.origin, true), AcceptedOf(txs, oks, tx.origin, |txs|);
      && b.store == a.store
      && (Process(b, tx, true).1 <==>
            && tx.limiterOk && tx.origin != [] && tx.decodes && tx.handler.Some?
            && tx.sequence == Advance(Stored(a.store, tx.origin), first, n))
      && (first + n < TWO_64 ==> Advance(Stored(a.store, tx.origin), first, n) == first + n)
  {
    ExpectedAfterChecks(a, txs, tx.origin);
    var (b, oks) := CheckAll(a, txs);
    var first, n := Expected(a, tx.origin, true), AcceptedOf(txs, oks, tx.origin, |txs|);
    CheckOne(b, tx, tx.origin);
    if first + n < TWO_64 { AdvanceAdds(Stored(a.store, tx.origin), first, n); }
  }

  /** In a new block, and after any delivery of the origin that reaches its sequence number, the first
      number a check expects is the one after the committed number. */
  lemma FirstExpected(a: App, tx: Tx)
    requires StoreOk(a.store) && HandlerOk(tx)
    ensures a.lastHeight != a.height ==> forall o :: Expected(a, o, true) == Succ64(Stored(a.store, o))
    ensures var b := Process(a, tx, false).0;
      tx.origin != [] && tx.decodes ==>
        StoreOk(b.store) && Expected(b, tx.origin, true) == Succ64(Stored(b.store, tx.origin))
  {
    DeliverOne(a, tx, false);
  }
}

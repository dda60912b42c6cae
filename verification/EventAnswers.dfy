/** What the event store's answers mean: which events a query returns, when the contract index agrees with
    the block index, and what a batch does to both. */
module EventAnswers {
  import opened Basics
  import opened EventStore

  // ---- what the answers mean ----

  /** A query returns the answer if and only if the range ends below the largest block number or nothing is
      filed from its start on. */
  lemma AnswersExactlyWhen(events: map<Coord, Event>, from: nat, to: nat, r: seq<Event>)
    requires from < TWO_64 && to < TWO_64 && (forall c :: c in events ==> CoordOk(c)) && Returns(events, from, to, r)
    ensures Answers(events, from, to, r) <==> to < TWO_64 - 1 || forall c :: c in events ==> c.0 < from
  {
    if to == TWO_64 - 1 {
      if Answers(events, from, to, r) {
        var cs: seq<Coord> :| AnswersAt(events, from, to, r, cs);
        assert |cs| == |r| == 0;
        forall c | c in events ensures c.0 < from { assert c !in cs; }
      }
      if forall c :: c in events ==> c.0 < from {
        assert AnswersAt(events, from, to, r, []);
      }
    }
  }

  lemma {:induction false} AscendingUnique(a: seq<Coord>, b: seq<Coord>)
    requires AscendingCoords(a) && AscendingCoords(b) && forall c :: c in a <==> c in b
    ensures a == b
    decreases |a|
  {
    assert b != [] ==> b[0] in a;
    if a != [] {
      assert a[0] in b;
      assert b[0] in a;
      assert a[0] == b[0];
      forall c ensures c in a[1..] <==> c in b[1..] {
        assert c in a[1..] <==> c in a && c != a[0] by { assert a == [a[0]] + a[1..]; }
        assert c in b[1..] <==> c in b && c != b[0] by { assert b == [b[0]] + b[1..]; }
      }
      AscendingUnique(a[1..], b[1..]);
      assert a == [a[0]] + a[1..] && b == [b[0]] + b[1..];
    }
  }

  function OnlyOf(r: seq<Event>, name: Bytes): seq<Event> {
    if r == [] then [] else OnlyOf(r[..|r| - 1], name) + if Name(r[|r| - 1]) == name then [r[|r| - 1]] else []
  }

  ghost function CoordsOf(events: map<Coord, Event>, cs: seq<Coord>, name: Bytes): (r: seq<Coord>)
    requires Known(events, cs)
    ensures Known(events, r)
    ensures forall c :: c in r <==> c in cs && c in events && Name(events[c]) == name
  {
    if cs == [] then []
    else
      var last := cs[|cs| - 1];
      CoordsOf(events, cs[..|cs| - 1], name) + if Name(events[last]) == name then [last] else []
  }

  lemma {:induction false} CoordsOfAscend(events: map<Coord, Event>, cs: seq<Coord>, name: Bytes)
    requires AscendingCoords(cs) && Known(events, cs)
    ensures AscendingCoords(CoordsOf(events, cs, name))
    decreases |cs|
  {
    if cs != [] {
      var init, last := cs[..|cs| - 1], cs[|cs| - 1];
      CoordsOfAscend(events, init, name);
      var r := CoordsOf(events, init, name);
      forall j | 0 <= j < |r| ensures CoordLess(r[j], last) {
        assert r[j] in init;
      }
    }
  }

  lemma EventsAtSnoc(events: map<Coord, Event>, cs: seq<Coord>, c: Coord)
    requires Known(events, cs) && c in events
    ensures Known(events, cs + [c]) && EventsAt(events, cs + [c]) == EventsAt(events, cs) + [events[c]]
  {
  }

  lemma OnlyOfSnoc(r: seq<Event>, e: Event, name: Bytes)
    ensures OnlyOf(r + [e], name) == OnlyOf(r, name) + if Name(e) == name then [e] else []
  {
    assert (r + [e])[..|r|] == r;
  }

  lemma {:induction false} CoordsOfEvents(events: map<Coord, Event>, cs: seq<Coord>, name: Bytes)
    requires Known(events, cs)
    ensures EventsAt(events, CoordsOf(events, cs, name)) == OnlyOf(EventsAt(events, cs), name)
    decreases |cs|
  {
    if cs != [] {
      var init, last := cs[..|cs| - 1], cs[|cs| - 1];
      CoordsOfEvents(events, init, name);
      assert cs == init + [last];
      EventsAtSnoc(events, init, last);
      OnlyOfSnoc(EventsAt(events, init), events[last], name);
      var kept := CoordsOf(events, init, name);
      if Name(events[last]) == name {
        assert CoordsOf(events, cs, name) == kept + [last];
        EventsAtSnoc(events, kept, last);
      } else {
        assert CoordsOf(events, cs, name) == kept;
      }
    }
  }

  /** The contract index files exactly the events of the block index, each under its own contract. */
  ghost predicate AgreesAt(m: Model, id: nat, c: Coord) {
    && ((id, c) in m.contracts <==>
          c in m.blocks && Name(m.blocks[c]) in m.ids && m.ids[Name(m.blocks[c])] == id)
    && ((id, c) in m.contracts ==> c in m.blocks && m.contracts[(id, c)] == m.blocks[c])
  }

  ghost predicate AgreeAt(m: Model, c: Coord) {
    && (c in m.blocks ==> Name(m.blocks[c]) in m.ids)
    && forall id: nat :: AgreesAt(m, id, c)
  }

  ghost predicate Agree(m: Model) { forall c :: AgreeAt(m, c) }

  /** The indexes agree on the heights in [from, to]. */
  ghost predicate AgreeBetween(m: Model, from: nat, to: nat) {
    forall c: Coord :: from <= c.0 <= to ==> AgreeAt(m, c)
  }

  /** Where the indexes agree, a contract query returns exactly the contract's part of the block query, in
      the same order. */
  lemma ContractIsSubsequence(m: Model, from: nat, to: nat, name: Bytes, all: seq<Event>, some: seq<Event>)
    requires ModelOk(m) && AgreeBetween(m, from, to) && name in m.ids
    requires Answers(m.blocks, from, to, all) && Answers(Of(m, m.ids[name]), from, to, some)
    ensures some == OnlyOf(all, name)
  {
    var own := Of(m, m.ids[name]);
    var cs: seq<Coord> :| AnswersAt(m.blocks, from, to, all, cs);
    var ds: seq<Coord> :| AnswersAt(own, from, to, some, ds);
    forall c: Coord | from <= c.0 <= to
      ensures c in own <==> c in m.blocks && Name(m.blocks[c]) == name
      ensures c in own ==> own[c] == m.blocks[c]
    {
      OwnEvents(m, name, c);
    }
    CoordsOfAscend(m.blocks, cs, name);
    CoordsOfEvents(m.blocks, cs, name);
    AscendingUnique(CoordsOf(m.blocks, cs, name), ds);
    assert EventsAt(own, ds) == EventsAt(m.blocks, ds);
  }

  lemma OwnEvents(m: Model, name: Bytes, c: Coord)
    requires ModelOk(m) && name in m.ids && AgreeAt(m, c)
    ensures (m.ids[name], c) in m.contracts <==> c in m.blocks && Name(m.blocks[c]) == name
    ensures (m.ids[name], c) in m.contracts ==> m.contracts[(m.ids[name], c)] == m.blocks[c]
  {
    assert AgreesAt(m, m.ids[name], c);
  }

  /** Saving an event keeps the indexes in agreement if and only if it is saved under its contract's ID and
      its coordinate is free or held by an event of the same contract. */
  lemma PutKeepsAgreement(m: Model, id: nat, c: Coord, e: Event)
    requires ModelOk(m) && Agree(m)
    ensures Agree(Put(m, id, c, e)) <==>
              && Name(e) in m.ids && m.ids[Name(e)] == id
              && (c !in m.blocks || Name(m.blocks[c]) == Name(e))
  {
    var w := Put(m, id, c, e);
    assert AgreeAt(m, c);
    if Name(e) !in m.ids || m.ids[Name(e)] != id {
      assert !AgreeAt(w, c) by { assert Name(e) in m.ids ==> !AgreesAt(w, id, c); }
    } else if c in m.blocks && Name(m.blocks[c]) != Name(e) {
      var other := m.ids[Name(m.blocks[c])];
      assert AgreesAt(m, other, c);
      assert !AgreeAt(w, c) by { assert !AgreesAt(w, other, c); }
    } else {
      forall c' ensures AgreeAt(w, c') { PutAgreesAt(m, c, e, c'); }
    }
  }

  lemma PutAgreesAt(m: Model, c: Coord, e: Event, c': Coord)
    requires ModelOk(m) && AgreeAt(m, c') && Name(e) in m.ids
    requires c !in m.blocks || Name(m.blocks[c]) == Name(e)
    ensures AgreeAt(Put(m, m.ids[Name(e)], c, e), c')
  {
    var w := Put(m, m.ids[Name(e)], c, e);
    forall id: nat ensures AgreesAt(w, id, c') { assert AgreesAt(m, id, c'); }
  }

  lemma WithIdKeepsAgreement(m: Model, name: Bytes)
    requires ModelOk(m) && Agree(m)
    ensures Agree(WithId(m, name))
  {
    var w := WithId(m, name);
    forall c ensures AgreeAt(w, c) {
      assert AgreeAt(m, c);
      forall id: nat ensures AgreesAt(w, id, c) { assert AgreesAt(m, id, c); }
    }
  }

  /** Giving IDs to a batch's names keeps the indexes in agreement. */
  lemma {:induction false} WithIdsKeepAgreement(m: Model, es: seq<Event>, n: nat)
    requires n <= |es| && ModelOk(m) && Agree(m) && m.last + n < TWO_64
    ensures Agree(WithIds(m, es, n))
  {
    if n > 0 {
      WithIdsKeepAgreement(m, es, n - 1);
      IdsOk(m, es, n - 1);
      WithIdKeepsAgreement(WithIds(m, es, n - 1), Name(es[n - 1]));
    }
  }

  // ---- what a batch leaves ----

  /** j is the last of the first n events that goes to coordinate c. */
  ghost predicate IsLast(es: seq<Event>, n: nat, c: Coord, j: nat) {
    && j < n <= |es| && BatchCoord(es, j) == c
    && forall k :: j < k < n ==> BatchCoord(es, k) != c
  }

  lemma LastAt(es: seq<Event>, n: nat, c: Coord, i: nat) returns (j: nat)
    requires i < n <= |es| && BatchCoord(es, i) == c
    ensures IsLast(es, n, c, j)
    decreases n - i
  {
    if k :| i < k < n && BatchCoord(es, k) == c {
      j := LastAt(es, n, c, k);
    } else {
      j := i;
    }
  }

  ghost predicate Hits(es: seq<Event>, n: nat, c: Coord)
    requires n <= |es|
  { exists i :: 0 <= i < n && c == BatchCoord(es, i) }

  /** A batch changes exactly the coordinates of its events. */
  lemma {:induction false} BatchIsAdded(m: Model, es: seq<Event>, n: nat, c: Coord)
    requires n <= |es| && Named(m, es)
    ensures var w := SaveAll(m, es, n);
      && (c in w.blocks <==> c in m.blocks || Hits(es, n, c))
      && (!Hits(es, n, c) && c in m.blocks ==> w.blocks[c] == m.blocks[c])
  {
    if n > 0 {
      BatchIsAdded(m, es, n - 1, c);
      if i :| 0 <= i < n && c == BatchCoord(es, i) { assert i < n - 1 ==> Hits(es, n - 1, c); }
    }
  }

  /** At each coordinate the last event of the batch wins. */
  lemma {:induction false} LastEventWins(m: Model, es: seq<Event>, n: nat, c: Coord, j: nat)
    requires n <= |es| && Named(m, es) && IsLast(es, n, c, j)
    ensures c in SaveAll(m, es, n).blocks && SaveAll(m, es, n).blocks[c] == es[j]
  {
    if j < n - 1 { LastEventWins(m, es, n - 1, c, j); }
  }

  /** The first n events go to coordinates that are free. */
  ghost predicate FreeFor(m: Model, es: seq<Event>, n: nat)
    requires n <= |es|
  { forall i :: 0 <= i < n ==> BatchCoord(es, i) !in m.blocks }

  ghost predicate NoCollision(es: seq<Event>, n: nat) {
    forall i, j :: 0 <= i < j < n ==> !Collide(es, i, j)
  }

  lemma NoCollisionNext(es: seq<Event>, n: nat)
    requires 0 < n <= |es|
    ensures NoCollision(es, n) <==> NoCollision(es, n - 1) && !Hits(es, n - 1, BatchCoord(es, n - 1))
  {
    if i :| 0 <= i < n - 1 && BatchCoord(es, n - 1) == BatchCoord(es, i) { assert Collide(es, i, n - 1); }
    if !NoCollision(es, n) {
      var i, j :| 0 <= i < j < n && Collide(es, i, j);
      assert j == n - 1 ==> Hits(es, n - 1, BatchCoord(es, n - 1));
    }
  }

  /** How many of the first n events hit no coordinate of an earlier one. */
  ghost function Distinct(es: seq<Event>, n: nat): nat
    requires n <= |es|
  {
    if n == 0 then 0 else Distinct(es, n - 1) + if Hits(es, n - 1, BatchCoord(es, n - 1)) then 0 else 1
  }

  lemma {:induction false} DistinctExactlyWhen(es: seq<Event>, n: nat)
    requires n <= |es|
    ensures Distinct(es, n) <= n && (Distinct(es, n) == n <==> NoCollision(es, n))
  {
    if n > 0 {
      DistinctExactlyWhen(es, n - 1);
      NoCollisionNext(es, n);
    }
  }

  /** The next event of a batch takes up a coordinate of its own unless it hits an earlier one's. */
  lemma CountGrows(m: Model, es: seq<Event>, n: nat)
    requires n < |es| && Named(m, es) && BatchCoord(es, n) !in m.blocks
    ensures |SaveAll(m, es, n + 1).blocks| ==
              |SaveAll(m, es, n).blocks| + if Hits(es, n, BatchCoord(es, n)) then 0 else 1
  {
    var before, c := SaveAll(m, es, n).blocks, BatchCoord(es, n);
    BatchIsAdded(m, es, n, c);
    assert SaveAll(m, es, n + 1).blocks == before[c := es[n]];
    CountAfterUpdate(before, c, es[n]);
  }

  lemma {:induction false} BatchCount(m: Model, es: seq<Event>, n: nat)
    requires n <= |es| && Named(m, es) && FreeFor(m, es, n)
    ensures |SaveAll(m, es, n).blocks| == |m.blocks| + Distinct(es, n)
  {
    if n > 0 {
      var j := n - 1;
      assert |SaveAll(m, es, j).blocks| == |m.blocks| + Distinct(es, j) by { BatchCount(m, es, j); }
      CountGrows(m, es, j);
      assert Distinct(es, n) == Distinct(es, j) + if Hits(es, j, BatchCoord(es, j)) then 0 else 1;
    }
  }

  /** A batch at free coordinates adds as many events to the block index as it has, that is, none is lost,
      if and only if no two of them collide. */
  lemma NothingLostExactlyWhen(m: Model, es: seq<Event>, n: nat)
    requires n <= |es| && Named(m, es) && FreeFor(m, es, n)
    ensures |SaveAll(m, es, n).blocks| <= |m.blocks| + n
    ensures |SaveAll(m, es, n).blocks| == |m.blocks| + n <==> NoCollision(es, n)
  {
    BatchCount(m, es, n);
    DistinctExactlyWhen(es, n);
  }

  lemma CountAfterUpdate(events: map<Coord, Event>, c: Coord, e: Event)
    ensures |events[c := e]| == |events| + if c in events then 0 else 1
  {
    assert events[c := e].Keys == events.Keys + {c};
    if c in events { assert events.Keys + {c} == events.Keys; }
  }

  ghost function Within(events: map<Coord, Event>, from: nat, to: nat): set<Coord> {
    set c | c in events.Keys && from <= c.0 <= to
  }

  lemma {:induction false} AscendingCount(cs: seq<Coord>, C: set<Coord>)
    requires AscendingCoords(cs) && forall c :: c in cs <==> c in C
    ensures |cs| == |C|
    decreases |cs|
  {
    if cs == [] {
      assert forall c :: c !in C;
      assert C == {};
    } else {
      assert cs[0] in C;
      forall c ensures c in cs[1..] <==> c in C - {cs[0]} {
        assert cs == [cs[0]] + cs[1..];
      }
      AscendingCount(cs[1..], C - {cs[0]});
    }
  }

  lemma AnswerCount(events: map<Coord, Event>, from: nat, to: nat, r: seq<Event>)
    requires Answers(events, from, to, r)
    ensures |r| == |Within(events, from, to)|
  {
    var cs: seq<Coord> :| AnswersAt(events, from, to, r, cs);
    AscendingCount(cs, Within(events, from, to));
  }

  /** A batch of blocks in the range leaves the coordinates outside it alone. */
  lemma OutsideStays(m: Model, es: seq<Event>, from: nat, to: nat)
    requires Named(m, es) && forall i :: 0 <= i < |es| ==> from <= es[i].height <= to
    ensures var w := SaveAll(m, es, |es|).blocks;
      w.Keys - Within(w, from, to) == m.blocks.Keys - Within(m.blocks, from, to)
  {
    forall c ensures c in SaveAll(m, es, |es|).blocks <==> c in m.blocks || Hits(es, |es|, c) {
      BatchIsAdded(m, es, |es|, c);
    }
  }

  lemma WithinCount(events: map<Coord, Event>, from: nat, to: nat)
    ensures |events| == |Within(events, from, to)| + |events.Keys - Within(events, from, to)|
  {
    var inside := Within(events, from, to);
    assert events.Keys == inside + (events.Keys - inside);
  }

  /** After a batch at free coordinates a query over its blocks returns every one of its events besides the
      earlier ones if and only if no two of them collide. */
  lemma AllReturnedExactlyWhen(
      m: Model, es: seq<Event>, from: nat, to: nat, before: seq<Event>, after: seq<Event>)
    requires Named(m, es) && FreeFor(m, es, |es|) && forall i :: 0 <= i < |es| ==> from <= es[i].height <= to
    requires Answers(m.blocks, from, to, before) && Answers(SaveAll(m, es, |es|).blocks, from, to, after)
    ensures |after| == |before| + |es| <==> NoCollision(es, |es|)
    ensures NoCollision(es, |es|) ==> forall i :: 0 <= i < |es| ==> es[i] in after
  {
    var w := SaveAll(m, es, |es|).blocks;
    AnswerCount(m.blocks, from, to, before);
    AnswerCount(w, from, to, after);
    OutsideStays(m, es, from, to);
    WithinCount(m.blocks, from, to);
    WithinCount(w, from, to);
    NothingLostExactlyWhen(m, es, |es|);
    if NoCollision(es, |es|) {
      forall i | 0 <= i < |es| ensures es[i] in after { StoredIsReturned(m, es, from, to, after, i); }
    }
  }

  lemma StoredIsReturned(m: Model, es: seq<Event>, from: nat, to: nat, after: seq<Event>, i: nat)
    requires i < |es| && Named(m, es) && NoCollision(es, |es|) && from <= es[i].height <= to
    requires Answers(SaveAll(m, es, |es|).blocks, from, to, after)
    ensures es[i] in after
  {
    var w, c := SaveAll(m, es, |es|).blocks, BatchCoord(es, i);
    var cs: seq<Coord> :| AnswersAt(w, from, to, after, cs);
    forall k | i < k < |es| ensures BatchCoord(es, k) != c { assert !Collide(es, i, k); }
    LastEventWins(m, es, |es|, c, i);
    var j :| 0 <= j < |cs| && cs[j] == c;
    assert after[j] == es[i];
  }

  /** The coordinates of a batch of one block, in order. */
  function BlockCoords(h: nat, n: nat): seq<Coord> { seq(n, i requires 0 <= i < n => (h, i)) }

  lemma {:induction false} BlockBatchCoords(m: Model, es: seq<Event>, h: nat, c: Coord)
    requires Named(m, es) && |es| <= TWO_16 && c.0 == h && c !in m.blocks
    requires forall i :: 0 <= i < |es| ==> es[i].height == h
    ensures c in SaveAll(m, es, |es|).blocks <==> c in BlockCoords(h, |es|)
    ensures c in SaveAll(m, es, |es|).blocks ==> c.1 < |es| && SaveAll(m, es, |es|).blocks[c] == es[c.1]
  {
    BatchIsAdded(m, es, |es|, c);
    if c in BlockCoords(h, |es|) {
      assert BatchCoord(es, c.1) == c;
    }
    if i :| 0 <= i < |es| && c == BatchCoord(es, i) {
      assert BlockCoords(h, |es|)[i] == c;
      forall k | i < k < |es| ensures BatchCoord(es, k) != c { CollideExactlyWhen(es, i, k); }
      LastEventWins(m, es, |es|, c, i);
    }
  }

  /** A batch of at most 65536 events of a block that has none yet comes back from the query of that block
      as it was saved, in its own order. */
  lemma {:induction false} BatchRoundTrip(m: Model, es: seq<Event>, h: nat, r: seq<Event>)
    requires Named(m, es) && |es| <= TWO_16 && (forall i :: 0 <= i < |es| ==> es[i].height == h)
    requires (forall c :: c in m.blocks ==> c.0 != h) && Answers(SaveAll(m, es, |es|).blocks, h, h, r)
    ensures r == es
  {
    var w, all := SaveAll(m, es, |es|).blocks, BlockCoords(h, |es|);
    var cs: seq<Coord> :| AnswersAt(w, h, h, r, cs);
    forall c ensures c in cs <==> c in all {
      if c.0 == h {
        BlockBatchCoords(m, es, h, c);
      }
    }
    AscendingUnique(cs, all);
    forall i | 0 <= i < |es| ensures r[i] == es[i] { BlockBatchCoords(m, es, h, (h, i)); }
  }

  /** The contract index never forgets: every event's entry is there, holding the last event of that
      contract at that coordinate. */
  lemma {:induction false} BatchContracts(m: Model, es: seq<Event>, n: nat, j: nat)
    requires j < n <= |es| && Named(m, es) && ModelOk(m)
    ensures var w, k := SaveAll(m, es, n), (m.ids[Name(es[j])], BatchCoord(es, j));
      && k in w.contracts
      && ((forall i :: j < i < n ==> BatchCoord(es, i) != BatchCoord(es, j) || Name(es[i]) != Name(es[j])) ==>
            w.contracts[k] == es[j])
  {
    if j < n - 1 { BatchContracts(m, es, n - 1, j); }
  }

  /** Events of the batch that collide are of the same contract. */
  ghost predicate CollideWithinContract(es: seq<Event>, n: nat)
    requires n <= |es|
  {
    forall i, j :: 0 <= i < j < n && Collide(es, i, j) ==> Name(es[i]) == Name(es[j])
  }

  lemma {:induction false} BatchCoordsOk(m: Model, es: seq<Event>, n: nat)
    requires n <= |es| && Named(m, es) && HeightsOk(es) && CoordsOk(m)
    requires forall i :: 0 <= i < |es| ==> m.ids[Name(es[i])] < TWO_64
    ensures CoordsOk(SaveAll(m, es, n))
  {
    if n > 0 {
      BatchCoordsOk(m, es, n - 1);
      assert CoordOk(BatchCoord(es, n - 1));
    }
  }

  lemma SaveAllOk(m: Model, es: seq<Event>, n: nat)
    requires n <= |es| && Named(m, es) && ModelOk(m) && HeightsOk(es)
    ensures ModelOk(SaveAll(m, es, n))
  {
    BatchCoordsOk(m, es, n);
  }

  /** Two contracts at one coordinate: the block index can hold only one of them, the contract index holds
      both. */
  lemma CollisionDisagrees(m: Model, es: seq<Event>, n: nat, i: nat, j: nat)
    requires i < j < n <= |es| && Named(m, es) && ModelOk(m) && Collide(es, i, j) && Name(es[i]) != Name(es[j])
    ensures !Agree(SaveAll(m, es, n))
  {
    var w, c := SaveAll(m, es, n), BatchCoord(es, i);
    BatchContracts(m, es, n, i);
    BatchContracts(m, es, n, j);
    assert !(AgreesAt(w, m.ids[Name(es[i])], c) && AgreesAt(w, m.ids[Name(es[j])], c));
    assert !AgreeAt(w, c);
  }

  /** The event of the batch that a coordinate free before it now holds. */
  lemma FiledBy(m: Model, es: seq<Event>, n: nat, c: Coord) returns (j: nat)
    requires n <= |es| && Named(m, es) && c !in m.blocks && c in SaveAll(m, es, n).blocks
    ensures IsLast(es, n, c, j) && SaveAll(m, es, n).blocks[c] == es[j]
  {
    BatchIsAdded(m, es, n, c);
    var i :| 0 <= i < n && c == BatchCoord(es, i);
    j := LastAt(es, n, c, i);
    LastEventWins(m, es, n, c, j);
  }

  /** Whatever the next event of the batch replaces is of its own contract. */
  lemma ReplacesOwn(m: Model, es: seq<Event>, n: nat)
    requires 0 < n <= |es| && Named(m, es) && FreeFor(m, es, n) && CollideWithinContract(es, n)
    ensures var before, c := SaveAll(m, es, n - 1), BatchCoord(es, n - 1);
      c !in before.blocks || Name(before.blocks[c]) == Name(es[n - 1])
  {
    var c := BatchCoord(es, n - 1);
    if c in SaveAll(m, es, n - 1).blocks {
      var j := FiledBy(m, es, n - 1, c);
      assert Collide(es, j, n - 1);
    }
  }

  lemma {:induction false} WithinContractAgrees(m: Model, es: seq<Event>, n: nat)
    requires n <= |es| && Named(m, es) && ModelOk(m) && Agree(m) && FreeFor(m, es, n) && HeightsOk(es)
    requires CollideWithinContract(es, n)
    ensures Agree(SaveAll(m, es, n))
  {
    if n > 0 {
      WithinContractAgrees(m, es, n - 1);
      SaveAllOk(m, es, n - 1);
      ReplacesOwn(m, es, n);
      PutKeepsAgreement(SaveAll(m, es, n - 1), m.ids[Name(es[n - 1])], BatchCoord(es, n - 1), es[n - 1]);
    }
  }

  lemma NamedBatchAgrees(m: Model, es: seq<Event>, n: nat)
    requires n <= |es| && Named(m, es) && ModelOk(m) && Agree(m) && FreeFor(m, es, n) && HeightsOk(es)
    ensures Agree(SaveAll(m, es, n)) <==> CollideWithinContract(es, n)
  {
    if CollideWithinContract(es, n) {
      WithinContractAgrees(m, es, n);
    } else {
      var i, j :| 0 <= i < j < n && Collide(es, i, j) && Name(es[i]) != Name(es[j]);
      CollisionDisagrees(m, es, n, i, j);
    }
  }

  lemma NamedAfter(m: Model, es: seq<Event>)
    ensures Named(WithIds(m, es, |es|), es)
  {
    forall i | 0 <= i < |es| ensures Name(es[i]) in WithIds(m, es, |es|).ids { IdGiven(m, es, |es|, i); }
  }

  /** Saving a batch at free coordinates keeps the indexes in agreement, and so every contract query a part
      of the block query, if and only if no two events of different contracts collide. */
  lemma BatchAgreesExactlyWhen(m: Model, es: seq<Event>)
    requires ModelOk(m) && Agree(m) && m.last + |es| < TWO_64 && FreeFor(m, es, |es|) && HeightsOk(es)
    ensures var w := WithIds(m, es, |es|);
      Named(w, es) && (Agree(SaveAll(w, es, |es|)) <==> CollideWithinContract(es, |es|))
  {
    NamedAfter(m, es);
    IdsOk(m, es, |es|);
    WithIdsKeepAgreement(m, es, |es|);
    NamedBatchAgrees(WithIds(m, es, |es|), es, |es|);
  }

  // ---- a batch that collides ----

  /** One event of one contract, then 65536 events of another, all of block 1. */
  function LongBatch(): (es: seq<Event>)
    ensures |es| == TWO_16 + 1 && HeightsOk(es)
    ensures Name(es[0]) == [65] && BatchCoord(es, 0) == (1, 0) == BatchCoord(es, TWO_16)
    ensures forall i :: 0 < i < |es| ==> Name(es[i]) == [66] && es[i] != es[0]
  {
    seq(TWO_16 + 1, i => if i == 0 then Event(1, [65], [], []) else Event(1, [66], [], []))
  }

  lemma SurvivorIsLater(m: Model, es: seq<Event>, c: Coord)
    requires es == LongBatch() && Named(m, es) && m.blocks == map[] && c in SaveAll(m, es, |es|).blocks
    ensures SaveAll(m, es, |es|).blocks[c] != es[0]
  {
    var j := FiledBy(m, es, |es|, c);
    assert j != 0;
  }

  lemma FirstIsGone(m: Model, es: seq<Event>, all: seq<Event>)
    requires es == LongBatch() && Named(m, es) && m.blocks == map[]
    requires Answers(SaveAll(m, es, |es|).blocks, 1, 1, all)
    ensures es[0] !in all
  {
    var w := SaveAll(m, es, |es|).blocks;
    forall c | c in w ensures w[c] != es[0] { SurvivorIsLater(m, es, c); }
    NotFiledNotReturned(w, es[0], all);
  }

  lemma FirstIsFiled(m: Model, es: seq<Event>, some: seq<Event>)
    requires es == LongBatch() && Named(m, es) && ModelOk(m)
    requires Answers(Of(SaveAll(m, es, |es|), m.ids[Name(es[0])]), 1, 1, some)
    ensures es[0] in some
  {
    BatchContracts(m, es, |es|, 0);
    FiledIsReturned(SaveAll(m, es, |es|), m.ids[Name(es[0])], (1, 0), some);
  }

  /** The first event of the long batch is gone from the block query, yet the query of its contract still
      returns it, so that query is no longer a part of the block query. */
  lemma CollisionSplitsIndexes(es: seq<Event>, m: Model, all: seq<Event>, some: seq<Event>)
    requires es == LongBatch() && m == WithIds(EMPTY, es, |es|)
    ensures Named(m, es)
    ensures
      && Answers(SaveAll(m, es, |es|).blocks, 1, 1, all)
      && Answers(Of(SaveAll(m, es, |es|), m.ids[Name(es[0])]), 1, 1, some)
      ==> es[0] !in all && es[0] in some && some != OnlyOf(all, Name(es[0]))
  {
    NamedAfter(EMPTY, es);
    IdsOk(EMPTY, es, |es|);
    if && Answers(SaveAll(m, es, |es|).blocks, 1, 1, all)
       && Answers(Of(SaveAll(m, es, |es|), m.ids[Name(es[0])]), 1, 1, some) {
      FirstIsGone(m, es, all);
      FirstIsFiled(m, es, some);
      OnlyOfWithin(all, Name(es[0]), es[0]);
    }
  }

  lemma NotFiledNotReturned(events: map<Coord, Event>, e: Event, all: seq<Event>)
    requires (forall c :: c in events ==> events[c] != e) && Answers(events, 1, 1, all)
    ensures e !in all
  {
    var cs: seq<Coord> :| AnswersAt(events, 1, 1, all, cs);
  }

  lemma FiledIsReturned(m: Model, id: nat, c: Coord, some: seq<Event>)
    requires (id, c) in m.contracts && Answers(Of(m, id), c.0, c.0, some)
    ensures m.contracts[(id, c)] in some
  {
    var ds: seq<Coord> :| AnswersAt(Of(m, id), c.0, c.0, some, ds);
    assert c in Of(m, id);
    assert c in ds;
    var j :| 0 <= j < |ds| && ds[j] == c;
    assert some[j] == m.contracts[(id, c)];
  }

  lemma {:induction false} OnlyOfWithin(r: seq<Event>, name: Bytes, e: Event)
    ensures e in OnlyOf(r, name) ==> e in r
    decreases |r|
  {
    if r != [] { OnlyOfWithin(r[..|r| - 1], name, e); }
  }
}

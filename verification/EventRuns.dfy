/** Every run of the event store from the empty one: what the indexes hold after any calls, when the
    contract queries are parts of the block query, and when every event ever saved is still returned. */
module EventRuns {
  import opened Basics
  import opened EventStore
  import opened EventAnswers

  /** A call: saving a batch, saving one event under some ID, or a query, which gives a new contract name
      an ID. */
  datatype Op = SaveBatch(events: seq<Event>) | SaveOne(write: Pending) | Ask(contract: Bytes)

  /** What the store's methods ask of their callers. */
  ghost predicate Fits(m: Model, op: Op) {
    match op
    case SaveBatch(es) => HeightsOk(es) && m.last + |es| < TWO_64
    case SaveOne(p) => CanWrite(p)
    case Ask(name) => name == [] || name in m.ids || m.last + 1 < TWO_64
  }

  /** The store after a call, as BatchSaveEvents, SaveEvent and FilterEvents leave it. */
  ghost function Apply(m: Model, op: Op): Model {
    match op
    case SaveBatch(es) => (NamedAfter(m, es); SaveAll(WithIds(m, es, |es|), es, |es|))
    case SaveOne(p) => Put(m, p.id, p.coord, p.event)
    case Ask(name) => if name == [] then m else WithId(m, name)
  }

  ghost function Batch(m: Model, es: seq<Event>): seq<Pending>
    requires Named(m, es)
  {
    seq(|es|, i requires 0 <= i < |es| => Pending(m.ids[Name(es[i])], BatchCoord(es, i), es[i]))
  }

  /** The writes a call makes to both indexes, in order. */
  ghost function Writes(m: Model, op: Op): seq<Pending> {
    match op
    case SaveBatch(es) => (NamedAfter(m, es); Batch(WithIds(m, es, |es|), es))
    case SaveOne(p) => [p]
    case Ask(_) => []
  }

  ghost predicate Linked(m: Model, op: Op, w: Model) { Fits(m, op) && w == Apply(m, op) }

  ghost predicate LinkedAt(ms: seq<Model>, ops: seq<Op>, j: nat)
    requires j < |ops| && j + 1 < |ms|
  { Linked(ms[j], ops[j], ms[j + 1]) }

  ghost predicate IsRun(ms: seq<Model>, ops: seq<Op>) {
    && |ms| == |ops| + 1 && ms[0] == EMPTY
    && forall j :: 0 <= j < |ops| ==> LinkedAt(ms, ops, j)
  }

  /** Everything written by the first n calls. */
  ghost function History(ms: seq<Model>, ops: seq<Op>, n: nat): seq<Pending>
    requires n <= |ops| && n < |ms|
  {
    if n == 0 then [] else History(ms, ops, n - 1) + Writes(ms[n - 1], ops[n - 1])
  }

  // ---- the indexes are the newest writes ----

  /** The event last written at a coordinate. */
  ghost function Newest(ws: seq<Pending>, c: Coord): Option<Event> {
    if ws == [] then None
    else
      var last := ws[|ws| - 1];
      if last.coord == c then Some(last.event) else Newest(ws[..|ws| - 1], c)
  }

  /** The event last written at a coordinate under one ID. */
  ghost function NewestUnder(ws: seq<Pending>, id: nat, c: Coord): Option<Event> {
    if ws == [] then None
    else
      var last := ws[|ws| - 1];
      if last.coord == c && last.id == id then Some(last.event) else NewestUnder(ws[..|ws| - 1], id, c)
  }

  function Lookup<K, V>(m: map<K, V>, k: K): Option<V> { if k in m then Some(m[k]) else None }

  /** Each index holds exactly the newest writes. */
  ghost predicate Tracks(m: Model, ws: seq<Pending>) {
    && (forall c :: Lookup(m.blocks, c) == Newest(ws, c))
    && (forall id: nat, c: Coord :: Lookup(m.contracts, (id, c)) == NewestUnder(ws, id, c))
  }

  lemma {:induction false} PutTracks(m: Model, ws: seq<Pending>, p: Pending)
    requires Tracks(m, ws)
    ensures Tracks(Put(m, p.id, p.coord, p.event), ws + [p])
  {
    assert (ws + [p])[..|ws|] == ws;
    var w := Put(m, p.id, p.coord, p.event);
    forall c ensures Lookup(w.blocks, c) == Newest(ws + [p], c) {
      assert Lookup(m.blocks, c) == Newest(ws, c);
    }
    forall id: nat, c: Coord ensures Lookup(w.contracts, (id, c)) == NewestUnder(ws + [p], id, c) {
      assert Lookup(m.contracts, (id, c)) == NewestUnder(ws, id, c);
    }
  }

  lemma {:induction false} WriteAllTracks(m: Model, ws: seq<Pending>, batch: seq<Pending>, n: nat)
    requires n <= |batch| && Tracks(m, ws)
    ensures Tracks(WriteAll(m, batch, n), ws + batch[..n])
  {
    if n == 0 {
      assert ws + batch[..0] == ws;
    } else {
      WriteAllTracks(m, ws, batch, n - 1);
      assert ws + batch[..n] == ws + batch[..n - 1] + [batch[n - 1]];
      PutTracks(WriteAll(m, batch, n - 1), ws + batch[..n - 1], batch[n - 1]);
    }
  }

  lemma {:induction false} BatchOk(m: Model, es: seq<Event>)
    requires ModelOk(m) && HeightsOk(es) && m.last + |es| < TWO_64
    ensures ModelOk(Apply(m, SaveBatch(es)))
  {
    NamedAfter(m, es);
    IdsOk(m, es, |es|);
    SaveAllOk(WithIds(m, es, |es|), es, |es|);
  }

  lemma {:induction false} NamingTracks(m: Model, ws: seq<Pending>, es: seq<Event>)
    requires ModelOk(m) && Tracks(m, ws) && m.last + |es| < TWO_64
    ensures Tracks(WithIds(m, es, |es|), ws)
  {
    IdsOk(m, es, |es|);
  }

  lemma {:induction false} BatchTracks(m: Model, ws: seq<Pending>, es: seq<Event>)
    requires ModelOk(m) && Tracks(m, ws) && m.last + |es| < TWO_64
    ensures Tracks(Apply(m, SaveBatch(es)), ws + Writes(m, SaveBatch(es)))
  {
    var w := WithIds(m, es, |es|);
    NamedAfter(m, es);
    NamingTracks(m, ws, es);
    var batch := Batch(w, es);
    WritesTheBatch(w, es, batch, |es|);
    WriteAllTracks(w, ws, batch, |es|);
    assert batch[..|es|] == batch;
  }

  lemma {:induction false} StepTracks(m: Model, ws: seq<Pending>, op: Op)
    requires ModelOk(m) && Tracks(m, ws) && Fits(m, op)
    ensures ModelOk(Apply(m, op)) && Tracks(Apply(m, op), ws + Writes(m, op))
  {
    match op
    case SaveBatch(es) =>
      BatchOk(m, es);
      BatchTracks(m, ws, es);
    case SaveOne(p) => PutTracks(m, ws, p);
    case Ask(name) =>
      assert ws + [] == ws;
      if name != [] && name !in m.ids { WithIdOk(m, name); }
  }

  /** The state is well formed and each index holds the newest writes. */
  ghost predicate Reached(m: Model, ws: seq<Pending>) { ModelOk(m) && Tracks(m, ws) }

  lemma {:induction false} EmptyTracks()
    ensures Reached(EMPTY, [])
  {
  }

  lemma {:induction false} LinkTracks(m: Model, ws: seq<Pending>, op: Op, w: Model)
    requires Reached(m, ws) && Linked(m, op, w)
    ensures Reached(w, ws + Writes(m, op))
  {
    StepTracks(m, ws, op);
  }

  /** At every point of every run both indexes hold exactly the newest of all writes so far. */
  lemma {:induction false} RunTracks(ms: seq<Model>, ops: seq<Op>, n: nat)
    requires IsRun(ms, ops) && n <= |ops|
    ensures Reached(ms[n], History(ms, ops, n))
  {
    if n == 0 {
      EmptyTracks();
      assert ms[n] == EMPTY;
    } else {
      var j := n - 1;
      RunTracks(ms, ops, j);
      assert LinkedAt(ms, ops, j);
      LinkTracks(ms[j], History(ms, ops, j), ops[j], ms[n]);
      assert History(ms, ops, n) == History(ms, ops, j) + Writes(ms[j], ops[j]);
    }
  }

  lemma {:induction false} NewestAt(ws: seq<Pending>, c: Coord) returns (j: nat)
    requires Newest(ws, c).Some?
    ensures j < |ws| && ws[j].coord == c && Newest(ws, c) == Some(ws[j].event)
    decreases |ws|
  {
    j := |ws| - 1;
    if ws[j].coord != c { j := NewestAt(ws[..j], c); }
  }

  lemma {:induction false} NewestUnderAt(ws: seq<Pending>, id: nat, c: Coord) returns (j: nat)
    requires NewestUnder(ws, id, c).Some?
    ensures j < |ws| && ws[j].coord == c && ws[j].id == id && NewestUnder(ws, id, c) == Some(ws[j].event)
    decreases |ws|
  {
    j := |ws| - 1;
    if ws[j].coord != c || ws[j].id != id { j := NewestUnderAt(ws[..j], id, c); }
  }

  lemma {:induction false} WrittenHasNewest(ws: seq<Pending>, j: nat)
    requires j < |ws|
    ensures Newest(ws, ws[j].coord).Some? && NewestUnder(ws, ws[j].id, ws[j].coord).Some?
    decreases |ws|
  {
    if j < |ws| - 1 { WrittenHasNewest(ws[..|ws| - 1], j); }
  }

  // ---- when the indexes agree ----

  /** Whatever was written at c was written under the ID of the contract whose event is newest there. */
  ghost predicate OwnerOnly(m: Model, ws: seq<Pending>, c: Coord) {
    Newest(ws, c).Some? ==>
      var name := Name(Newest(ws, c).value);
      name in m.ids && forall j :: 0 <= j < |ws| && ws[j].coord == c ==> ws[j].id == m.ids[name]
  }

  lemma {:induction false} OneIdNewest(ws: seq<Pending>, id: nat, c: Coord)
    requires forall j :: 0 <= j < |ws| && ws[j].coord == c ==> ws[j].id == id
    ensures NewestUnder(ws, id, c) == Newest(ws, c)
    decreases |ws|
  {
    if ws != [] { OneIdNewest(ws[..|ws| - 1], id, c); }
  }

  lemma {:induction false} OwnerOnlyAgrees(m: Model, ws: seq<Pending>, id: nat, c: Coord)
    requires Tracks(m, ws) && OwnerOnly(m, ws, c)
    ensures AgreesAt(m, id, c)
  {
    assert Lookup(m.blocks, c) == Newest(ws, c) && Lookup(m.contracts, (id, c)) == NewestUnder(ws, id, c);
    if NewestUnder(ws, id, c).Some? {
      var j := NewestUnderAt(ws, id, c);
      WrittenHasNewest(ws, j);
      OneIdNewest(ws, id, c);
    } else if Newest(ws, c).Some? && m.ids[Name(Newest(ws, c).value)] == id {
      OneIdNewest(ws, id, c);
      assert false;
    }
  }

  /** After any writes the indexes agree at a coordinate if and only if everything written there was
      written under the ID of the contract whose event it now holds. */
  lemma {:induction false} AgreeExactlyWhen(m: Model, ws: seq<Pending>, c: Coord)
    requires Tracks(m, ws)
    ensures AgreeAt(m, c) <==> OwnerOnly(m, ws, c)
  {
    assert Lookup(m.blocks, c) == Newest(ws, c);
    if AgreeAt(m, c) {
      forall j | 0 <= j < |ws| && ws[j].coord == c && Newest(ws, c).Some?
        ensures ws[j].id == m.ids[Name(Newest(ws, c).value)]
      {
        WrittenHasNewest(ws, j);
        assert Lookup(m.contracts, (ws[j].id, c)) == NewestUnder(ws, ws[j].id, c);
        assert AgreesAt(m, ws[j].id, c);
      }
    }
    if OwnerOnly(m, ws, c) {
      forall id: nat ensures AgreesAt(m, id, c) { OwnerOnlyAgrees(m, ws, id, c); }
    }
  }

  /** The write is made under the ID of its event's contract. */
  ghost predicate Owned(m: Model, p: Pending) { Name(p.event) in m.ids && m.ids[Name(p.event)] == p.id }

  ghost predicate OwnIds(m: Model, ws: seq<Pending>) { forall j :: 0 <= j < |ws| ==> Owned(m, ws[j]) }

  /** All events written at c are of one contract. */
  ghost predicate OneContract(ws: seq<Pending>, c: Coord) {
    forall i, j :: 0 <= i < j < |ws| && ws[i].coord == c && ws[j].coord == c ==>
      Name(ws[i].event) == Name(ws[j].event)
  }

  ghost predicate Unshared(ws: seq<Pending>) { forall c :: OneContract(ws, c) }

  lemma {:induction false} OneContractOwns(m: Model, ws: seq<Pending>, c: Coord)
    requires ModelOk(m) && OwnIds(m, ws)
    ensures OwnerOnly(m, ws, c) <==> OneContract(ws, c)
  {
    if Newest(ws, c).Some? {
      var k := NewestAt(ws, c);
      assert Owned(m, ws[k]);
      if OwnerOnly(m, ws, c) {
        forall j | 0 <= j < |ws| && ws[j].coord == c ensures Name(ws[j].event) == Name(ws[k].event) {
          assert Owned(m, ws[j]);
        }
      } else {
        var j :| 0 <= j < |ws| && ws[j].coord == c && ws[j].id != m.ids[Name(ws[k].event)];
        assert Owned(m, ws[j]);
        assert j < k || k < j;
      }
    } else {
      forall j | 0 <= j < |ws| ensures ws[j].coord != c { WrittenHasNewest(ws, j); }
    }
  }

  lemma {:induction false} CoordAgreesExactlyWhen(m: Model, ws: seq<Pending>, c: Coord)
    requires ModelOk(m) && Tracks(m, ws) && OwnIds(m, ws)
    ensures AgreeAt(m, c) <==> OneContract(ws, c)
  {
    AgreeExactlyWhen(m, ws, c);
    OneContractOwns(m, ws, c);
  }

  lemma {:induction false} IndexesAgreeExactlyWhen(m: Model, ws: seq<Pending>)
    requires ModelOk(m) && Tracks(m, ws) && OwnIds(m, ws)
    ensures Agree(m) <==> Unshared(ws)
  {
    forall c ensures AgreeAt(m, c) <==> OneContract(ws, c) { CoordAgreesExactlyWhen(m, ws, c); }
  }

  lemma {:induction false} ApplyKeepsIds(m: Model, op: Op, name: Bytes)
    requires name in m.ids
    ensures name in Apply(m, op).ids && Apply(m, op).ids[name] == m.ids[name]
  {
    if op.SaveBatch? {
      NamedAfter(m, op.events);
      IdKept(m, op.events, |op.events|, name);
    }
  }

  /** SaveEvent is called with the ID of its event's contract, as GetContractID gives it. */
  ghost predicate OwnSaves(ms: seq<Model>, ops: seq<Op>) {
    |ops| < |ms| && forall j :: 0 <= j < |ops| && ops[j].SaveOne? ==> Owned(ms[j], ops[j].write)
  }

  lemma {:induction false} StepOwns(m: Model, ws: seq<Pending>, op: Op)
    requires OwnIds(m, ws) && (op.SaveOne? ==> Owned(m, op.write))
    ensures OwnIds(Apply(m, op), ws + Writes(m, op))
  {
    var all, w := ws + Writes(m, op), Apply(m, op);
    forall j | 0 <= j < |all| ensures Owned(w, all[j]) {
      if j < |ws| {
        assert all[j] == ws[j] && Owned(m, ws[j]);
        ApplyKeepsIds(m, op, Name(ws[j].event));
      } else if op.SaveBatch? {
        NamedAfter(m, op.events);
        assert all[j] == Writes(m, op)[j - |ws|];
      }
    }
  }

  lemma {:induction false} RunOwns(ms: seq<Model>, ops: seq<Op>, n: nat)
    requires IsRun(ms, ops) && OwnSaves(ms, ops) && n <= |ops|
    ensures OwnIds(ms[n], History(ms, ops, n))
  {
    if n > 0 {
      var j := n - 1;
      RunOwns(ms, ops, j);
      assert LinkedAt(ms, ops, j);
      StepOwns(ms[j], History(ms, ops, j), ops[j]);
    }
  }

  /** At every point of every run the indexes agree if and only if no coordinate was ever written for two
      contracts. */
  lemma {:induction false} RunAgreesExactlyWhen(ms: seq<Model>, ops: seq<Op>, n: nat)
    requires IsRun(ms, ops) && OwnSaves(ms, ops) && n <= |ops|
    ensures Agree(ms[n]) <==> Unshared(History(ms, ops, n))
  {
    RunTracks(ms, ops, n);
    RunOwns(ms, ops, n);
    IndexesAgreeExactlyWhen(ms[n], History(ms, ops, n));
  }

  // ---- when contract queries are parts of the block query ----

  ghost function Insert(cs: seq<Coord>, c: Coord): (r: seq<Coord>)
    ensures forall d :: d in r <==> d == c || d in cs
  {
    if cs == [] then [c]
    else if CoordLess(c, cs[0]) then [c] + cs
    else
      var rest := Insert(cs[1..], c);
      assert cs == [cs[0]] + cs[1..];
      [cs[0]] + rest
  }

  lemma {:induction false} InsertAscends(cs: seq<Coord>, c: Coord)
    requires AscendingCoords(cs) && c !in cs
    ensures AscendingCoords(Insert(cs, c))
    decreases |cs|
  {
    if cs != [] && !CoordLess(c, cs[0]) {
      InsertAscends(cs[1..], c);
      var rest := Insert(cs[1..], c);
      forall k | 0 <= k < |rest| ensures CoordLess(cs[0], rest[k]) {
        assert rest[k] in rest;
        assert cs[0] in cs;
        if rest[k] != c {
          var i :| 0 <= i < |cs[1..]| && cs[1..][i] == rest[k];
          assert CoordLess(cs[0], cs[i + 1]);
        }
      }
    }
  }

  lemma {:induction false} Sorted(C: set<Coord>) returns (cs: seq<Coord>)
    ensures AscendingCoords(cs) && forall c :: c in cs <==> c in C
    decreases |C|
  {
    if C == {} {
      cs := [];
    } else {
      var c :| c in C;
      var rest := Sorted(C - {c});
      InsertAscends(rest, c);
      cs := Insert(rest, c);
    }
  }

  lemma {:induction false} AnswerExists(events: map<Coord, Event>, from: nat, to: nat) returns (r: seq<Event>)
    ensures Answers(events, from, to, r)
  {
    var cs := Sorted(Within(events, from, to));
    assert Known(events, cs) by { assert forall j :: 0 <= j < |cs| ==> cs[j] in Within(events, from, to); }
    r := EventsAt(events, cs);
    assert AnswersAt(events, from, to, r, cs);
  }

  ghost function NamedWithin(events: map<Coord, Event>, from: nat, to: nat, name: Bytes): set<Coord> {
    set c | c in events.Keys && from <= c.0 <= to && Name(events[c]) == name
  }

  lemma {:induction false} OnlyOfCount(events: map<Coord, Event>, from: nat, to: nat, r: seq<Event>, name: Bytes)
    requires Answers(events, from, to, r)
    ensures |OnlyOf(r, name)| == |NamedWithin(events, from, to, name)|
  {
    var cs: seq<Coord> :| AnswersAt(events, from, to, r, cs);
    CoordsOfAscend(events, cs, name);
    CoordsOfEvents(events, cs, name);
    AscendingCount(CoordsOf(events, cs, name), NamedWithin(events, from, to, name));
  }

  /** Every contract query over [from, to] returns exactly the contract's part of the block query. */
  ghost predicate PartsOfBlocks(m: Model, from: nat, to: nat) {
    forall name, all, some ::
      name in m.ids && Returns(m.blocks, from, to, all) && Returns(Of(m, m.ids[name]), from, to, some) ==>
        some == OnlyOf(all, name)
  }

  /** Every event in the block index is in its contract's index. */
  lemma {:induction false} HeldIsFiled(m: Model, ws: seq<Pending>, c: Coord)
    requires Tracks(m, ws) && OwnIds(m, ws) && c in m.blocks
    ensures Name(m.blocks[c]) in m.ids && (m.ids[Name(m.blocks[c])], c) in m.contracts
  {
    assert Lookup(m.blocks, c) == Newest(ws, c);
    var j := NewestAt(ws, c);
    assert Owned(m, ws[j]);
    WrittenHasNewest(ws, j);
    assert Lookup(m.contracts, (ws[j].id, c)) == NewestUnder(ws, ws[j].id, c);
  }

  /** A contract that once wrote at c, where another contract's event is now, has a longer answer. */
  lemma {:induction false} ShadowedShows(m: Model, ws: seq<Pending>, from: nat, to: nat, j: nat)
    requires Tracks(m, ws) && OwnIds(m, ws) && j < |ws| && from <= ws[j].coord.0 <= to < TWO_64 - 1
    requires Newest(ws, ws[j].coord).Some? && Name(Newest(ws, ws[j].coord).value) != Name(ws[j].event)
    ensures !PartsOfBlocks(m, from, to)
  {
    var c, name := ws[j].coord, Name(ws[j].event);
    assert Owned(m, ws[j]);
    var own := Of(m, m.ids[name]);
    WrittenHasNewest(ws, j);
    assert Lookup(m.blocks, c) == Newest(ws, c);
    assert Lookup(m.contracts, (ws[j].id, c)) == NewestUnder(ws, ws[j].id, c);
    var all := AnswerExists(m.blocks, from, to);
    var some := AnswerExists(own, from, to);
    OnlyOfCount(m.blocks, from, to, all, name);
    AnswerCount(own, from, to, some);
    var few, many := NamedWithin(m.blocks, from, to, name), Within(own, from, to);
    forall d | d in few ensures d in many { HeldIsFiled(m, ws, d); }
    assert c in many && c !in few;
    ProperSubset(few, many, c);
    assert Returns(m.blocks, from, to, all) && Returns(Of(m, m.ids[name]), from, to, some);
    assert some != OnlyOf(all, name);
  }

  lemma {:induction false} ProperSubset(a: set<Coord>, b: set<Coord>, c: Coord)
    requires a <= b && c in b && c !in a
    ensures |a| < |b|
  {
    SubsetSize(a, b - {c});
  }

  lemma {:induction false} SubsetSize(a: set<Coord>, b: set<Coord>)
    requires a <= b
    ensures |a| <= |b|
    decreases a
  {
    if c :| c in a { SubsetSize(a - {c}, b - {c}); }
  }

  lemma {:induction false} PartsExactlyWhen(m: Model, ws: seq<Pending>, from: nat, to: nat)
    requires ModelOk(m) && Tracks(m, ws) && OwnIds(m, ws) && to < TWO_64 - 1
    ensures PartsOfBlocks(m, from, to) <==> forall c: Coord :: from <= c.0 <= to ==> OneContract(ws, c)
  {
    if c: Coord :| from <= c.0 <= to && !OneContract(ws, c) {
      var i, j :| 0 <= i < j < |ws| && ws[i].coord == c == ws[j].coord && Name(ws[i].event) != Name(ws[j].event);
      WrittenHasNewest(ws, i);
      ShadowedShows(m, ws, from, to, if Name(Newest(ws, c).value) != Name(ws[i].event) then i else j);
    } else {
      forall c: Coord | from <= c.0 <= to ensures AgreeAt(m, c) { CoordAgreesExactlyWhen(m, ws, c); }
      forall name, all, some | name in m.ids && Returns(m.blocks, from, to, all)
                               && Returns(Of(m, m.ids[name]), from, to, some)
        ensures some == OnlyOf(all, name)
      {
        ContractIsSubsequence(m, from, to, name, all, some);
      }
    }
  }

  /** At every point of every run the contract queries over a range return exactly their contracts' parts of
      the block query if and only if no coordinate in the range was ever written for two contracts; or the
      range ends at the largest block, where every query returns nothing. */
  lemma {:induction false} RunQueriesExactlyWhen(ms: seq<Model>, ops: seq<Op>, n: nat, from: nat, to: nat)
    requires IsRun(ms, ops) && OwnSaves(ms, ops) && n <= |ops| && to < TWO_64
    ensures PartsOfBlocks(ms[n], from, to) <==>
              to == TWO_64 - 1 || forall c: Coord :: from <= c.0 <= to ==> OneContract(History(ms, ops, n), c)
  {
    RunTracks(ms, ops, n);
    RunOwns(ms, ops, n);
    if to < TWO_64 - 1 { PartsExactlyWhen(ms[n], History(ms, ops, n), from, to); }
  }

  // ---- when every event is still returned ----

  predicate Between(p: Pending, from: nat, to: nat) { from <= p.coord.0 <= to }

  /** How many writes went to heights in [from, to]. */
  function CountBetween(ws: seq<Pending>, from: nat, to: nat): nat {
    if ws == [] then 0
    else CountBetween(ws[..|ws| - 1], from, to) + if Between(ws[|ws| - 1], from, to) then 1 else 0
  }

  /** No two writes to heights in [from, to] went to one coordinate. */
  ghost predicate DistinctBetween(ws: seq<Pending>, from: nat, to: nat) {
    forall i, j :: 0 <= i < j < |ws| && Between(ws[j], from, to) ==> ws[i].coord != ws[j].coord
  }

  ghost function CoordsBetween(ws: seq<Pending>, from: nat, to: nat): set<Coord> {
    set j | 0 <= j < |ws| && Between(ws[j], from, to) :: ws[j].coord
  }

  lemma {:induction false} CountExactlyWhen(ws: seq<Pending>, from: nat, to: nat)
    ensures |CoordsBetween(ws, from, to)| <= CountBetween(ws, from, to)
    ensures |CoordsBetween(ws, from, to)| == CountBetween(ws, from, to) <==> DistinctBetween(ws, from, to)
    decreases |ws|
  {
    if ws == [] {
      assert CoordsBetween(ws, from, to) == {};
    } else {
      var init, last := ws[..|ws| - 1], ws[|ws| - 1];
      CountExactlyWhen(init, from, to);
      CoordsNext(init, last, from, to);
      assert ws == init + [last];
    }
  }

  /** One more write adds its coordinate, and keeps the writes distinct if that is new. */
  lemma {:induction false} CoordsNext(ws: seq<Pending>, p: Pending, from: nat, to: nat)
    ensures CoordsBetween(ws + [p], from, to) ==
              CoordsBetween(ws, from, to) + if Between(p, from, to) then {p.coord} else {}
    ensures DistinctBetween(ws + [p], from, to) <==>
              DistinctBetween(ws, from, to) && (Between(p, from, to) ==> p.coord !in CoordsBetween(ws, from, to))
  {
    var all := ws + [p];
    assert forall j :: 0 <= j < |ws| ==> all[j] == ws[j];
    assert all[|ws|] == p;
    forall c ensures c in CoordsBetween(all, from, to) <==>
                     c in CoordsBetween(ws, from, to) || (Between(p, from, to) && c == p.coord)
    {
      if c in CoordsBetween(ws, from, to) {
        var j :| 0 <= j < |ws| && Between(ws[j], from, to) && ws[j].coord == c;
        assert all[j].coord == c;
      }
    }
    if DistinctBetween(all, from, to) {
      forall i, j | 0 <= i < j < |ws| && Between(ws[j], from, to) ensures ws[i].coord != ws[j].coord {
        assert all[i].coord != all[j].coord;
      }
    }
  }

  /** The newest writes fill the coordinates written. */
  lemma {:induction false} CoordsHeld(m: Model, ws: seq<Pending>, from: nat, to: nat)
    requires Tracks(m, ws)
    ensures Within(m.blocks, from, to) == CoordsBetween(ws, from, to)
  {
    forall c ensures c in Within(m.blocks, from, to) <==> c in CoordsBetween(ws, from, to) {
      assert Lookup(m.blocks, c) == Newest(ws, c);
      if c in Within(m.blocks, from, to) {
        var j := NewestAt(ws, c);
        assert Between(ws[j], from, to);
      }
      if c in CoordsBetween(ws, from, to) {
        var j :| 0 <= j < |ws| && Between(ws[j], from, to) && ws[j].coord == c;
        WrittenHasNewest(ws, j);
      }
    }
  }

  lemma {:induction false} DistinctIsReturned(m: Model, ws: seq<Pending>, from: nat, to: nat, all: seq<Event>, j: nat)
    requires Tracks(m, ws) && Answers(m.blocks, from, to, all)
    requires DistinctBetween(ws, from, to) && j < |ws| && Between(ws[j], from, to)
    ensures ws[j].event in all
  {
    var c := ws[j].coord;
    WrittenHasNewest(ws, j);
    var k := NewestAt(ws, c);
    assert k == j;
    assert Lookup(m.blocks, c) == Newest(ws, c);
    var cs: seq<Coord> :| AnswersAt(m.blocks, from, to, all, cs);
    var i :| 0 <= i < |cs| && cs[i] == c;
    assert all[i] == ws[j].event;
  }

  /** At every point of every run the block query over a range below the largest block returns as many
      events as were ever saved there, so all of them, if and only if no coordinate in the range was written
      twice. */
  lemma {:induction false} RunReturnsAllExactlyWhen(
      ms: seq<Model>, ops: seq<Op>, n: nat, from: nat, to: nat, all: seq<Event>)
    requires IsRun(ms, ops) && n <= |ops| && to < TWO_64 - 1 && Returns(ms[n].blocks, from, to, all)
    ensures var ws := History(ms, ops, n);
      && |all| <= CountBetween(ws, from, to)
      && (|all| == CountBetween(ws, from, to) <==> DistinctBetween(ws, from, to))
      && (DistinctBetween(ws, from, to) ==>
            forall j :: 0 <= j < |ws| && Between(ws[j], from, to) ==> ws[j].event in all)
  {
    var m, ws := ms[n], History(ms, ops, n);
    RunTracks(ms, ops, n);
    AnswerCount(m.blocks, from, to, all);
    CoordsHeld(m, ws, from, to);
    CountExactlyWhen(ws, from, to);
    if DistinctBetween(ws, from, to) {
      forall j | 0 <= j < |ws| && Between(ws[j], from, to) ensures ws[j].event in all {
        DistinctIsReturned(m, ws, from, to, all, j);
      }
    }
  }

  // ---- under which name an event is found ----

  /** Contracts are named by plugin name; an event without one belongs to its address. */
  function ContractName(e: Event): Bytes { if e.pluginName != [] then e.pluginName else e.address }

  lemma {:induction false} NewestUnderIs(ws: seq<Pending>, j: nat)
    requires j < |ws| && forall k :: j < k < |ws| ==> ws[k].coord != ws[j].coord || ws[k].id != ws[j].id
    ensures NewestUnder(ws, ws[j].id, ws[j].coord) == Some(ws[j].event)
    decreases |ws|
  {
    if j < |ws| - 1 {
      var init := ws[..|ws| - 1];
      forall k | j < k < |init| ensures init[k].coord != init[j].coord || init[k].id != init[j].id {
        assert init[k] == ws[k];
      }
      NewestUnderIs(init, j);
    }
  }

  lemma {:induction false} UnderIsOwned(m: Model, ws: seq<Pending>, name: Bytes, c: Coord)
    requires ModelOk(m) && Tracks(m, ws) && OwnIds(m, ws) && name in m.ids && (m.ids[name], c) in m.contracts
    ensures ContractName(m.contracts[(m.ids[name], c)]) == name
  {
    var id := m.ids[name];
    assert Lookup(m.contracts, (id, c)) == NewestUnder(ws, id, c);
    var j := NewestUnderAt(ws, id, c);
    assert Owned(m, ws[j]);
  }

  lemma {:induction false} OnlyItsEvents(m: Model, ws: seq<Pending>, name: Bytes, from: nat, to: nat, some: seq<Event>)
    requires ModelOk(m) && Tracks(m, ws) && OwnIds(m, ws) && name in m.ids
    requires Answers(Of(m, m.ids[name]), from, to, some)
    ensures forall x :: 0 <= x < |some| ==> ContractName(some[x]) == name
  {
    var own := Of(m, m.ids[name]);
    var cs: seq<Coord> :| AnswersAt(own, from, to, some, cs);
    forall x | 0 <= x < |some| ensures ContractName(some[x]) == name {
      UnderIsOwned(m, ws, name, cs[x]);
    }
  }

  lemma {:induction false} FiledIsFound(m: Model, id: nat, c: Coord, from: nat, to: nat, some: seq<Event>)
    requires (id, c) in m.contracts && from <= c.0 <= to && Answers(Of(m, id), from, to, some)
    ensures m.contracts[(id, c)] in some
  {
    var cs: seq<Coord> :| AnswersAt(Of(m, id), from, to, some, cs);
    assert c in Of(m, id);
    assert c in cs;
    var x :| 0 <= x < |cs| && cs[x] == c;
    assert some[x] == m.contracts[(id, c)];
  }

  /** At every point of every run a saved event is returned by the query for its plugin name, or for its
      address if it has no plugin name, unless its contract has since written at its coordinate; and a
      query for a name returns only events of that name. */
  lemma {:induction false} FoundByName(
      ms: seq<Model>, ops: seq<Op>, n: nat, from: nat, to: nat, j: nat, some: seq<Event>)
    requires IsRun(ms, ops) && OwnSaves(ms, ops) && n <= |ops| && to < TWO_64 - 1
    requires var ws := History(ms, ops, n);
      j < |ws| && Between(ws[j], from, to)
      && forall k :: j < k < |ws| ==> ws[k].coord != ws[j].coord || ws[k].id != ws[j].id
    ensures var e := History(ms, ops, n)[j].event;
      var name := if e.pluginName != [] then e.pluginName else e.address;
      && name in ms[n].ids
      && (Returns(Of(ms[n], ms[n].ids[name]), from, to, some) ==>
            e in some && forall x :: 0 <= x < |some| ==> ContractName(some[x]) == name)
  {
    var m, ws := ms[n], History(ms, ops, n);
    RunTracks(ms, ops, n);
    RunOwns(ms, ops, n);
    assert Owned(m, ws[j]);
    var id, c, name := ws[j].id, ws[j].coord, ContractName(ws[j].event);
    if Returns(Of(m, m.ids[name]), from, to, some) {
      NewestUnderIs(ws, j);
      assert Lookup(m.contracts, (id, c)) == NewestUnder(ws, id, c);
      FiledIsFound(m, id, c, from, to, some);
      OnlyItsEvents(m, ws, name, from, to, some);
    }
  }

  // ---- one batch per block ----

  predicate HasHeight(op: Op, h: nat) { op.SaveBatch? && exists i :: 0 <= i < |op.events| && op.events[i].height == h }

  predicate SmallBatch(op: Op) { op.SaveBatch? ==> |op.events| <= TWO_16 }

  /** Events arrive in batches of at most 65536, and no block is in two batches. */
  ghost predicate OneBatchPerBlock(ops: seq<Op>) {
    && (forall j :: 0 <= j < |ops| ==> !ops[j].SaveOne? && SmallBatch(ops[j]))
    && (forall j, k, h: nat :: 0 <= j < k < |ops| && HasHeight(ops[j], h) ==> !HasHeight(ops[k], h))
  }

  lemma {:induction false} WritesHaveHeights(m: Model, op: Op, i: nat)
    requires !op.SaveOne? && i < |Writes(m, op)|
    ensures HasHeight(op, Writes(m, op)[i].coord.0)
  {
    NamedAfter(m, op.events);
    assert op.events[i].height == Writes(m, op)[i].coord.0;
  }

  lemma {:induction false} HistoryHasHeights(ms: seq<Model>, ops: seq<Op>, n: nat, i: nat) returns (j: nat)
    requires n <= |ops| && n < |ms| && OneBatchPerBlock(ops) && i < |History(ms, ops, n)|
    ensures j < n && HasHeight(ops[j], History(ms, ops, n)[i].coord.0)
  {
    var earlier := History(ms, ops, n - 1);
    if i < |earlier| {
      j := HistoryHasHeights(ms, ops, n - 1, i);
    } else {
      j := n - 1;
      WritesHaveHeights(ms[j], ops[j], i - |earlier|);
    }
  }

  ghost predicate DistinctWrites(ws: seq<Pending>) { forall i, j :: 0 <= i < j < |ws| ==> ws[i].coord != ws[j].coord }

  lemma {:induction false} SmallBatchDistinct(m: Model, op: Op)
    requires !op.SaveOne? && SmallBatch(op)
    ensures DistinctWrites(Writes(m, op))
  {
    if op.SaveBatch? {
      NamedAfter(m, op.events);
      forall i, j | 0 <= i < j < |op.events| ensures BatchCoord(op.events, i) != BatchCoord(op.events, j) {
        CollideExactlyWhen(op.events, i, j);
      }
    }
  }

  lemma {:induction false} BlockByBlock(ms: seq<Model>, ops: seq<Op>, n: nat)
    requires n <= |ops| && n < |ms| && OneBatchPerBlock(ops)
    ensures DistinctWrites(History(ms, ops, n))
  {
    if n > 0 {
      var k := n - 1;
      var ws, more := History(ms, ops, k), Writes(ms[k], ops[k]);
      BlockByBlock(ms, ops, k);
      SmallBatchDistinct(ms[k], ops[k]);
      var all := ws + more;
      forall i, j | 0 <= i < j < |all| ensures all[i].coord != all[j].coord {
        if i < |ws| <= j {
          var e := HistoryHasHeights(ms, ops, k, i);
          WritesHaveHeights(ms[k], ops[k], j - |ws|);
          assert !HasHeight(ops[k], ws[i].coord.0);
        } else if |ws| <= i {
          assert more[i - |ws|].coord != more[j - |ws|].coord;
        }
      }
    }
  }

  /** When events arrive in batches of at most 65536 and no block is in two batches, every query at every
      point of the run is exact: the block query returns all events ever saved in the range, each contract
      query exactly the contract's part of it. */
  lemma {:induction false} IndexedChainIsExact(
      ms: seq<Model>, ops: seq<Op>, n: nat, from: nat, to: nat, all: seq<Event>)
    requires IsRun(ms, ops) && OneBatchPerBlock(ops) && n <= |ops| && to < TWO_64 - 1
    requires Returns(ms[n].blocks, from, to, all)
    ensures var ws := History(ms, ops, n);
      && |all| == CountBetween(ws, from, to)
      && (forall j :: 0 <= j < |ws| && Between(ws[j], from, to) ==> ws[j].event in all)
      && PartsOfBlocks(ms[n], from, to)
  {
    var ws := History(ms, ops, n);
    BlockByBlock(ms, ops, n);
    RunReturnsAllExactlyWhen(ms, ops, n, from, to, all);
    RunQueriesExactlyWhen(ms, ops, n, from, to);
    assert forall c :: OneContract(ws, c);
  }
}

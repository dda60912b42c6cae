/** The event store: every event under a block key and under a contract key, contract names mapped to
    numeric IDs, and range queries over the ordered keys. */
module EventStore {
  import opened Basics
  import opened KeyOrder

  /** An event of a Go contract has a plugin name, one of an EVM contract only an address. */
  datatype Event = Event(height: nat, pluginName: Bytes, address: Bytes, body: Bytes)

  datatype Codec = Codec(marshal: Event -> Bytes, unmarshal: Bytes -> Option<Event>)

  ghost predicate Faithful(codec: Codec) { forall e: Event :: codec.unmarshal(codec.marshal(e)) == Some(e) }

  function Name(e: Event): Bytes { if e.pluginName == [] then e.address else e.pluginName }

  type Coord = (nat, nat)
  type Db = map<Bytes, Bytes>

  // ---- keys: parts joined by a zero byte ----

  const BLOCK_PREFIX: Bytes := [1, 0]
  const CONTRACT_PREFIX: Bytes := [3, 0]
  const LAST_ID_KEY: Bytes := [5, 0, 99, 111, 110, 116, 114, 97, 99, 116, 45, 105, 100]

  function Tail(c: Coord): Bytes { Encode(c.0, 8) + ([0] + Encode(c.1, 2)) }

  function BlockKey(c: Coord): Bytes { BLOCK_PREFIX + Tail(c) }

  function ContractPart(id: nat): Bytes { CONTRACT_PREFIX + Encode(id, 8) + [0] }

  function ContractKey(id: nat, c: Coord): Bytes { ContractPart(id) + Tail(c) }

  /** The bound of a contract query: the contract and a height, without an index. */
  function ContractBound(id: nat, h: nat): Bytes { CONTRACT_PREFIX + Encode(id, 8) + [0] + Encode(h, 8) }

  function NameKey(name: Bytes): Bytes { [2, 0] + name }

  function ReadNumber(db: Db, k: Bytes): nat { if k in db && db[k] != [] then Decode(db[k]) else 0 }

  predicate CoordOk(c: Coord) { c.0 < TWO_64 && c.1 < TWO_16 }

  predicate CoordLess(a: Coord, b: Coord) { a.0 < b.0 || (a.0 == b.0 && a.1 < b.1) }

  lemma TailOrder(a: Coord, b: Coord)
    requires CoordOk(a) && CoordOk(b)
    ensures Less(Tail(a), Tail(b)) <==> CoordLess(a, b)
    ensures Tail(a) == Tail(b) <==> a == b
  {
    Widths();
    LessByParts(Encode(a.0, 8), [0] + Encode(a.1, 2), Encode(b.0, 8), [0] + Encode(b.1, 2));
    LessByParts([0], Encode(a.1, 2), [0], Encode(b.1, 2));
    LessTotal([0], [0]);
    EncodeOrder(a.0, b.0, 8);
    EncodeOrder(a.1, b.1, 2);
    TailParts(a);
    TailParts(b);
  }

  lemma TailParts(c: Coord)
    ensures |Tail(c)| == 11 && Tail(c)[..8] == Encode(c.0, 8) && Tail(c)[9..] == Encode(c.1, 2)
  {
  }

  /** Both kinds of range bound: the height alone, or the height with index 0. */
  predicate BoundSuffix(s: Bytes) { s == [] || s == [0, 0, 0] }

  /** The program's bound keys: a key family's prefix, a height and one of the two suffixes. */
  lemma BoundKeys(id: nat, h: nat)
    ensures BlockKey((h, 0)) == BLOCK_PREFIX + (Encode(h, 8) + [0, 0, 0])
    ensures ContractBound(id, h) == ContractPart(id) + (Encode(h, 8) + [])
  {
    assert Encode(0, 1) == [0];
    assert [0] + Encode(0, 2) == [0, 0, 0];
  }

  /** A height range selects exactly the coordinates with those heights. */
  lemma TailInRange(c: Coord, from: nat, to: nat, s: Bytes)
    requires CoordOk(c) && from < TWO_64 && to + 1 < TWO_64 && BoundSuffix(s)
    ensures InRange(Tail(c), Encode(from, 8) + s, Some(Encode(to + 1, 8) + s)) <==> from <= c.0 <= to
  {
    Widths();
    var rest := [0] + Encode(c.1, 2);
    LessByParts(Encode(c.0, 8), rest, Encode(from, 8), s);
    LessByParts(Encode(c.0, 8), rest, Encode(to + 1, 8), s);
    EncodeOrder(c.0, from, 8);
    EncodeOrder(c.0, to + 1, 8);
    NotBelowZeros(rest, s);
  }

  lemma NotBelowZeros(rest: Bytes, s: Bytes)
    requires BoundSuffix(s) && |rest| == 3
    ensures !Less(rest, s)
  {
    if s != [] {
      var r1, r2 := rest[1..], rest[1..][1..];
      assert [0][1..] == [] && [0, 0][1..] == [0] && s[1..] == [0, 0];
      assert !Less(r2, [0]);
      assert !Less(r1, [0, 0]);
    }
  }

  lemma RangeKeepsPrefix(p: Bytes, x: Bytes, y: Bytes, k: Bytes)
    requires InRange(k, p + x, Some(p + y))
    ensures HasPrefix(p, k) && InRange(k[|p|..], x, Some(y))
  {
    if |k| < |p| {
      var q, r := p[..|k|], p[|k|..];
      assert p + x == q + (r + x) && p + y == q + (r + y) && k + [] == k;
      LessByParts(k, [], q, r + x);
      LessByParts(k, [], q, r + y);
      assert false;
    } else {
      var q, r := k[..|p|], k[|p|..];
      assert k == q + r;
      LessByParts(q, r, p, x);
      LessByParts(q, r, p, y);
    }
  }

  // ---- scanning one family of keys ----

  ghost predicate AscendingCoords(cs: seq<Coord>) { forall i, j :: 0 <= i < j < |cs| ==> CoordLess(cs[i], cs[j]) }

  /** cs lists, in order, the coordinates of C with heights in [from, to]. */
  ghost predicate Lists(C: set<Coord>, from: nat, to: nat, cs: seq<Coord>) {
    AscendingCoords(cs) && forall c :: c in cs <==> c in C && from <= c.0 <= to
  }

  /** The keys with prefix p are exactly the keys of the coordinates in C. */
  ghost predicate FamilyKeys(keys: set<Bytes>, p: Bytes, C: set<Coord>) {
    && (forall c :: c in C ==> CoordOk(c) && p + Tail(c) in keys)
    && (forall k :: k in keys && HasPrefix(p, k) ==> exists c :: c in C && k == p + Tail(c))
  }

  lemma ScanOne(keys: set<Bytes>, p: Bytes, C: set<Coord>, from: nat, to: nat, s: Bytes, k: Bytes) returns (c: Coord)
    requires FamilyKeys(keys, p, C) && from < TWO_64 && to + 1 < TWO_64 && BoundSuffix(s)
    requires k in keys && InRange(k, p + (Encode(from, 8) + s), Some(p + (Encode(to + 1, 8) + s)))
    ensures c in C && k == p + Tail(c) && from <= c.0 <= to
  {
    RangeKeepsPrefix(p, Encode(from, 8) + s, Encode(to + 1, 8) + s, k);
    c :| c in C && k == p + Tail(c);
    assert k[|p|..] == Tail(c);
    TailInRange(c, from, to, s);
  }

  lemma ScanBack(keys: set<Bytes>, p: Bytes, C: set<Coord>, from: nat, to: nat, s: Bytes, c: Coord)
    requires FamilyKeys(keys, p, C) && from < TWO_64 && to + 1 < TWO_64 && BoundSuffix(s)
    requires c in C && from <= c.0 <= to
    ensures p + Tail(c) in keys && InRange(p + Tail(c), p + (Encode(from, 8) + s), Some(p + (Encode(to + 1, 8) + s)))
  {
    TailInRange(c, from, to, s);
    LessByParts(p, Tail(c), p, Encode(from, 8) + s);
    LessByParts(p, Tail(c), p, Encode(to + 1, 8) + s);
    LessTotal(p, p);
  }

  /** An ordered scan of a key family yields the coordinates in the height range, in order. */
  lemma ScanLists(keys: set<Bytes>, p: Bytes, C: set<Coord>, from: nat, to: nat, s: Bytes, ks: seq<Bytes>)
      returns (cs: seq<Coord>)
    requires FamilyKeys(keys, p, C) && from < TWO_64 && to + 1 < TWO_64 && BoundSuffix(s)
    requires Iteration(keys, p + (Encode(from, 8) + s), Some(p + (Encode(to + 1, 8) + s)), ks)
    ensures |cs| == |ks| && Lists(C, from, to, cs)
    ensures forall j :: 0 <= j < |ks| ==> cs[j] in C && ks[j] == p + Tail(cs[j])
  {
    cs := [];
    for i := 0 to |ks|
      invariant |cs| == i
      invariant forall j :: 0 <= j < i ==> cs[j] in C && ks[j] == p + Tail(cs[j]) && from <= cs[j].0 <= to
    {
      assert ks[i] in ks;
      var c := ScanOne(keys, p, C, from, to, s, ks[i]);
      cs := cs + [c];
    }
    forall i, j | 0 <= i < j < |cs| ensures CoordLess(cs[i], cs[j]) {
      TailOrder(cs[i], cs[j]);
      LessByParts(p, Tail(cs[i]), p, Tail(cs[j]));
      LessTotal(p, p);
      assert Less(ks[i], ks[j]);
    }
    forall c | c in C && from <= c.0 <= to ensures c in cs {
      ScanBack(keys, p, C, from, to, s, c);
      var j :| 0 <= j < |ks| && ks[j] == p + Tail(c);
      assert Tail(cs[j]) == ks[j][|p|..] == Tail(c);
      TailOrder(cs[j], c);
    }
  }

  /** A range whose end is not after its start is empty. */
  lemma EmptyRange(k: Bytes, start: Bytes, end: Bytes)
    requires !Less(start, end)
    ensures !InRange(k, start, Some(end))
  {
    LessTotal(k, start);
    if Less(start, k) && Less(k, end) { LessTransitive(start, k, end); }
  }

  /** With the largest block number as the upper bound the end height wraps to 0 and the scan is empty. */
  lemma WrappedScanIsEmpty(keys: set<Bytes>, p: Bytes, from: nat, s: Bytes, ks: seq<Bytes>)
    requires from < TWO_64
    requires Iteration(keys, p + (Encode(from, 8) + s), Some(p + (Encode(0, 8) + s)), ks)
    ensures ks == []
  {
    var start, end := p + (Encode(from, 8) + s), p + (Encode(0, 8) + s);
    Widths();
    EncodeOrder(from, 0, 8);
    LessTotal(p, p);
    LessTotal(s, s);
    LessByParts(p, Encode(from, 8) + s, p, Encode(0, 8) + s);
    LessByParts(Encode(from, 8), s, Encode(0, 8), s);
    assert |ks| > 0 ==> ks[0] in ks;
    if |ks| > 0 { EmptyRange(ks[0], start, end); }
  }

  // ---- what the database stands for ----

  /** The two indexes, the contract IDs and the last ID given out. */
  datatype Model = Model(
    blocks: map<Coord, Event>,
    contracts: map<(nat, Coord), Event>,
    ids: map<Bytes, nat>,
    last: nat)

  const EMPTY: Model := Model(map[], map[], map[], 0)

  ghost predicate CoordsOk(m: Model) {
    && (forall c :: c in m.blocks ==> CoordOk(c))
    && (forall k :: k in m.contracts ==> k.0 < TWO_64 && CoordOk(k.1))
  }

  ghost predicate ModelOk(m: Model) {
    && m.last < TWO_64
    && (forall n :: n in m.ids ==> 1 <= m.ids[n] <= m.last)
    && (forall n, n' :: n in m.ids && n' in m.ids && m.ids[n] == m.ids[n'] ==> n == n')
    && CoordsOk(m)
  }

  ghost predicate NameOk(db: Db, m: Model, n: Bytes) {
    (NameKey(n) in db <==> n in m.ids) && (n in m.ids ==> db[NameKey(n)] == Encode(m.ids[n], 8))
  }

  ghost predicate NamesOk(db: Db, m: Model) {
    && (forall n :: NameOk(db, m, n))
    && (if LAST_ID_KEY in db then db[LAST_ID_KEY] == Encode(m.last, 8) else m.last == 0)
  }

  ghost predicate BlocksOk(codec: Codec, db: Db, m: Model) {
    && FamilyKeys(db.Keys, BLOCK_PREFIX, m.blocks.Keys)
    && forall c :: c in m.blocks ==> db[BlockKey(c)] == codec.marshal(m.blocks[c])
  }

  /** The coordinates filed under one contract ID. */
  ghost function Under(m: Model, id: nat): (C: set<Coord>)
    ensures forall c :: c in C <==> (id, c) in m.contracts
  {
    var C := set k | k in m.contracts.Keys && k.0 == id :: k.1;
    assert forall c :: (id, c) in m.contracts ==> (id, c).1 in C;
    C
  }

  /** The events filed under one contract ID. */
  ghost function Of(m: Model, id: nat): (es: map<Coord, Event>)
    ensures forall c :: c in es <==> (id, c) in m.contracts
    ensures forall c :: c in es ==> es[c] == m.contracts[(id, c)]
  {
    map c | c in Under(m, id) :: m.contracts[(id, c)]
  }

  ghost predicate ContractOk(codec: Codec, db: Db, m: Model, id: nat) {
    && FamilyKeys(db.Keys, ContractPart(id), Under(m, id))
    && forall c :: c in Under(m, id) ==> db[ContractKey(id, c)] == codec.marshal(m.contracts[(id, c)])
  }

  ghost predicate Represents(codec: Codec, db: Db, m: Model) {
    && ModelOk(m) && NamesOk(db, m) && BlocksOk(codec, db, m)
    && forall id: nat :: id < TWO_64 ==> ContractOk(codec, db, m, id)
  }

  lemma KeysApart(c: Coord, id: nat, c': Coord, name: Bytes)
    ensures BlockKey(c)[0] == 1 && ContractKey(id, c')[0] == 3 && NameKey(name)[0] == 2 && LAST_ID_KEY[0] == 5
  {
  }

  lemma PartsApart(id: nat, id': nat, c: Coord)
    requires id < TWO_64 && id' < TWO_64 && HasPrefix(ContractPart(id), ContractKey(id', c))
    ensures id == id'
  {
    var k := ContractKey(id', c);
    assert ContractPart(id)[2..10] == Encode(id, 8) && ContractPart(id')[2..10] == Encode(id', 8);
    assert k[2..10] == ContractPart(id')[2..10] && k[2..10] == ContractPart(id)[2..10];
    Widths();
    EncodeOrder(id, id', 8);
  }

  // ---- saving an event ----

  /** Filing an event in both indexes, replacing whatever is there. */
  ghost function Put(m: Model, id: nat, c: Coord, e: Event): Model {
    m.(blocks := m.blocks[c := e], contracts := m.contracts[(id, c) := e])
  }

  function SaveKeys(codec: Codec, db: Db, id: nat, c: Coord, e: Event): Db {
    db[BlockKey(c) := codec.marshal(e)][ContractKey(id, c) := codec.marshal(e)]
  }

  lemma FamilyGrows(keys: set<Bytes>, more: set<Bytes>, p: Bytes, C: set<Coord>, c: Coord)
    requires FamilyKeys(keys, p, C) && CoordOk(c)
    requires forall k :: k in more && HasPrefix(p, k) ==> k in keys || k == p + Tail(c)
    requires keys <= more && p + Tail(c) in more
    ensures FamilyKeys(more, p, C + {c})
  {
    forall k | k in more && HasPrefix(p, k) ensures exists c' :: c' in C + {c} && k == p + Tail(c') {
      if k in keys {
        var c' :| c' in C && k == p + Tail(c');
        assert c' in C + {c};
      } else {
        assert c in C + {c};
      }
    }
  }

  lemma FamilySame(keys: set<Bytes>, more: set<Bytes>, p: Bytes, C: set<Coord>)
    requires FamilyKeys(keys, p, C) && keys <= more
    requires forall k :: k in more && HasPrefix(p, k) ==> k in keys
    ensures FamilyKeys(more, p, C)
  {
  }

  lemma BlockKeys(codec: Codec, db: Db, id: nat, c: Coord, c': Coord, e: Event)
    requires CoordOk(c) && CoordOk(c')
    ensures var db' := SaveKeys(codec, db, id, c, e);
      if c' == c then db'[BlockKey(c')] == codec.marshal(e)
      else BlockKey(c') in db ==> db'[BlockKey(c')] == db[BlockKey(c')]
  {
    KeysApart(c', id, c, []);
    TailOrder(c, c');
    assert BlockKey(c)[2..] == Tail(c) && BlockKey(c')[2..] == Tail(c');
  }

  lemma SaveBlocks(codec: Codec, db: Db, m: Model, id: nat, c: Coord, e: Event)
    requires BlocksOk(codec, db, m) && CoordOk(c)
    ensures BlocksOk(codec, SaveKeys(codec, db, id, c, e), Put(m, id, c, e))
  {
    var db', m' := SaveKeys(codec, db, id, c, e), Put(m, id, c, e);
    KeysApart(c, id, c, []);
    FamilyGrows(db.Keys, db'.Keys, BLOCK_PREFIX, m.blocks.Keys, c);
    assert m'.blocks.Keys == m.blocks.Keys + {c};
    forall c' | c' in m'.blocks ensures db'[BlockKey(c')] == codec.marshal(m'.blocks[c']) {
      BlockKeys(codec, db, id, c, c', e);
    }
  }

  lemma ContractKeysAt(codec: Codec, db: Db, id: nat, c: Coord, id': nat, c': Coord, e: Event)
    requires CoordOk(c) && CoordOk(c') && id < TWO_64 && id' < TWO_64
    ensures var db' := SaveKeys(codec, db, id, c, e);
      if (id', c') == (id, c) then db'[ContractKey(id', c')] == codec.marshal(e)
      else ContractKey(id', c') in db ==> db'[ContractKey(id', c')] == db[ContractKey(id', c')]
  {
    KeysApart(c, id', c', []);
    TailOrder(c, c');
    assert ContractKey(id', c')[11..] == Tail(c') && ContractKey(id, c)[11..] == Tail(c);
    if ContractKey(id', c') == ContractKey(id, c) { PartsApart(id', id, c); }
  }

  lemma SaveOtherContract(codec: Codec, db: Db, id: nat, c: Coord, e: Event, other: nat, C: set<Coord>)
    requires id < TWO_64 && other < TWO_64 && id != other && FamilyKeys(db.Keys, ContractPart(other), C)
    ensures FamilyKeys(SaveKeys(codec, db, id, c, e).Keys, ContractPart(other), C)
  {
    var db' := SaveKeys(codec, db, id, c, e);
    forall k | k in db'.Keys && HasPrefix(ContractPart(other), k) ensures k in db.Keys {
      KeysApart(c, id, c, []);
      if k == ContractKey(id, c) { PartsApart(other, id, c); }
    }
    FamilySame(db.Keys, db'.Keys, ContractPart(other), C);
  }

  lemma SaveSameContract(codec: Codec, db: Db, id: nat, c: Coord, e: Event, C: set<Coord>)
    requires CoordOk(c) && FamilyKeys(db.Keys, ContractPart(id), C)
    ensures FamilyKeys(SaveKeys(codec, db, id, c, e).Keys, ContractPart(id), C + {c})
  {
    var db' := SaveKeys(codec, db, id, c, e);
    KeysApart(c, id, c, []);
    FamilyGrows(db.Keys, db'.Keys, ContractPart(id), C, c);
  }

  lemma SaveContract(codec: Codec, db: Db, m: Model, id: nat, c: Coord, e: Event, other: nat)
    requires ModelOk(m) && CoordOk(c) && id < TWO_64 && other < TWO_64 && ContractOk(codec, db, m, other)
    ensures ContractOk(codec, SaveKeys(codec, db, id, c, e), Put(m, id, c, e), other)
  {
    var db', m' := SaveKeys(codec, db, id, c, e), Put(m, id, c, e);
    if other == id {
      SaveSameContract(codec, db, id, c, e, Under(m, id));
      assert Under(m', id) == Under(m, id) + {c};
    } else {
      SaveOtherContract(codec, db, id, c, e, other, Under(m, other));
      assert Under(m', other) == Under(m, other);
    }
    forall c' | c' in Under(m', other) ensures db'[ContractKey(other, c')] == codec.marshal(m'.contracts[(other, c')]) {
      ContractKeysAt(codec, db, id, c, other, c', e);
    }
  }

  lemma SaveNames(codec: Codec, db: Db, m: Model, id: nat, c: Coord, e: Event)
    requires NamesOk(db, m)
    ensures NamesOk(SaveKeys(codec, db, id, c, e), Put(m, id, c, e))
  {
    var db' := SaveKeys(codec, db, id, c, e);
    KeysApart(c, id, c, []);
    forall n ensures NameOk(db', Put(m, id, c, e), n) {
      assert NameOk(db, m, n);
      KeysApart(c, id, c, n);
    }
  }

  /** Writing both keys of an event files it in both indexes and changes nothing else. */
  lemma SaveRepresents(codec: Codec, db: Db, m: Model, id: nat, c: Coord, e: Event)
    requires Represents(codec, db, m) && CoordOk(c) && id < TWO_64
    ensures Represents(codec, SaveKeys(codec, db, id, c, e), Put(m, id, c, e))
  {
    var db', m' := SaveKeys(codec, db, id, c, e), Put(m, id, c, e);
    SaveNames(codec, db, m, id, c, e);
    SaveBlocks(codec, db, m, id, c, e);
    forall other: nat | other < TWO_64 ensures ContractOk(codec, db', m', other) {
      SaveContract(codec, db, m, id, c, e, other);
    }
  }

  // ---- contract IDs ----

  ghost function WithId(m: Model, name: Bytes): Model {
    if name in m.ids then m else m.(ids := m.ids[name := m.last + 1], last := m.last + 1)
  }

  function IdKeys(db: Db, name: Bytes, id: nat): Db {
    db[LAST_ID_KEY := Encode(id, 8)][NameKey(name) := Encode(id, 8)]
  }

  lemma NameKeys(n: Bytes, n': Bytes)
    ensures NameKey(n) == NameKey(n') <==> n == n'
    ensures NameKey(n) != LAST_ID_KEY && NameKey(n)[0] == 2
  {
    assert NameKey(n)[2..] == n && NameKey(n')[2..] == n';
    assert LAST_ID_KEY[0] == 5;
  }

  lemma IdNames(db: Db, m: Model, name: Bytes)
    requires NamesOk(db, m) && name !in m.ids
    ensures NamesOk(IdKeys(db, name, m.last + 1), WithId(m, name))
  {
    var db', m' := IdKeys(db, name, m.last + 1), WithId(m, name);
    forall n ensures NameOk(db', m', n) { IdNameAt(db, m, name, n); }
    NameKeys(name, name);
  }

  lemma IdNameAt(db: Db, m: Model, name: Bytes, n: Bytes)
    requires NameOk(db, m, n) && name !in m.ids
    ensures NameOk(IdKeys(db, name, m.last + 1), WithId(m, name), n)
  {
    NameKeys(n, name);
  }

  /** Key families that start with another byte do not see the ID keys. */
  lemma IdFamily(db: Db, name: Bytes, id: nat, p: Bytes, C: set<Coord>)
    requires p != [] && (p[0] == 1 || p[0] == 3) && FamilyKeys(db.Keys, p, C)
    ensures FamilyKeys(IdKeys(db, name, id).Keys, p, C)
  {
    var db' := IdKeys(db, name, id);
    NameKeys(name, name);
    forall k | k in db'.Keys && HasPrefix(p, k) ensures k in db.Keys { assert k[0] == p[0]; }
    FamilySame(db.Keys, db'.Keys, p, C);
  }

  lemma IdBlocks(codec: Codec, db: Db, m: Model, name: Bytes)
    requires BlocksOk(codec, db, m) && name !in m.ids
    ensures BlocksOk(codec, IdKeys(db, name, m.last + 1), WithId(m, name))
  {
    var db' := IdKeys(db, name, m.last + 1);
    IdFamily(db, name, m.last + 1, BLOCK_PREFIX, m.blocks.Keys);
    forall c | c in m.blocks ensures db'[BlockKey(c)] == db[BlockKey(c)] { KeysApart(c, 0, c, name); }
  }

  lemma IdContract(codec: Codec, db: Db, m: Model, name: Bytes, id: nat)
    requires ContractOk(codec, db, m, id) && name !in m.ids
    ensures ContractOk(codec, IdKeys(db, name, m.last + 1), WithId(m, name), id)
  {
    var db', m' := IdKeys(db, name, m.last + 1), WithId(m, name);
    assert ContractPart(id)[0] == 3;
    IdFamily(db, name, m.last + 1, ContractPart(id), Under(m, id));
    assert Under(m', id) == Under(m, id);
    forall c | c in Under(m, id) ensures db'[ContractKey(id, c)] == db[ContractKey(id, c)] {
      KeysApart(c, id, c, name);
    }
  }

  lemma WithIdOk(m: Model, name: Bytes)
    requires ModelOk(m) && (name in m.ids || m.last + 1 < TWO_64)
    ensures ModelOk(WithId(m, name)) && name in WithId(m, name).ids
    ensures forall k :: k in m.ids ==> k in WithId(m, name).ids && WithId(m, name).ids[k] == m.ids[k]
  {
    var w := WithId(m, name);
    forall n, n' | n in w.ids && n' in w.ids && w.ids[n] == w.ids[n'] ensures n == n' {
      assert n in m.ids ==> m.ids[n] <= m.last;
      assert n' in m.ids ==> m.ids[n'] <= m.last;
    }
  }

  /** Giving a new name the next ID changes nothing else. */
  lemma IdRepresents(codec: Codec, db: Db, m: Model, name: Bytes)
    requires Represents(codec, db, m) && name !in m.ids && m.last + 1 < TWO_64
    ensures Represents(codec, IdKeys(db, name, m.last + 1), WithId(m, name))
  {
    var db', m' := IdKeys(db, name, m.last + 1), WithId(m, name);
    WithIdOk(m, name);
    IdNames(db, m, name);
    IdBlocks(codec, db, m, name);
    forall id: nat | id < TWO_64 ensures ContractOk(codec, db', m', id) { IdContract(codec, db, m, name, id); }
  }

  /** IDs for the names of the first n events. */
  ghost function WithIds(m: Model, es: seq<Event>, n: nat): Model
    requires n <= |es|
  {
    if n == 0 then m else WithId(WithIds(m, es, n - 1), Name(es[n - 1]))
  }

  lemma {:induction false} IdsOk(m: Model, es: seq<Event>, n: nat)
    requires n <= |es| && ModelOk(m) && m.last + n < TWO_64
    ensures ModelOk(WithIds(m, es, n)) && WithIds(m, es, n).last <= m.last + n
    ensures WithIds(m, es, n).blocks == m.blocks && WithIds(m, es, n).contracts == m.contracts
  {
    if n > 0 {
      IdsOk(m, es, n - 1);
      WithIdOk(WithIds(m, es, n - 1), Name(es[n - 1]));
    }
  }

  lemma {:induction false} IdKept(m: Model, es: seq<Event>, n: nat, name: Bytes)
    requires n <= |es| && name in m.ids
    ensures name in WithIds(m, es, n).ids && WithIds(m, es, n).ids[name] == m.ids[name]
  {
    if n > 0 { IdKept(m, es, n - 1, name); }
  }

  lemma {:induction false} IdGiven(m: Model, es: seq<Event>, n: nat, i: nat)
    requires i < n <= |es|
    ensures Name(es[i]) in WithIds(m, es, n).ids
  {
    if i < n - 1 { IdGiven(m, es, n - 1, i); }
  }

  /** Whatever names are asked for, IDs once given stay the same and no two names share one. */
  lemma IdsStable(m: Model, es: seq<Event>, n: nat, name: Bytes, name': Bytes)
    requires n <= |es| && ModelOk(m) && m.last + n < TWO_64
    ensures var w := WithIds(m, es, n);
      && (name in m.ids ==> name in w.ids && w.ids[name] == m.ids[name])
      && (name in w.ids && name' in w.ids && name != name' ==> w.ids[name] != w.ids[name'])
  {
    IdsOk(m, es, n);
    if name in m.ids { IdKept(m, es, n, name); }
  }

  // ---- batches ----

  /** The coordinate of a batch's event: its block and its position, as a uint16. */
  function BatchCoord(es: seq<Event>, i: nat): Coord
    requires i < |es|
  { (es[i].height, i % TWO_16) }

  predicate HeightsOk(es: seq<Event>) { forall i :: 0 <= i < |es| ==> es[i].height < TWO_64 }

  predicate Collide(es: seq<Event>, i: nat, j: nat) { i < j < |es| && BatchCoord(es, i) == BatchCoord(es, j) }

  ghost predicate Named(m: Model, es: seq<Event>) { forall i :: 0 <= i < |es| ==> Name(es[i]) in m.ids }

  /** Filing a batch one event after the other. */
  ghost function SaveAll(m: Model, es: seq<Event>, n: nat): (w: Model)
    requires n <= |es| && Named(m, es)
    ensures w.ids == m.ids && w.last == m.last
  {
    if n == 0 then m
    else Put(SaveAll(m, es, n - 1), m.ids[Name(es[n - 1])], BatchCoord(es, n - 1), es[n - 1])
  }

  /** Two events of a batch collide if and only if they are of one block and a multiple of 65536 positions
      apart. */
  lemma CollideExactlyWhen(es: seq<Event>, i: nat, j: nat)
    requires i < j < |es|
    ensures Collide(es, i, j) <==> es[i].height == es[j].height && (j - i) % TWO_16 == 0
    ensures |es| <= TWO_16 ==> !Collide(es, i, j)
  {
  }

  // ---- the store ----

  /** The smallest key of a set. */
  method Smallest(keys: set<Bytes>) returns (m: Bytes)
    requires keys != {}
    ensures m in keys && forall k :: k in keys ==> k == m || Less(m, k)
  {
    m :| m in keys;
    var rest := keys - {m};
    while rest != {}
      invariant m in keys && rest <= keys
      invariant forall k :: k in keys && k !in rest ==> k == m || Less(m, k)
      decreases |rest|
    {
      var k :| k in rest;
      rest := rest - {k};
      LessTotal(k, m);
      if Less(k, m) {
        forall k' | k' in keys && k' !in rest ensures k' == k || Less(k, k') {
          if k' != k && k' != m { LessTransitive(k, m, k'); }
        }
        m := k;
      }
    }
  }

  /** The database iterator over [start, end). */
  method Iterate(keys: set<Bytes>, start: Bytes, end: Option<Bytes>) returns (ks: seq<Bytes>)
    ensures Iteration(keys, start, end, ks)
  {
    var rest := set k | k in keys && InRange(k, start, end);
    ghost var all := rest;
    ks := [];
    while rest != {}
      invariant rest <= all && Ascending(ks)
      invariant forall k :: k in all <==> k in ks || k in rest
      invariant forall i, k :: 0 <= i < |ks| && k in rest ==> Less(ks[i], k)
      decreases |rest|
    {
      var m := Smallest(rest);
      ks := ks + [m];
      rest := rest - {m};
    }
  }

  datatype Pending = Pending(id: nat, coord: Coord, event: Event)

  /** The first n pending writes carry the events with their IDs and coordinates. */
  ghost predicate Resolved(m: Model, es: seq<Event>, batch: seq<Pending>, n: nat) {
    && |batch| == n <= |es|
    && forall j :: 0 <= j < n ==>
         Name(es[j]) in m.ids && batch[j] == Pending(m.ids[Name(es[j])], BatchCoord(es, j), es[j])
  }

  lemma ResolvedExtends(m: Model, es: seq<Event>, batch: seq<Pending>, i: nat)
    requires i < |es| && Resolved(m, es, batch, i)
    ensures var w := WithId(m, Name(es[i]));
      Resolved(w, es, batch + [Pending(w.ids[Name(es[i])], BatchCoord(es, i), es[i])], i + 1)
  {
  }

  lemma ResolvedNamed(m: Model, es: seq<Event>, batch: seq<Pending>)
    requires Resolved(m, es, batch, |es|)
    ensures Named(m, es)
  {
  }

  predicate CanWrite(p: Pending) { p.id < TWO_64 && CoordOk(p.coord) }

  /** Filing pending writes one after the other. */
  ghost function WriteAll(m: Model, batch: seq<Pending>, n: nat): Model
    requires n <= |batch|
  {
    if n == 0 then m
    else var p := batch[n - 1]; Put(WriteAll(m, batch, n - 1), p.id, p.coord, p.event)
  }

  lemma ResolvedCanBeWritten(m: Model, es: seq<Event>, batch: seq<Pending>)
    requires ModelOk(m) && HeightsOk(es) && Resolved(m, es, batch, |es|)
    ensures forall j :: 0 <= j < |batch| ==> CanWrite(batch[j])
  {
  }

  /** Writing a resolved batch files its events. */
  lemma {:induction false} WritesTheBatch(m: Model, es: seq<Event>, batch: seq<Pending>, n: nat)
    requires n <= |es| && Named(m, es) && Resolved(m, es, batch, |es|)
    ensures WriteAll(m, batch, n) == SaveAll(m, es, n)
  {
    if n > 0 {
      WritesTheBatch(m, es, batch, n - 1);
      assert batch[n - 1] == Pending(m.ids[Name(es[n - 1])], BatchCoord(es, n - 1), es[n - 1]);
    }
  }

  ghost predicate Known(events: map<Coord, Event>, cs: seq<Coord>) { forall j :: 0 <= j < |cs| ==> cs[j] in events }

  ghost function EventsAt(events: map<Coord, Event>, cs: seq<Coord>): seq<Event>
    requires Known(events, cs)
  {
    seq(|cs|, j requires 0 <= j < |cs| => events[cs[j]])
  }

  ghost predicate AnswersAt(events: map<Coord, Event>, from: nat, to: nat, r: seq<Event>, cs: seq<Coord>) {
    Lists(events.Keys, from, to, cs) && Known(events, cs) && r == EventsAt(events, cs)
  }

  /** The answer a height range should get: the events filed at those heights, in (height, index) order. */
  ghost predicate Answers(events: map<Coord, Event>, from: nat, to: nat, r: seq<Event>) {
    exists cs: seq<Coord> :: AnswersAt(events, from, to, r, cs)
  }

  /** What a query returns: the answer, except that a range up to the largest block number gets nothing. */
  ghost predicate Returns(events: map<Coord, Event>, from: nat, to: nat, r: seq<Event>) {
    if to < TWO_64 - 1 then Answers(events, from, to, r) else r == []
  }

  /** What the number keys of the database say. */
  lemma NumbersRead(codec: Codec, db: Db, m: Model, name: Bytes)
    requires Represents(codec, db, m)
    ensures ReadNumber(db, NameKey(name)) == if name in m.ids then m.ids[name] else 0
    ensures ReadNumber(db, LAST_ID_KEY) == m.last
    ensures name in m.ids ==> m.ids[name] > 0 && db[NameKey(name) := Encode(m.ids[name], 8)] == db
  {
    Widths();
    EncodeRoundTrip(m.last, 8);
    assert NameOk(db, m, name);
    if name in m.ids { EncodeRoundTrip(m.ids[name], 8); }
  }

  class KVEventStore {
    const codec: Codec
    var db: Db
    ghost var model: Model

    ghost predicate Valid()
      reads this
    { Faithful(codec) && Represents(codec, db, model) }

    constructor (codec: Codec)
      requires Faithful(codec)
      ensures this.codec == codec && Valid() && model == EMPTY
    {
      this.codec := codec;
      db, model := map[], EMPTY;
    }

    /** The ID of a contract name: the one it has, or the next one. */
    method GetContractID(name: Bytes) returns (id: nat)
      requires Valid() && (name in model.ids || model.last + 1 < TWO_64)
      modifies this
      ensures Valid() && model == WithId(old(model), name) && id == model.ids[name]
    {
      NumbersRead(codec, db, model, name);
      id := ReadNumber(db, NameKey(name));
      if id == 0 {
        IdRepresents(codec, db, model, name);
        var last := ReadNumber(db, LAST_ID_KEY);
        id := last + 1;
        db := db[LAST_ID_KEY := Encode(id, 8)];
        model := WithId(model, name);
      }
      db := db[NameKey(name) := Encode(id, 8)];
      assert model == WithId(old(model), name) && id == model.ids[name];
      assert db == if name in old(model).ids then old(db) else IdKeys(old(db), name, id);
    }

    /** Saves one event under both keys, replacing whatever they hold. */
    method SaveEvent(id: nat, c: Coord, e: Event)
      requires Valid() && CoordOk(c) && id < TWO_64
      modifies this
      ensures Valid() && model == Put(old(model), id, c, e)
    {
      SaveRepresents(codec, db, model, id, c, e);
      var data := codec.marshal(e);
      db := db[BlockKey(c) := data];
      db := db[ContractKey(id, c) := data];
      model := Put(model, id, c, e);
    }

    /** Resolves the contract ID of each event, in order. */
    method ResolveIDs(es: seq<Event>) returns (batch: seq<Pending>)
      requires Valid() && model.last + |es| < TWO_64
      modifies this
      ensures Valid() && model == WithIds(old(model), es, |es|) && Resolved(model, es, batch, |es|)
    {
      batch := [];
      for i := 0 to |es|
        invariant Valid() && model == WithIds(old(model), es, i) && Resolved(model, es, batch, i)
      {
        ghost var before := model;
        IdsOk(old(model), es, i);
        var id := GetContractID(Name(es[i]));
        ResolvedExtends(before, es, batch, i);
        batch := batch + [Pending(id, BatchCoord(es, i), es[i])];
      }
    }

    /** Writes the pending keys of a batch, in order. */
    method WriteBatch(batch: seq<Pending>)
      requires Valid() && forall j :: 0 <= j < |batch| ==> CanWrite(batch[j])
      modifies this
      ensures Valid() && model == WriteAll(old(model), batch, |batch|)
    {
      for i := 0 to |batch|
        invariant Valid() && model == WriteAll(old(model), batch, i)
      {
        SaveEvent(batch[i].id, batch[i].coord, batch[i].event);
      }
    }

    /** Saves a batch: IDs first, as they are met, then all keys at once, in order. */
    method BatchSaveEvents(es: seq<Event>)
      requires Valid() && HeightsOk(es) && model.last + |es| < TWO_64
      modifies this
      ensures Named(WithIds(old(model), es, |es|), es)
      ensures Valid() && model == SaveAll(WithIds(old(model), es, |es|), es, |es|)
    {
      var batch := ResolveIDs(es);
      ResolvedNamed(model, es, batch);
      ResolvedCanBeWritten(model, es, batch);
      WritesTheBatch(model, es, batch, |es|);
      WriteBatch(batch);
    }

    /** Decodes the values of the scanned keys. */
    method Collect(ks: seq<Bytes>, ghost p: Bytes, ghost events: map<Coord, Event>, ghost cs: seq<Coord>)
        returns (r: seq<Event>)
      requires Faithful(codec) && |cs| == |ks|
      requires forall j :: 0 <= j < |ks| ==> cs[j] in events && ks[j] == p + Tail(cs[j])
      requires forall c :: c in events ==> p + Tail(c) in db && db[p + Tail(c)] == codec.marshal(events[c])
      ensures Known(events, cs) && r == EventsAt(events, cs)
    {
      r := [];
      for i := 0 to |ks|
        invariant |r| == i
        invariant forall j :: 0 <= j < i ==> r[j] == events[cs[j]]
      {
        var e := codec.unmarshal(db[ks[i]]);
        r := r + [e.value];
      }
    }

    /** Scans the keys from start up to, and not including, end, where start is one key family's bound for
        the height `from` and end the bound for the height after `to`. */
    method Query(start: Bytes, end: Bytes,
                 ghost p: Bytes, ghost events: map<Coord, Event>, ghost from: nat, ghost to: nat, ghost s: Bytes)
        returns (r: seq<Event>)
      requires Faithful(codec) && from < TWO_64 && to < TWO_64 && BoundSuffix(s)
      requires start == p + (Encode(from, 8) + s) && end == p + (Encode((to + 1) % TWO_64, 8) + s)
      requires FamilyKeys(db.Keys, p, events.Keys)
      requires forall c :: c in events ==> db[p + Tail(c)] == codec.marshal(events[c])
      ensures Returns(events, from, to, r)
    {
      var ks := Iterate(db.Keys, start, Some(end));
      ghost var cs: seq<Coord> := [];
      if to == TWO_64 - 1 {
        assert (to + 1) % TWO_64 == 0;
        WrappedScanIsEmpty(db.Keys, p, from, s, ks);
      } else {
        assert (to + 1) % TWO_64 == to + 1;
        cs := ScanLists(db.Keys, p, events.Keys, from, to, s, ks);
      }
      r := Collect(ks, p, events, cs);
      assert to < TWO_64 - 1 ==> AnswersAt(events, from, to, r, cs);
    }

    /** The events with heights in [from, to], of one contract when a name is given. A name that has no
        ID yet gets one. */
    method FilterEvents(from: nat, to: nat, contract: Bytes) returns (r: seq<Event>)
      requires Valid() && from < TWO_64 && to < TWO_64
      requires contract != [] ==> contract in model.ids || model.last + 1 < TWO_64
      modifies this
      ensures Valid() && model == if contract == [] then old(model) else WithId(old(model), contract)
      ensures Returns(if contract == [] then model.blocks else Of(model, model.ids[contract]), from, to, r)
    {
      var next := (to + 1) % TWO_64;
      if contract != [] {
        var id := GetContractID(contract);
        BoundKeys(id, from);
        BoundKeys(id, next);
        assert ContractOk(codec, db, model, id);
        assert Of(model, id).Keys == Under(model, id);
        r := Query(ContractBound(id, from), ContractBound(id, next), ContractPart(id), Of(model, id), from, to, []);
      } else {
        BoundKeys(0, from);
        BoundKeys(0, next);
        assert BlocksOk(codec, db, model);
        forall c | c in model.blocks ensures db[BLOCK_PREFIX + Tail(c)] == codec.marshal(model.blocks[c]) {
          assert BlockKey(c) == BLOCK_PREFIX + Tail(c);
        }
        r := Query(BlockKey((from, 0)), BlockKey((next, 0)), BLOCK_PREFIX, model.blocks, from, to, [0, 0, 0]);
      }
    }
  }
}

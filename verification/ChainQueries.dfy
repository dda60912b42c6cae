/** Log queries over a whole chain, stated from the committed blocks themselves: what a query of a block or
    of a range returns, entry by entry and in order. */
module ChainQueries {
  import opened Basics
  import opened LogQuery

  // ---- the receipts that count ----

  /** The block has a receipt with a hash at position p. */
  predicate Present(b: Block, p: int) {
    0 <= p < |b.receipts| && b.receipts[p].Some? && b.receipts[p].value.txHash != []
  }

  function HashAt(b: Block, p: int): Bytes
    requires Present(b, p)
  { b.receipts[p].value.txHash }

  /** The last of the first n receipts with this hash, -1 when there is none. */
  function LastWith(b: Block, hash: Bytes, n: nat): (q: int)
    requires n <= |b.receipts|
    ensures -1 <= q < n
    ensures q >= 0 ==> Present(b, q) && HashAt(b, q) == hash
    ensures forall r :: q < r < n && Present(b, r) ==> HashAt(b, r) != hash
  {
    if n == 0 then -1
    else if Present(b, n - 1) && HashAt(b, n - 1) == hash then n - 1
    else LastWith(b, hash, n - 1)
  }

  /** The receipt that counts for the transaction at position p: the last one of the block with its hash. */
  function Counting(b: Block, p: int): Receipt
    requires Present(b, p)
  {
    var q := LastWith(b, HashAt(b, p), |b.receipts|);
    assert q >= p;
    b.receipts[q].value
  }

  /** No transaction is in both blocks. */
  ghost predicate Apart(b: Block, c: Block) {
    forall p, q :: Present(b, p) && Present(c, q) ==> HashAt(b, p) != HashAt(c, q)
  }

  /** A height with receipts is not used again, and a transaction is in one block only. */
  ghost predicate DistinctChain(blocks: seq<Block>) {
    forall i, j :: 0 <= i < j < |blocks| ==>
      && (blocks[i].receipts != [] ==> blocks[i].height != blocks[j].height)
      && Apart(blocks[i], blocks[j])
  }

  // ---- what a chain of commits leaves ----

  /** Adding the receipt at p to those stored before it. */
  function StoredWith(b: Block, p: nat, stored: seq<Receipt>): seq<Receipt>
    requires p < |b.receipts|
  { if Present(b, p) then stored + [b.receipts[p].value] else stored }

  lemma {:induction false} StoredStep(b: Block, p: nat)
    requires p < |b.receipts|
    ensures Stored(b.receipts[..p + 1]) == StoredWith(b, p, Stored(b.receipts[..p]))
  {
    StoredNext(b.receipts, p);
  }

  lemma {:induction false} StoredHashesNext(b: Block, p: nat, stored: seq<Receipt>, hash: Bytes)
    requires p < |b.receipts| && (hash in HashesOf(stored) <==> LastWith(b, hash, p) >= 0)
    ensures hash in HashesOf(StoredWith(b, p, stored)) <==> LastWith(b, hash, p + 1) >= 0
  {
    if Present(b, p) { AppendReceipt(map[], stored, b.receipts[p].value); }
  }

  lemma {:induction false} StoredHashes(b: Block, n: nat, hash: Bytes)
    requires n <= |b.receipts|
    ensures hash in HashesOf(Stored(b.receipts[..n])) <==> LastWith(b, hash, n) >= 0
  {
    if n > 0 {
      var p := n - 1;
      StoredHashes(b, p, hash);
      StoredStep(b, p);
      StoredHashesNext(b, p, Stored(b.receipts[..p]), hash);
    }
  }

  /** The receipt map w is m with the last receipt of this hash among the first n of the block, if any. */
  ghost predicate Updated(m: map<Bytes, Receipt>, w: map<Bytes, Receipt>, b: Block, n: nat, hash: Bytes)
    requires n <= |b.receipts|
  {
    var q := LastWith(b, hash, n);
    if q >= 0 then hash in w && w[hash] == b.receipts[q].value
    else (hash in w <==> hash in m) && (hash in m ==> w[hash] == m[hash])
  }

  lemma {:induction false} UpdatedNext(m: map<Bytes, Receipt>, b: Block, p: nat, stored: seq<Receipt>, hash: Bytes)
    requires p < |b.receipts| && Updated(m, WithReceipts(m, stored), b, p, hash)
    ensures Updated(m, WithReceipts(m, StoredWith(b, p, stored)), b, p + 1, hash)
  {
    if Present(b, p) { AppendReceipt(m, stored, b.receipts[p].value); }
  }

  lemma {:induction false} StoredReceipts(m: map<Bytes, Receipt>, b: Block, n: nat, hash: Bytes)
    requires n <= |b.receipts|
    ensures Updated(m, WithReceipts(m, Stored(b.receipts[..n])), b, n, hash)
  {
    if n > 0 {
      var p := n - 1;
      StoredReceipts(m, b, p, hash);
      StoredStep(b, p);
      UpdatedNext(m, b, p, Stored(b.receipts[..p]), hash);
    }
  }

  /** The chain state has the block: its transactions listed in order, the counting receipts stored. */
  ghost predicate Holds(s: State, b: Block) {
    && Listed(s, b.height) == HashesOf(Stored(b.receipts))
    && forall p :: Present(b, p) ==> HashAt(b, p) in s.receipts && s.receipts[HashAt(b, p)] == Counting(b, p)
  }

  lemma CommitHolds(bloom: Bloom, s: State, b: Block)
    requires b.receipts != [] && Listed(s, b.height) == []
    ensures Holds(Commit(bloom, s, b.receipts, b.height), b)
  {
    var t := Commit(bloom, s, b.receipts, b.height);
    assert b.receipts[..|b.receipts|] == b.receipts;
    forall p | Present(b, p) ensures HashAt(b, p) in t.receipts && t.receipts[HashAt(b, p)] == Counting(b, p) {
      StoredReceipts(s.receipts, b, |b.receipts|, HashAt(b, p));
    }
  }

  lemma CommitKeepsHeld(bloom: Bloom, s: State, b: Block, c: Block)
    requires Holds(s, b) && b.height != c.height && Apart(b, c)
    ensures Holds(Commit(bloom, s, c.receipts, c.height), b)
  {
    var t := Commit(bloom, s, c.receipts, c.height);
    assert c.receipts[..|c.receipts|] == c.receipts;
    forall p | Present(b, p) ensures HashAt(b, p) in t.receipts && t.receipts[HashAt(b, p)] == Counting(b, p) {
      StoredReceipts(s.receipts, c, |c.receipts|, HashAt(b, p));
    }
  }

  lemma {:induction false} UnusedHeight(bloom: Bloom, blocks: seq<Block>, h: nat)
    requires forall i :: 0 <= i < |blocks| && blocks[i].receipts != [] ==> blocks[i].height != h
    ensures h !in CommitAll(bloom, blocks).hashes && h !in CommitAll(bloom, blocks).blooms
    decreases |blocks|
  {
    if blocks != [] { UnusedHeight(bloom, blocks[..|blocks| - 1], h); }
  }

  /** After any chain of distinct blocks every block with receipts is held. */
  lemma {:induction false} ChainHolds(bloom: Bloom, blocks: seq<Block>, i: nat)
    requires DistinctChain(blocks) && i < |blocks| && blocks[i].receipts != []
    ensures Holds(CommitAll(bloom, blocks), blocks[i])
    decreases |blocks|
  {
    var init, last := blocks[..|blocks| - 1], blocks[|blocks| - 1];
    var s := CommitAll(bloom, init);
    if i < |init| {
      ChainHolds(bloom, init, i);
      CommitKeepsHeld(bloom, s, blocks[i], last);
    } else {
      UnusedHeight(bloom, init, last.height);
      CommitHolds(bloom, s, last);
    }
  }

  lemma {:induction false} ListedComes(bloom: Bloom, blocks: seq<Block>, h: nat, hash: Bytes)
    ensures h in CommitAll(bloom, blocks).hashes ==>
              exists i :: 0 <= i < |blocks| && blocks[i].height == h && blocks[i].receipts != []
    ensures hash in Listed(CommitAll(bloom, blocks), h) ==>
              exists i :: 0 <= i < |blocks| && LastWith(blocks[i], hash, |blocks[i].receipts|) >= 0
    decreases |blocks|
  {
    if blocks != [] {
      var init, last := blocks[..|blocks| - 1], blocks[|blocks| - 1];
      ListedComes(bloom, init, h, hash);
      StoredHashes(last, |last.receipts|, hash);
      assert last.receipts[..|last.receipts|] == last.receipts;
      if i :| 0 <= i < |init| && init[i].height == h && init[i].receipts != [] { assert init[i] == blocks[i]; }
      if i :| 0 <= i < |init| && LastWith(init[i], hash, |init[i].receipts|) >= 0 { assert init[i] == blocks[i]; }
    }
  }

  lemma FreshInChain(bloom: Bloom, blocks: seq<Block>, b: Block)
    requires forall i :: 0 <= i < |blocks| ==>
      (blocks[i].receipts != [] ==> blocks[i].height != b.height) && Apart(blocks[i], b)
    ensures FreshBlock(CommitAll(bloom, blocks), b.receipts, b.height)
  {
    var s, stored := CommitAll(bloom, blocks), Stored(b.receipts);
    ListedComes(bloom, blocks, b.height, []);
    assert b.receipts[..|b.receipts|] == b.receipts;
    forall g, k | g in s.hashes && 0 <= k < |stored| ensures stored[k].txHash !in s.hashes[g] {
      var hash := stored[k].txHash;
      assert HashesOf(stored)[k] == hash;
      StoredHashes(b, |b.receipts|, hash);
      ListedComes(bloom, blocks, g, hash);
    }
  }

  lemma {:induction false} ListedStays(bloom: Bloom, blocks: seq<Block>, i: nat, hash: Bytes)
    requires i < |blocks| && blocks[i].receipts != []
    ensures blocks[i].height in CommitAll(bloom, blocks).hashes
    ensures LastWith(blocks[i], hash, |blocks[i].receipts|) >= 0 ==>
              hash in CommitAll(bloom, blocks).hashes[blocks[i].height]
    decreases |blocks|
  {
    var init, last := blocks[..|blocks| - 1], blocks[|blocks| - 1];
    if i < |init| {
      ListedStays(bloom, init, i, hash);
    } else {
      StoredHashes(last, |last.receipts|, hash);
      assert last.receipts[..|last.receipts|] == last.receipts;
    }
  }

  lemma FreshIsApart(bloom: Bloom, blocks: seq<Block>, b: Block, i: nat)
    requires FreshBlock(CommitAll(bloom, blocks), b.receipts, b.height) && i < |blocks|
    ensures (blocks[i].receipts != [] ==> blocks[i].height != b.height) && Apart(blocks[i], b)
  {
    var c, stored := blocks[i], Stored(b.receipts);
    if c.receipts != [] { ListedStays(bloom, blocks, i, []); }
    forall p, q | Present(c, p) && Present(b, q) ensures HashAt(c, p) != HashAt(b, q) {
      var hash := HashAt(c, p);
      assert LastWith(c, hash, |c.receipts|) >= p;
      ListedStays(bloom, blocks, i, hash);
      StoredHashes(b, |b.receipts|, HashAt(b, q));
      assert b.receipts[..|b.receipts|] == b.receipts;
      assert LastWith(b, HashAt(b, q), |b.receipts|) >= q;
      var k :| 0 <= k < |stored| && HashesOf(stored)[k] == HashAt(b, q);
      assert stored[k].txHash == HashAt(b, q);
    }
  }

  /** Every block is committed once, with its own receipts, if and only if the blocks are distinct. */
  lemma OnceExactlyWhen(bloom: Bloom, blocks: seq<Block>)
    ensures EachOnce(bloom, blocks) <==> DistinctChain(blocks)
  {
    if DistinctChain(blocks) {
      forall i | 0 <= i < |blocks|
        ensures FreshBlock(CommitAll(bloom, blocks[..i]), blocks[i].receipts, blocks[i].height)
      {
        FreshInChain(bloom, blocks[..i], blocks[i]);
      }
    }
    if EachOnce(bloom, blocks) {
      forall i, j | 0 <= i < j < |blocks|
        ensures blocks[i].receipts != [] ==> blocks[i].height != blocks[j].height
        ensures Apart(blocks[i], blocks[j])
      {
        FreshIsApart(bloom, blocks[..j], blocks[j], i);
      }
    }
  }

  // ---- what a query of one block returns ----

  /** Log l of the transaction at position p matches the filter. */
  ghost predicate Selected(b: Block, f: Filter, p: int, l: int) {
    Present(b, p) && 0 <= l < |Counting(b, p).logs| && Matches(f, Counting(b, p).logs[l])
  }

  /** e reports log l of the receipt r. */
  ghost predicate IsEntry(e: FilterLog, r: Receipt, l: int, times: Times) {
    && 0 <= l < |r.logs| && e.logIndex == l && e.txHash == r.txHash && e.txIndex == r.txIndex
    && e.blockHash == r.blockHash && e.blockNumber == r.blockNumber
    && e.address == r.logs[l].address && e.topics == r.logs[l].topics && e.data == r.logs[l].body
    && r.blockNumber in times && e.blockTime == times[r.blockNumber]
  }

  type Position = (int, int)

  predicate PositionLess(a: Position, b: Position) { a.0 < b.0 || (a.0 == b.0 && a.1 < b.1) }

  ghost predicate AscendingPositions(ps: seq<Position>) {
    forall x, y :: 0 <= x < y < |ps| ==> PositionLess(ps[x], ps[y])
  }

  /** ps lists the selected logs by transaction, then by log. */
  ghost predicate Enumerates(b: Block, f: Filter, ps: seq<Position>) {
    AscendingPositions(ps) && forall p, l :: (p, l) in ps <==> Selected(b, f, p, l)
  }

  /** r reports the logs at these positions, in this order. */
  ghost predicate Reports(b: Block, times: Times, r: seq<FilterLog>, ps: seq<Position>) {
    && |r| == |ps|
    && forall x :: 0 <= x < |ps| ==> Present(b, ps[x].0) && IsEntry(r[x], Counting(b, ps[x].0), ps[x].1, times)
  }

  /** The times the query of a block needs can be read. */
  ghost predicate TimesKnown(b: Block, times: Times) {
    forall p :: Present(b, p) && Counting(b, p).logs != [] ==> Counting(b, p).blockNumber in times
  }

  ghost function LogPositions(b: Block, f: Filter, p: int, n: nat): (ps: seq<Position>)
    requires Present(b, p) && n <= |Counting(b, p).logs|
    ensures forall x :: x in ps <==> x.0 == p && 0 <= x.1 < n && Matches(f, Counting(b, p).logs[x.1])
    ensures AscendingPositions(ps)
  {
    if n == 0 then []
    else
      LogPositions(b, f, p, n - 1) + if Matches(f, Counting(b, p).logs[n - 1]) then [(p, n - 1)] else []
  }

  ghost function Positions(b: Block, f: Filter, n: nat): (ps: seq<Position>)
    requires n <= |b.receipts|
    ensures forall x :: x in ps <==> x.0 < n && Selected(b, f, x.0, x.1)
    ensures AscendingPositions(ps)
  {
    if n == 0 then []
    else
      var before := Positions(b, f, n - 1);
      if Present(b, n - 1) then before + LogPositions(b, f, n - 1, |Counting(b, n - 1).logs|) else before
  }

  lemma {:induction false} TxLogsReport(b: Block, times: Times, f: Filter, p: int, n: nat)
    requires Present(b, p) && n <= |Counting(b, p).logs| && Counting(b, p).blockNumber in times
    ensures var r := Counting(b, p);
      Reports(b, times, TxLogs(r, f, HashAt(b, p), times[r.blockNumber], n), LogPositions(b, f, p, n))
  {
    if n > 0 { TxLogsReport(b, times, f, p, n - 1); }
  }

  lemma ReportsConcat(b: Block, times: Times, r: seq<FilterLog>, ps: seq<Position>,
                      r': seq<FilterLog>, qs: seq<Position>)
    requires Reports(b, times, r, ps) && Reports(b, times, r', qs)
    ensures Reports(b, times, r + r', ps + qs)
  {
  }

  /** Scanning these hashes succeeds and reports the first n transactions of the block. */
  ghost predicate ScanGives(s: State, times: Times, f: Filter, b: Block, n: nat, hashes: seq<Bytes>)
    requires n <= |b.receipts|
  {
    var scan := Scan(s, times, f, hashes);
    scan.Ok? && Reports(b, times, scan.value, Positions(b, f, n))
  }

  lemma {:induction false} ReceiptReports(times: Times, f: Filter, b: Block, p: int)
    requires Present(b, p) && (Counting(b, p).logs != [] ==> Counting(b, p).blockNumber in times)
    ensures var r := Counting(b, p);
      var logs := ReceiptLogs(times, r, f, HashAt(b, p));
      logs.Ok? && Reports(b, times, logs.value, LogPositions(b, f, p, |r.logs|))
  {
    if Counting(b, p).logs != [] { TxLogsReport(b, times, f, p, |Counting(b, p).logs|); }
  }

  lemma {:induction false} ScanNext(s: State, times: Times, f: Filter, hashes: seq<Bytes>, hash: Bytes)
    requires Scan(s, times, f, hashes).Ok? && hash in s.receipts
    requires ReceiptLogs(times, s.receipts[hash], f, hash).Ok?
    ensures Scan(s, times, f, hashes + [hash]) ==
              Ok(Scan(s, times, f, hashes).value + ReceiptLogs(times, s.receipts[hash], f, hash).value)
  {
    assert (hashes + [hash])[..|hashes|] == hashes;
  }

  lemma {:induction false} ScanGivesNext(s: State, times: Times, f: Filter, b: Block, p: nat, hashes: seq<Bytes>)
    requires Holds(s, b) && TimesKnown(b, times) && Present(b, p) && ScanGives(s, times, f, b, p, hashes)
    ensures ScanGives(s, times, f, b, p + 1, hashes + [HashAt(b, p)])
  {
    var r, hash := Counting(b, p), HashAt(b, p);
    ReceiptReports(times, f, b, p);
    var before, logs := Scan(s, times, f, hashes).value, ReceiptLogs(times, r, f, hash).value;
    assert Scan(s, times, f, hashes + [hash]) == Ok(before + logs) by { ScanNext(s, times, f, hashes, hash); }
    assert Reports(b, times, before + logs, Positions(b, f, p + 1)) by {
      ReportsConcat(b, times, before, Positions(b, f, p), logs, LogPositions(b, f, p, |r.logs|));
    }
  }

  lemma {:induction false} ScanReports(s: State, times: Times, f: Filter, b: Block, n: nat)
    requires Holds(s, b) && TimesKnown(b, times) && n <= |b.receipts|
    ensures ScanGives(s, times, f, b, n, HashesOf(Stored(b.receipts[..n])))
  {
    if n > 0 {
      var p := n - 1;
      var stored := Stored(b.receipts[..p]);
      ScanReports(s, times, f, b, p);
      StoredStep(b, p);
      if Present(b, p) {
        ScanGivesNext(s, times, f, b, p, HashesOf(stored));
        AppendReceipt(map[], stored, b.receipts[p].value);
      } else {
        assert Positions(b, f, n) == Positions(b, f, p);
      }
    }
  }

  lemma HeldIsReadable(s: State, times: Times, b: Block)
    requires Holds(s, b) && TimesKnown(b, times)
    ensures Readable(s, times, Listed(s, b.height))
  {
    var hashes := Listed(s, b.height);
    assert b.receipts[..|b.receipts|] == b.receipts;
    forall i | 0 <= i < |hashes|
      ensures hashes[i] in s.receipts
      ensures s.receipts[hashes[i]].logs != [] ==> s.receipts[hashes[i]].blockNumber in times
    {
      StoredHashes(b, |b.receipts|, hashes[i]);
      assert Present(b, LastWith(b, hashes[i], |b.receipts|));
    }
  }

  /** On every chain of distinct blocks, a query of a block returns one entry for each matching log of the
      counting receipt of each of its transactions, by transaction and then by log, and nothing else. */
  lemma {:induction false} BlockQueryIsExact(bloom: Bloom, blocks: seq<Block>, times: Times, f: Filter, i: nat)
    requires Sound(bloom) && DistinctChain(blocks) && i < |blocks| && blocks[i].receipts != []
    requires TimesKnown(blocks[i], times)
    ensures var answer := Answer(bloom, CommitAll(bloom, blocks), times, f, blocks[i].height);
      && answer.Ok?
      && exists ps :: Enumerates(blocks[i], f, ps) && Reports(blocks[i], times, answer.value, ps)
  {
    var b := blocks[i];
    AnswerIsScan(bloom, blocks, times, f, i);
    ChainHolds(bloom, blocks, i);
    ScanReports(CommitAll(bloom, blocks), times, f, b, |b.receipts|);
    assert b.receipts[..|b.receipts|] == b.receipts;
    PositionsEnumerate(b, f);
  }

  lemma {:induction false} PositionsEnumerate(b: Block, f: Filter)
    ensures Enumerates(b, f, Positions(b, f, |b.receipts|))
  {
  }

  lemma {:induction false} AnswerIsScan(bloom: Bloom, blocks: seq<Block>, times: Times, f: Filter, i: nat)
    requires Sound(bloom) && DistinctChain(blocks) && i < |blocks| && blocks[i].receipts != []
    requires TimesKnown(blocks[i], times)
    ensures var s, b := CommitAll(bloom, blocks), blocks[i];
      Answer(bloom, s, times, f, b.height) == Scan(s, times, f, HashesOf(Stored(b.receipts)))
  {
    OnceExactlyWhen(bloom, blocks);
    ChainHolds(bloom, blocks, i);
    HeldIsReadable(CommitAll(bloom, blocks), times, blocks[i]);
    QueriesAreExact(bloom, blocks, times, f, blocks[i].height);
  }

  /** A query of a height at which no receipts were committed returns nothing. */
  lemma UnusedHeightIsEmpty(bloom: Bloom, blocks: seq<Block>, times: Times, f: Filter, h: nat)
    requires forall i :: 0 <= i < |blocks| && blocks[i].receipts != [] ==> blocks[i].height != h
    ensures Answer(bloom, CommitAll(bloom, blocks), times, f, h) == Ok([])
  {
    UnusedHeight(bloom, blocks, h);
  }

  /** The entry comes from a matching log of the block. */
  ghost predicate ComesFrom(b: Block, times: Times, f: Filter, e: FilterLog) {
    exists p, l :: Selected(b, f, p, l) && IsEntry(e, Counting(b, p), l, times)
  }

  /** So an entry is in the answer if and only if it comes from a matching log of the block. */
  lemma BlockEntryExactlyWhen(bloom: Bloom, blocks: seq<Block>, times: Times, f: Filter, i: nat, e: FilterLog)
    requires Sound(bloom) && DistinctChain(blocks) && i < |blocks| && blocks[i].receipts != []
    requires TimesKnown(blocks[i], times)
    ensures var answer := Answer(bloom, CommitAll(bloom, blocks), times, f, blocks[i].height);
      answer.Ok? && (e in answer.value <==> ComesFrom(blocks[i], times, f, e))
  {
    BlockQueryIsExact(bloom, blocks, times, f, i);
    var b, r := blocks[i], Answer(bloom, CommitAll(bloom, blocks), times, f, blocks[i].height).value;
    var ps: seq<Position> :| Enumerates(b, f, ps) && Reports(b, times, r, ps);
    if e in r {
      var x :| 0 <= x < |r| && r[x] == e;
      assert (ps[x].0, ps[x].1) in ps;
      assert Selected(b, f, ps[x].0, ps[x].1);
    }
    if p, l :| Selected(b, f, p, l) && IsEntry(e, Counting(b, p), l, times) {
      assert (p, l) in ps;
      var x :| 0 <= x < |ps| && ps[x] == (p, l);
      assert r[x] == e;
    }
  }

  // ---- ranges ----

  /** The heights of a range can all be read. */
  ghost predicate RangeKnown(blocks: seq<Block>, times: Times, from: nat, n: nat) {
    forall i :: 0 <= i < |blocks| && from <= blocks[i].height < from + n ==> TimesKnown(blocks[i], times)
  }

  /** The entry comes from a block of the range. */
  ghost predicate InRangeBlock(blocks: seq<Block>, times: Times, f: Filter, from: nat, n: nat, e: FilterLog) {
    exists i :: 0 <= i < |blocks| && from <= blocks[i].height < from + n && ComesFrom(blocks[i], times, f, e)
  }

  /** The answer succeeds and has e if and only if e comes from a block of the range. */
  ghost predicate FromRange(answer: Result<seq<FilterLog>>, blocks: seq<Block>, times: Times, f: Filter,
                            from: nat, n: nat, e: FilterLog) {
    answer.Ok? && (e in answer.value <==> InRangeBlock(blocks, times, f, from, n, e))
  }

  lemma {:induction false} HeightEntryExactlyWhen(bloom: Bloom, blocks: seq<Block>, times: Times, f: Filter, h: nat,
                                                  e: FilterLog)
    requires Sound(bloom) && DistinctChain(blocks) && RangeKnown(blocks, times, h, 1)
    ensures var answer := Answer(bloom, CommitAll(bloom, blocks), times, f, h);
      FromRange(answer, blocks, times, f, h, 1, e)
  {
    if i :| 0 <= i < |blocks| && blocks[i].receipts != [] && blocks[i].height == h {
      BlockEntryExactlyWhen(bloom, blocks, times, f, i, e);
      if j :| 0 <= j < |blocks| && blocks[j].height == h && ComesFrom(blocks[j], times, f, e) {
        assert blocks[j].receipts != [];
        assert i == j;
      }
    } else {
      UnusedHeightIsEmpty(bloom, blocks, times, f, h);
    }
  }

  lemma {:induction false} RangeSplits(blocks: seq<Block>, times: Times, f: Filter, from: nat, n: nat, e: FilterLog)
    requires RangeKnown(blocks, times, from, n + 1)
    ensures RangeKnown(blocks, times, from, n) && RangeKnown(blocks, times, from + n, 1)
    ensures InRangeBlock(blocks, times, f, from, n + 1, e) <==>
              InRangeBlock(blocks, times, f, from, n, e) || InRangeBlock(blocks, times, f, from + n, 1, e)
  {
  }

  lemma {:induction false} RangeNext(bloom: Bloom, s: State, times: Times, f: Filter, from: nat, n: nat)
    ensures var before, block := RangeAnswer(bloom, s, times, f, from, n), Answer(bloom, s, times, f, from + n);
      var after := RangeAnswer(bloom, s, times, f, from, n + 1);
      && (after.Ok? <==> before.Ok? && block.Ok?)
      && (after.Ok? ==> after.value == before.value + block.value)
  {
  }

  /** On every chain of distinct blocks a range query returns exactly the entries of the matching logs of the
      blocks in the range. */
  lemma {:induction false} RangeEntryExactlyWhen(bloom: Bloom, blocks: seq<Block>, times: Times, f: Filter,
                                                 from: nat, n: nat, e: FilterLog)
    requires Sound(bloom) && DistinctChain(blocks) && RangeKnown(blocks, times, from, n)
    ensures FromRange(RangeAnswer(bloom, CommitAll(bloom, blocks), times, f, from, n), blocks, times, f, from, n, e)
  {
    if n > 0 {
      var k, s := n - 1, CommitAll(bloom, blocks);
      RangeSplits(blocks, times, f, from, k, e);
      RangeEntryExactlyWhen(bloom, blocks, times, f, from, k, e);
      HeightEntryExactlyWhen(bloom, blocks, times, f, from + k, e);
      RangeNext(bloom, s, times, f, from, k);
      FromRangeNext(RangeAnswer(bloom, s, times, f, from, k), Answer(bloom, s, times, f, from + k),
                    RangeAnswer(bloom, s, times, f, from, n), blocks, times, f, from, k, e);
    }
  }

  lemma {:induction false} FromRangeNext(before: Result<seq<FilterLog>>, block: Result<seq<FilterLog>>,
                                         after: Result<seq<FilterLog>>, blocks: seq<Block>, times: Times, f: Filter,
                                         from: nat, k: nat, e: FilterLog)
    requires FromRange(before, blocks, times, f, from, k, e) && FromRange(block, blocks, times, f, from + k, 1, e)
    requires after == Ok(before.value + block.value) && RangeKnown(blocks, times, from, k + 1)
    ensures FromRange(after, blocks, times, f, from, k + 1, e)
  {
    RangeSplits(blocks, times, f, from, k, e);
  }

  /** Answers of n consecutive heights, one after the other. */
  ghost function Joined(answers: nat -> Result<seq<FilterLog>>, from: nat, n: nat): Result<seq<FilterLog>> {
    if n == 0 then Ok([])
    else
      var before, block := Joined(answers, from, n - 1), answers(from + n - 1);
      if before.Err? || block.Err? then Err else Ok(before.value + block.value)
  }

  lemma Glue(first: seq<FilterLog>, rest: seq<FilterLog>, block: seq<FilterLog>)
    ensures (first + rest) + block == first + (rest + block)
  {
  }

  lemma {:induction false} JoinedFollow(answers: nat -> Result<seq<FilterLog>>, from: nat, m: nat, n: nat)
    requires Joined(answers, from, m + n).Ok?
    ensures Joined(answers, from, m).Ok? && Joined(answers, from + m, n).Ok?
    ensures Joined(answers, from, m + n).value ==
              Joined(answers, from, m).value + Joined(answers, from + m, n).value
    decreases n
  {
    if n == 0 {
      assert m + n == m;
    } else {
      var k := n - 1;
      JoinedFollow(answers, from, m, k);
      assert from + (m + k) == from + m + k;
      Glue(Joined(answers, from, m).value, Joined(answers, from + m, k).value, answers(from + m + k).value);
    }
  }

  lemma {:induction false} RangeIsJoined(bloom: Bloom, s: State, times: Times, f: Filter,
                                         answers: nat -> Result<seq<FilterLog>>, from: nat, n: nat)
    requires forall h: nat :: answers(h) == Answer(bloom, s, times, f, h)
    ensures RangeAnswer(bloom, s, times, f, from, n) == Joined(answers, from, n)
  {
    if n > 0 { RangeIsJoined(bloom, s, times, f, answers, from, n - 1); }
  }

  /** Ranges follow one another: the answer of a range is the answer of its first part, then of the rest. */
  lemma {:induction false} RangesFollow(bloom: Bloom, s: State, times: Times, f: Filter, from: nat, m: nat, n: nat)
    requires RangeAnswer(bloom, s, times, f, from, m + n).Ok?
    ensures RangeAnswer(bloom, s, times, f, from, m).Ok? && RangeAnswer(bloom, s, times, f, from + m, n).Ok?
    ensures RangeAnswer(bloom, s, times, f, from, m + n).value ==
              RangeAnswer(bloom, s, times, f, from, m).value + RangeAnswer(bloom, s, times, f, from + m, n).value
  {
    var answers := (h: nat) => Answer(bloom, s, times, f, h);
    RangeIsJoined(bloom, s, times, f, answers, from, m + n);
    RangeIsJoined(bloom, s, times, f, answers, from, m);
    RangeIsJoined(bloom, s, times, f, answers, from + m, n);
    JoinedFollow(answers, from, m, n);
  }

  // ---- what a filter means ----

  /** A filter with several addresses, or several topics at a position, matches what any one of them
      matches; one without restrictions matches every log. */
  lemma AlternativesUnite(f: Filter, l: Log, t: nat)
    ensures Matches(Filter([], []), l)
    ensures f.addresses != [] ==>
      (Matches(f, l) <==> exists a :: a in f.addresses && Matches(f.(addresses := [a]), l))
    ensures t < |f.topics| && f.topics[t] != [] ==>
      (Matches(f, l) <==> exists a :: a in f.topics[t] && Matches(f.(topics := f.topics[t := [a]]), l))
  {
    if f.addresses != [] && Matches(f, l) { assert Matches(f.(addresses := [l.address]), l); }
    if t < |f.topics| && f.topics[t] != [] {
      if Matches(f, l) {
        assert Matches(f.(topics := f.topics[t := [l.topics[t]]]), l);
      }
      forall a | a in f.topics[t] && Matches(f.(topics := f.topics[t := [a]]), l) ensures Matches(f, l) {
        var g := f.(topics := f.topics[t := [a]]);
        assert g.topics[t] == [a] && l.topics[t] in g.topics[t];
        forall i | 0 <= i < |f.topics| ensures f.topics[i] == [] || l.topics[i] in f.topics[i] {
          if i != t { assert g.topics[i] == f.topics[i]; }
        }
      }
    }
  }

  /** The filter made of a log's own address and topics matches exactly the logs of that address whose topics
      start with them. */
  lemma OwnFilterExactlyWhen(l: Log, m: Log)
    ensures var f := Filter([l.address], seq(|l.topics|, i requires 0 <= i < |l.topics| => [l.topics[i]]));
      Matches(f, m) <==> m.address == l.address && l.topics <= m.topics
  {
    var f := Filter([l.address], seq(|l.topics|, i requires 0 <= i < |l.topics| => [l.topics[i]]));
    if Matches(f, m) {
      forall i | 0 <= i < |l.topics| ensures l.topics[i] == m.topics[i] {
        assert f.topics[i] == [l.topics[i]] && m.topics[i] in f.topics[i];
      }
    }
    if m.address == l.address && l.topics <= m.topics {
      forall i | 0 <= i < |f.topics| ensures m.topics[i] in f.topics[i] {
        assert f.topics[i] == [l.topics[i]];
      }
    }
  }
}

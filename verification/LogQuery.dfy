/** Log queries: receipts committed per block with a bloom filter, and queries that skip a block when
    the filter rules it out. */
module LogQuery {
  import opened Basics

  datatype Log = Log(address: Bytes, topics: seq<Bytes>, body: Bytes)
  datatype Receipt = Receipt(txHash: Bytes, txIndex: int, blockHash: Bytes, blockNumber: int, logs: seq<Log>)
  datatype Filter = Filter(addresses: seq<Bytes>, topics: seq<seq<Bytes>>)
  datatype FilterLog = FilterLog(logIndex: nat, txIndex: int, txHash: Bytes, blockHash: Bytes, blockNumber: int,
                                 address: Bytes, data: Bytes, topics: seq<Bytes>, blockTime: int)
  datatype Result<T> = Ok(value: T) | Err

  /** The bloom filter library: it never denies a key it was built from, and is never empty. */
  datatype Bloom = Bloom(generate: seq<Bytes> -> Bytes, contains: (Bytes, Bytes) -> bool)

  ghost predicate Sound(bloom: Bloom) {
    forall keys: seq<Bytes> ::
      && bloom.generate(keys) != []
      && forall k :: k in keys ==> bloom.contains(bloom.generate(keys), k)
  }

  /** The keys a block's filter is built from: each log's topics, then its address. */
  function Keys(logs: seq<Log>): seq<Bytes> {
    if logs == [] then [] else Keys(logs[..|logs| - 1]) + (logs[|logs| - 1].topics + [logs[|logs| - 1].address])
  }

  function FilterBits(bloom: Bloom, logs: seq<Log>): Bytes {
    if logs == [] then [] else bloom.generate(Keys(logs))
  }

  lemma {:induction false} KeysCover(logs: seq<Log>, l: Log)
    requires l in logs
    ensures l.address in Keys(logs) && forall t :: t in l.topics ==> t in Keys(logs)
    decreases |logs|
  {
    if l != logs[|logs| - 1] { KeysCover(logs[..|logs| - 1], l); }
  }

  /** Builds the filter of a block's events. */
  method GenFilter(bloom: Bloom, logs: seq<Log>) returns (bits: Bytes)
    ensures bits == FilterBits(bloom, logs)
  {
    if |logs| == 0 { return []; }
    var keys: seq<Bytes> := [];
    for i := 0 to |logs|
      invariant keys == Keys(logs[..i])
    {
      ghost var before := keys;
      for j := 0 to |logs[i].topics|
        invariant keys == before + logs[i].topics[..j]
      {
        keys := keys + [logs[i].topics[j]];
      }
      assert logs[i].topics[..|logs[i].topics|] == logs[i].topics;
      assert logs[..i + 1][..i] == logs[..i];
      keys := keys + [logs[i].address];
      assert keys == before + (logs[i].topics + [logs[i].address]);
    }
    assert logs[..|logs|] == logs;
    bits := bloom.generate(keys);
  }

  // ---- matching ----

  /** The meaning of a filter for one log. */
  predicate Matches(f: Filter, l: Log) {
    && |f.topics| <= |l.topics|
    && (f.addresses == [] || l.address in f.addresses)
    && forall i :: 0 <= i < |f.topics| ==> f.topics[i] == [] || l.topics[i] in f.topics[i]
  }

  method MatchEthFilter(f: Filter, l: Log) returns (ok: bool)
    ensures ok <==> Matches(f, l)
  {
    if |f.topics| > |l.topics| { return false; }
    if |f.addresses| > 0 {
      var found := false;
      for i := 0 to |f.addresses|
        invariant !found && l.address !in f.addresses[..i]
      {
        if f.addresses[i] == l.address { found := true; break; }
      }
      if !found { return false; }
    }
    for i := 0 to |f.topics|
      invariant forall k :: 0 <= k < i ==> f.topics[k] == [] || l.topics[k] in f.topics[k]
    {
      if |f.topics[i]| > 0 {
        var found := false;
        for j := 0 to |f.topics[i]|
          invariant !found && l.topics[i] !in f.topics[i][..j]
        {
          if f.topics[i][j] == l.topics[i] { found := true; break; }
        }
        if !found { return false; }
      }
    }
    return true;
  }

  /** Some key of a non-empty list passes the block's filter. */
  predicate AnyContained(bloom: Bloom, bits: Bytes, keys: seq<Bytes>) {
    keys == [] || exists i :: 0 <= i < |keys| && bloom.contains(bits, keys[i])
  }

  predicate MayMatch(bloom: Bloom, f: Filter, bits: Bytes) {
    AnyContained(bloom, bits, f.addresses) && forall i :: 0 <= i < |f.topics| ==> AnyContained(bloom, bits, f.topics[i])
  }

  method MatchBloomFilter(bloom: Bloom, f: Filter, bits: Bytes) returns (ok: bool)
    ensures ok <==> MayMatch(bloom, f, bits)
  {
    if |f.addresses| > 0 {
      var found := false;
      for i := 0 to |f.addresses|
        invariant !found && forall k :: 0 <= k < i ==> !bloom.contains(bits, f.addresses[k])
      {
        if bloom.contains(bits, f.addresses[i]) { found := true; break; }
      }
      if !found { return false; }
    }
    for i := 0 to |f.topics|
      invariant forall k :: 0 <= k < i ==> AnyContained(bloom, bits, f.topics[k])
    {
      if |f.topics[i]| > 0 {
        var found := false;
        for j := 0 to |f.topics[i]|
          invariant !found && forall k :: 0 <= k < j ==> !bloom.contains(bits, f.topics[i][k])
        {
          if bloom.contains(bits, f.topics[i][j]) { found := true; break; }
        }
        if !found {
          assert !AnyContained(bloom, bits, f.topics[i]);
          return false;
        }
      }
    }
    return true;
  }

  // ---- the chain state ----

  datatype State = State(receipts: map<Bytes, Receipt>, hashes: map<nat, seq<Bytes>>, blooms: map<nat, Bytes>)

  function Listed(s: State, h: nat): seq<Bytes> { if h in s.hashes then s.hashes[h] else [] }

  function Bits(s: State, h: nat): Bytes { if h in s.blooms then s.blooms[h] else [] }

  /** The receipts that are stored: present and with a hash. */
  function Stored(rs: seq<Option<Receipt>>): seq<Receipt> {
    if rs == [] then []
    else
      var r := rs[|rs| - 1];
      Stored(rs[..|rs| - 1]) + if r.Some? && r.value.txHash != [] then [r.value] else []
  }

  function HashesOf(rs: seq<Receipt>): seq<Bytes> { seq(|rs|, i requires 0 <= i < |rs| => rs[i].txHash) }

  function LogsOf(rs: seq<Receipt>): seq<Log> {
    if rs == [] then [] else LogsOf(rs[..|rs| - 1]) + rs[|rs| - 1].logs
  }

  function WithReceipts(m: map<Bytes, Receipt>, rs: seq<Receipt>): map<Bytes, Receipt> {
    if rs == [] then m else WithReceipts(m, rs[..|rs| - 1])[rs[|rs| - 1].txHash := rs[|rs| - 1]]
  }

  /** Committing a block: receipts stored, hashes appended to the block's list, its filter replaced. */
  function Commit(bloom: Bloom, s: State, rs: seq<Option<Receipt>>, h: nat): State {
    if rs == [] then s
    else
      var stored := Stored(rs);
      State(WithReceipts(s.receipts, stored), s.hashes[h := Listed(s, h) + HashesOf(stored)],
            s.blooms[h := FilterBits(bloom, LogsOf(stored))])
  }

  lemma StoredNext(rs: seq<Option<Receipt>>, i: nat)
    requires i < |rs|
    ensures Stored(rs[..i + 1]) ==
      if rs[i].Some? && rs[i].value.txHash != [] then Stored(rs[..i]) + [rs[i].value] else Stored(rs[..i])
  {
    assert rs[..i + 1][..i] == rs[..i];
  }

  lemma AppendReceipt(m: map<Bytes, Receipt>, rs: seq<Receipt>, r: Receipt)
    ensures HashesOf(rs + [r]) == HashesOf(rs) + [r.txHash] && LogsOf(rs + [r]) == LogsOf(rs) + r.logs
    ensures WithReceipts(m, rs + [r]) == WithReceipts(m, rs)[r.txHash := r]
  {
    assert (rs + [r])[..|rs|] == rs;
  }

  class StateDBReceipts {
    const bloom: Bloom
    var receipts: map<Bytes, Receipt>
    var txHashLists: map<nat, seq<Bytes>>
    var filters: map<nat, Bytes>

    function Value(): State
      reads this
    { State(receipts, txHashLists, filters) }

    constructor (bloom: Bloom, s: State)
      ensures this.bloom == bloom && Value() == s
    {
      this.bloom := bloom;
      receipts, txHashLists, filters := s.receipts, s.hashes, s.blooms;
    }

    method CommitBlock(rs: seq<Option<Receipt>>, height: nat)
      modifies this
      ensures Value() == Commit(bloom, old(Value()), rs, height)
    {
      if |rs| == 0 { return; }
      var txHashArray: seq<Bytes> := [];
      var events: seq<Log> := [];
      for i := 0 to |rs|
        invariant txHashArray == HashesOf(Stored(rs[..i])) && events == LogsOf(Stored(rs[..i]))
        invariant receipts == WithReceipts(old(receipts), Stored(rs[..i]))
        invariant txHashLists == old(txHashLists) && filters == old(filters)
      {
        StoredNext(rs, i);
        if rs[i].None? || |rs[i].value.txHash| == 0 { continue; }
        AppendReceipt(old(receipts), Stored(rs[..i]), rs[i].value);
        txHashArray := txHashArray + [rs[i].value.txHash];
        events := events + rs[i].value.logs;
        receipts := receipts[rs[i].value.txHash := rs[i].value];
      }
      assert rs[..|rs|] == rs;
      var txHashList := if height in txHashLists then txHashLists[height] else [];
      txHashLists := txHashLists[height := txHashList + txHashArray];
      var bits := GenFilter(bloom, events);
      filters := filters[height := bits];
    }
  }

  // ---- queries ----

  function Entry(r: Receipt, hash: Bytes, i: nat, time: int): FilterLog
    requires i < |r.logs|
  {
    FilterLog(i, r.txIndex, hash, r.blockHash, r.blockNumber, r.logs[i].address, r.logs[i].body, r.logs[i].topics, time)
  }

  /** The matching logs among the first n of a receipt. */
  function TxLogs(r: Receipt, f: Filter, hash: Bytes, time: int, n: nat): seq<FilterLog>
    requires n <= |r.logs|
  {
    if n == 0 then []
    else TxLogs(r, f, hash, time, n - 1) + if Matches(f, r.logs[n - 1]) then [Entry(r, hash, n - 1, time)] else []
  }

  /** Times of the blocks that can be read. */
  type Times = map<int, int>

  function ReceiptLogs(times: Times, r: Receipt, f: Filter, hash: Bytes): Result<seq<FilterLog>> {
    if r.logs == [] then Ok([])
    else if r.blockNumber !in times then Err
    else Ok(TxLogs(r, f, hash, times[r.blockNumber], |r.logs|))
  }

  /** The plain scan: every matching log of every listed receipt, or an error when a read fails. */
  function Scan(s: State, times: Times, f: Filter, hashes: seq<Bytes>): Result<seq<FilterLog>> {
    if hashes == [] then Ok([])
    else
      var before := Scan(s, times, f, hashes[..|hashes| - 1]);
      var hash := hashes[|hashes| - 1];
      if before.Err? || hash !in s.receipts then Err
      else
        var logs := ReceiptLogs(times, s.receipts[hash], f, hash);
        if logs.Err? then Err else Ok(before.value + logs.value)
  }

  /** The entry reports a matching log of the receipt, under the given transaction hash. */
  ghost predicate Describes(e: FilterLog, r: Receipt, f: Filter, hash: Bytes, time: int) {
    && e.logIndex < |r.logs| && Matches(f, r.logs[e.logIndex])
    && e.txHash == hash && e.txIndex == r.txIndex && e.blockHash == r.blockHash && e.blockNumber == r.blockNumber
    && e.address == r.logs[e.logIndex].address && e.topics == r.logs[e.logIndex].topics
    && e.data == r.logs[e.logIndex].body && e.blockTime == time
  }

  /** Finds the matching logs of one receipt, in order. */
  method GetTxHashLogs(times: Times, r: Receipt, f: Filter, hash: Bytes) returns (res: Result<seq<FilterLog>>)
    ensures res == ReceiptLogs(times, r, f, hash)
    ensures res.Err? <==> r.logs != [] && r.blockNumber !in times
    ensures res.Ok? ==> forall x :: 0 <= x < |res.value| ==>
      r.blockNumber in times && Describes(res.value[x], r, f, hash, times[r.blockNumber])
    ensures res.Ok? ==> forall x, y :: 0 <= x < y < |res.value| ==> res.value[x].logIndex < res.value[y].logIndex
  {
    var timestamp := 0;
    if |r.logs| > 0 {
      if r.blockNumber !in times { return Err; }
      timestamp := times[r.blockNumber];
    }
    var logs: seq<FilterLog> := [];
    for i := 0 to |r.logs|
      invariant logs == TxLogs(r, f, hash, timestamp, i)
      invariant forall x :: 0 <= x < |logs| ==> logs[x].logIndex < i && Describes(logs[x], r, f, hash, timestamp)
      invariant forall x, y :: 0 <= x < y < |logs| ==> logs[x].logIndex < logs[y].logIndex
    {
      var matches := MatchEthFilter(f, r.logs[i]);
      if matches { logs := logs + [Entry(r, hash, i, timestamp)]; }
    }
    return Ok(logs);
  }

  lemma {:induction false} ScanFails(s: State, times: Times, f: Filter, hashes: seq<Bytes>, i: nat)
    requires i <= |hashes| && Scan(s, times, f, hashes[..i]).Err?
    ensures Scan(s, times, f, hashes).Err?
    decreases |hashes|
  {
    if i < |hashes| {
      assert hashes[..|hashes| - 1][..i] == hashes[..i];
      ScanFails(s, times, f, hashes[..|hashes| - 1], i);
    } else {
      assert hashes[..i] == hashes;
    }
  }

  /** What a query of one block answers. */
  function Answer(bloom: Bloom, s: State, times: Times, f: Filter, h: nat): Result<seq<FilterLog>> {
    if Bits(s, h) != [] && MayMatch(bloom, f, Bits(s, h)) then Scan(s, times, f, Listed(s, h)) else Ok([])
  }

  method GetBlockLogs(bloom: Bloom, s: State, times: Times, f: Filter, h: nat) returns (res: Result<seq<FilterLog>>)
    ensures res == Answer(bloom, s, times, f, h)
  {
    var bits := Bits(s, h);
    if |bits| > 0 {
      var may := MatchBloomFilter(bloom, f, bits);
      if may {
        var list := Listed(s, h);
        var logsBlock: seq<FilterLog> := [];
        for i := 0 to |list|
          invariant Scan(s, times, f, list[..i]) == Ok(logsBlock)
        {
          assert list[..i + 1][..i] == list[..i];
          if list[i] !in s.receipts {
            ScanFails(s, times, f, list, i + 1);
            return Err;
          }
          var logsTx := GetTxHashLogs(times, s.receipts[list[i]], f, list[i]);
          if logsTx.Err? {
            ScanFails(s, times, f, list, i + 1);
            return Err;
          }
          logsBlock := logsBlock + logsTx.value;
        }
        assert list[..|list|] == list;
        return Ok(logsBlock);
      }
    }
    return Ok([]);
  }

  /** The answers of n consecutive blocks, one after the other. */
  function RangeAnswer(bloom: Bloom, s: State, times: Times, f: Filter, from: nat, n: nat): Result<seq<FilterLog>> {
    if n == 0 then Ok([])
    else
      var before := RangeAnswer(bloom, s, times, f, from, n - 1);
      var block := Answer(bloom, s, times, f, from + n - 1);
      if before.Err? || block.Err? then Err else Ok(before.value + block.value)
  }

  lemma {:induction false} RangeFails(bloom: Bloom, s: State, times: Times, f: Filter, from: nat, m: nat, n: nat)
    requires m <= n && RangeAnswer(bloom, s, times, f, from, m).Err?
    ensures RangeAnswer(bloom, s, times, f, from, n).Err?
  {
    if m < n { RangeFails(bloom, s, times, f, from, m, n - 1); }
  }

  method GetBlockLogRange(bloom: Bloom, s: State, times: Times, from: nat, to: nat, f: Filter)
      returns (res: Result<seq<FilterLog>>)
    ensures from > to ==> res == Err
    ensures from <= to ==> res == RangeAnswer(bloom, s, times, f, from, to - from + 1)
  {
    if from > to { return Err; }
    var logs: seq<FilterLog> := [];
    for h := from to to + 1
      invariant RangeAnswer(bloom, s, times, f, from, h - from) == Ok(logs)
    {
      var block := GetBlockLogs(bloom, s, times, f, h);
      if block.Err? {
        RangeFails(bloom, s, times, f, from, h - from + 1, to - from + 1);
        return Err;
      }
      logs := logs + block.value;
    }
    return Ok(logs);
  }

  // ---- the filter changes nothing ----

  /** Every read the scan of block h makes succeeds. */
  ghost predicate Readable(s: State, times: Times, hashes: seq<Bytes>) {
    forall i :: 0 <= i < |hashes| ==>
      hashes[i] in s.receipts && (s.receipts[hashes[i]].logs != [] ==> s.receipts[hashes[i]].blockNumber in times)
  }

  predicate LogCovered(bloom: Bloom, bits: Bytes, l: Log) {
    && bits != [] && bloom.contains(bits, l.address)
    && forall j :: 0 <= j < |l.topics| ==> bloom.contains(bits, l.topics[j])
  }

  /** The filter of block h knows every address and topic of the logs listed for it. */
  ghost predicate Covers(bloom: Bloom, s: State, hashes: seq<Bytes>, bits: Bytes) {
    forall i, j :: 0 <= i < |hashes| && hashes[i] in s.receipts && 0 <= j < |s.receipts[hashes[i]].logs| ==>
      LogCovered(bloom, bits, s.receipts[hashes[i]].logs[j])
  }

  lemma MatchNeedsFilter(bloom: Bloom, f: Filter, bits: Bytes, l: Log)
    requires Matches(f, l) && LogCovered(bloom, bits, l)
    ensures bits != [] && MayMatch(bloom, f, bits)
  {
    if f.addresses != [] {
      var i :| 0 <= i < |f.addresses| && f.addresses[i] == l.address;
    }
    forall i | 0 <= i < |f.topics| ensures AnyContained(bloom, bits, f.topics[i]) {
      if f.topics[i] != [] {
        var j :| 0 <= j < |f.topics[i]| && f.topics[i][j] == l.topics[i];
      }
    }
  }

  lemma {:induction false} NoMatchNoLogs(r: Receipt, f: Filter, hash: Bytes, time: int, n: nat)
    requires n <= |r.logs| && forall j :: 0 <= j < n ==> !Matches(f, r.logs[j])
    ensures TxLogs(r, f, hash, time, n) == []
  {
    if n > 0 { NoMatchNoLogs(r, f, hash, time, n - 1); }
  }

  lemma {:induction false} ScanEmpty(s: State, times: Times, f: Filter, hashes: seq<Bytes>)
    requires Readable(s, times, hashes)
    requires forall i, j :: 0 <= i < |hashes| && hashes[i] in s.receipts && 0 <= j < |s.receipts[hashes[i]].logs| ==>
      !Matches(f, s.receipts[hashes[i]].logs[j])
    ensures Scan(s, times, f, hashes) == Ok([])
    decreases |hashes|
  {
    if hashes != [] {
      ScanEmpty(s, times, f, hashes[..|hashes| - 1]);
      var hash := hashes[|hashes| - 1];
      var r := s.receipts[hash];
      if r.logs != [] { NoMatchNoLogs(r, f, hash, times[r.blockNumber], |r.logs|); }
      assert ReceiptLogs(times, r, f, hash) == Ok([]);
      var none: seq<FilterLog> := [];
      assert none + none == none;
    }
  }

  lemma {:induction false} TxLogsKeep(r: Receipt, f: Filter, hash: Bytes, time: int, j: nat, n: nat)
    requires j < n <= |r.logs| && Matches(f, r.logs[j])
    ensures TxLogs(r, f, hash, time, n) != []
  {
    if j < n - 1 { TxLogsKeep(r, f, hash, time, j, n - 1); }
  }

  lemma {:induction false} ScanNonEmpty(s: State, times: Times, f: Filter, hashes: seq<Bytes>, i: nat, j: nat)
    requires i < |hashes| && Readable(s, times, hashes) && j < |s.receipts[hashes[i]].logs|
    requires Matches(f, s.receipts[hashes[i]].logs[j])
    ensures Scan(s, times, f, hashes) != Ok([])
    decreases |hashes|
  {
    var init := hashes[..|hashes| - 1];
    if i < |init| {
      ScanNonEmpty(s, times, f, init, i, j);
    } else {
      var r := s.receipts[hashes[i]];
      TxLogsKeep(r, f, hashes[i], times[r.blockNumber], j, |r.logs|);
    }
  }

  lemma {:induction false} TxLogsExactly(r: Receipt, f: Filter, hash: Bytes, time: int, n: nat, e: FilterLog)
    requires n <= |r.logs|
    ensures e in TxLogs(r, f, hash, time, n) <==>
      exists j :: 0 <= j < n && Matches(f, r.logs[j]) && e == Entry(r, hash, j, time)
  {
    if n > 0 { TxLogsExactly(r, f, hash, time, n - 1, e); }
  }

  /** e is the entry of a matching log of the receipt with this hash. */
  ghost predicate EntryOf(s: State, times: Times, f: Filter, hash: Bytes, e: FilterLog) {
    && hash in s.receipts
    && exists j :: 0 <= j < |s.receipts[hash].logs| && s.receipts[hash].blockNumber in times
         && Matches(f, s.receipts[hash].logs[j])
         && e == Entry(s.receipts[hash], hash, j, times[s.receipts[hash].blockNumber])
  }

  /** When the reads succeed, the scan returns exactly the entries of the matching logs. */
  lemma {:induction false} ScanExactly(s: State, times: Times, f: Filter, hashes: seq<Bytes>, e: FilterLog)
    requires Readable(s, times, hashes)
    ensures Scan(s, times, f, hashes).Ok?
    ensures e in Scan(s, times, f, hashes).value <==>
      exists i :: 0 <= i < |hashes| && EntryOf(s, times, f, hashes[i], e)
    decreases |hashes|
  {
    if hashes != [] {
      var init, hash := hashes[..|hashes| - 1], hashes[|hashes| - 1];
      ScanExactly(s, times, f, init, e);
      var r := s.receipts[hash];
      if r.logs != [] { TxLogsExactly(r, f, hash, times[r.blockNumber], |r.logs|, e); }
      assert EntryOf(s, times, f, hash, e) <==> e in ReceiptLogs(times, r, f, hash).value;
      if i :| 0 <= i < |init| && EntryOf(s, times, f, init[i], e) { assert init[i] == hashes[i]; }
      if i :| 0 <= i < |hashes| && EntryOf(s, times, f, hashes[i], e) && i < |init| { assert init[i] == hashes[i]; }
    }
  }

  /** If the filter covers the block's logs, every query answers what the plain scan answers. */
  lemma CoveredIsTransparent(bloom: Bloom, s: State, times: Times, f: Filter, h: nat)
    requires Covers(bloom, s, Listed(s, h), Bits(s, h)) && Readable(s, times, Listed(s, h))
    ensures Answer(bloom, s, times, f, h) == Scan(s, times, f, Listed(s, h))
  {
    var hashes, bits := Listed(s, h), Bits(s, h);
    if bits == [] || !MayMatch(bloom, f, bits) {
      forall i, j | 0 <= i < |hashes| && hashes[i] in s.receipts && 0 <= j < |s.receipts[hashes[i]].logs|
        ensures !Matches(f, s.receipts[hashes[i]].logs[j])
      {
        var l := s.receipts[hashes[i]].logs[j];
        assert LogCovered(bloom, bits, l);
        if Matches(f, l) { MatchNeedsFilter(bloom, f, bits, l); }
      }
      ScanEmpty(s, times, f, hashes);
    }
  }

  /** A filter that singles out an uncovered log: by its address, by one topic, or by nothing. */
  lemma UncoveredIsHidden(bloom: Bloom, bits: Bytes, l: Log) returns (f: Filter)
    requires !LogCovered(bloom, bits, l)
    ensures Matches(f, l) && (bits == [] || !MayMatch(bloom, f, bits))
  {
    if bits == [] {
      f := Filter([], []);
    } else if !bloom.contains(bits, l.address) {
      f := Filter([l.address], []);
    } else {
      var j :| 0 <= j < |l.topics| && !bloom.contains(bits, l.topics[j]);
      f := Filter([], seq(j, i => []) + [[l.topics[j]]]);
      assert f.topics[j] == [l.topics[j]] && !AnyContained(bloom, bits, f.topics[j]);
    }
  }

  /** The pre-check is transparent for a block if and only if its filter covers the logs listed for it. */
  lemma TransparentExactlyWhen(bloom: Bloom, s: State, times: Times, h: nat)
    requires Readable(s, times, Listed(s, h))
    ensures (forall f: Filter :: Answer(bloom, s, times, f, h) == Scan(s, times, f, Listed(s, h)))
       <==> Covers(bloom, s, Listed(s, h), Bits(s, h))
  {
    var hashes, bits := Listed(s, h), Bits(s, h);
    if Covers(bloom, s, hashes, bits) {
      forall f: Filter ensures Answer(bloom, s, times, f, h) == Scan(s, times, f, hashes) {
        CoveredIsTransparent(bloom, s, times, f, h);
      }
    } else {
      var i, j :| 0 <= i < |hashes| && hashes[i] in s.receipts && 0 <= j < |s.receipts[hashes[i]].logs|
                  && !LogCovered(bloom, bits, s.receipts[hashes[i]].logs[j]);
      var f := UncoveredIsHidden(bloom, bits, s.receipts[hashes[i]].logs[j]);
      ScanNonEmpty(s, times, f, hashes, i, j);
      assert Answer(bloom, s, times, f, h) != Scan(s, times, f, hashes);
    }
  }

  // ---- every block committed once is covered ----

  /** No receipt list of another block shares a hash with these receipts, and the block is new. */
  ghost predicate FreshBlock(s: State, rs: seq<Option<Receipt>>, h: nat) {
    && h !in s.hashes
    && forall g, i :: g in s.hashes && 0 <= i < |Stored(rs)| ==> Stored(rs)[i].txHash !in s.hashes[g]
  }

  ghost predicate AllCovered(bloom: Bloom, s: State) {
    forall g ::
      && Covers(bloom, s, Listed(s, g), Bits(s, g))
      && forall i :: 0 <= i < |Listed(s, g)| ==> Listed(s, g)[i] in s.receipts
  }

  lemma {:induction false} WithReceiptsAt(m: map<Bytes, Receipt>, rs: seq<Receipt>, hash: Bytes)
    ensures hash in WithReceipts(m, rs) <==> hash in m || exists i :: 0 <= i < |rs| && rs[i].txHash == hash
    ensures (forall i :: 0 <= i < |rs| ==> rs[i].txHash != hash) && hash in m ==> WithReceipts(m, rs)[hash] == m[hash]
    ensures (exists i :: 0 <= i < |rs| && rs[i].txHash == hash) ==> WithReceipts(m, rs)[hash] in rs
    decreases |rs|
  {
    if rs != [] {
      var init := rs[..|rs| - 1];
      WithReceiptsAt(m, init, hash);
      if rs[|rs| - 1].txHash != hash && exists i :: 0 <= i < |rs| && rs[i].txHash == hash {
        var i :| 0 <= i < |rs| && rs[i].txHash == hash;
        assert init[i].txHash == hash;
      }
    }
  }

  lemma {:induction false} LogsOfContain(rs: seq<Receipt>, r: Receipt, j: nat)
    requires r in rs && j < |r.logs|
    ensures r.logs[j] in LogsOf(rs)
    decreases |rs|
  {
    if r != rs[|rs| - 1] { LogsOfContain(rs[..|rs| - 1], r, j); }
  }

  lemma NewBlockCovered(bloom: Bloom, s: State, rs: seq<Option<Receipt>>, h: nat)
    requires Sound(bloom) && rs != [] && h !in s.hashes
    ensures var t := Commit(bloom, s, rs, h);
      && Covers(bloom, t, Listed(t, h), Bits(t, h))
      && forall i :: 0 <= i < |Listed(t, h)| ==> Listed(t, h)[i] in t.receipts
  {
    var t, stored := Commit(bloom, s, rs, h), Stored(rs);
    var hashes := HashesOf(stored);
    assert Listed(t, h) == [] + hashes == hashes;
    forall i | 0 <= i < |hashes| ensures hashes[i] in t.receipts && t.receipts[hashes[i]] in stored {
      assert stored[i].txHash == hashes[i];
      WithReceiptsAt(s.receipts, stored, hashes[i]);
    }
    forall i, j | 0 <= i < |hashes| && hashes[i] in t.receipts && 0 <= j < |t.receipts[hashes[i]].logs|
      ensures LogCovered(bloom, Bits(t, h), t.receipts[hashes[i]].logs[j])
    {
      var r := t.receipts[hashes[i]];
      LogsOfContain(stored, r, j);
      KeysCover(LogsOf(stored), r.logs[j]);
    }
  }

  lemma OldBlockCovered(bloom: Bloom, s: State, rs: seq<Option<Receipt>>, h: nat, g: nat)
    requires AllCovered(bloom, s) && FreshBlock(s, rs, h) && g != h && rs != []
    ensures var t := Commit(bloom, s, rs, h);
      && Covers(bloom, t, Listed(t, g), Bits(t, g))
      && forall i :: 0 <= i < |Listed(t, g)| ==> Listed(t, g)[i] in t.receipts
  {
    var t, stored := Commit(bloom, s, rs, h), Stored(rs);
    assert Listed(t, g) == Listed(s, g) && Bits(t, g) == Bits(s, g);
    assert Covers(bloom, s, Listed(s, g), Bits(s, g));
    forall i | 0 <= i < |Listed(s, g)|
      ensures Listed(s, g)[i] in t.receipts && t.receipts[Listed(s, g)[i]] == s.receipts[Listed(s, g)[i]]
    {
      var hash := Listed(s, g)[i];
      assert hash in s.hashes[g];
      WithReceiptsAt(s.receipts, stored, hash);
    }
  }

  /** Committing a new block whose receipts are its own keeps every block covered. */
  lemma CommitKeepsCovered(bloom: Bloom, s: State, rs: seq<Option<Receipt>>, h: nat)
    requires Sound(bloom) && AllCovered(bloom, s) && FreshBlock(s, rs, h)
    ensures AllCovered(bloom, Commit(bloom, s, rs, h))
  {
    var t := Commit(bloom, s, rs, h);
    if rs != [] {
      forall g
        ensures Covers(bloom, t, Listed(t, g), Bits(t, g))
        ensures forall i :: 0 <= i < |Listed(t, g)| ==> Listed(t, g)[i] in t.receipts
      {
        if g == h { NewBlockCovered(bloom, s, rs, h); } else { OldBlockCovered(bloom, s, rs, h, g); }
      }
    }
  }

  datatype Block = Block(height: nat, receipts: seq<Option<Receipt>>)

  function CommitAll(bloom: Bloom, blocks: seq<Block>): State {
    if blocks == [] then State(map[], map[], map[])
    else
      var last := blocks[|blocks| - 1];
      Commit(bloom, CommitAll(bloom, blocks[..|blocks| - 1]), last.receipts, last.height)
  }

  ghost predicate EachOnce(bloom: Bloom, blocks: seq<Block>) {
    forall i :: 0 <= i < |blocks| ==> FreshBlock(CommitAll(bloom, blocks[..i]), blocks[i].receipts, blocks[i].height)
  }

  lemma {:induction false} ChainCovered(bloom: Bloom, blocks: seq<Block>)
    requires Sound(bloom) && EachOnce(bloom, blocks)
    ensures AllCovered(bloom, CommitAll(bloom, blocks))
    decreases |blocks|
  {
    if blocks != [] {
      var init := blocks[..|blocks| - 1];
      forall i | 0 <= i < |init| ensures FreshBlock(CommitAll(bloom, init[..i]), init[i].receipts, init[i].height) {
        assert init[..i] == blocks[..i];
      }
      ChainCovered(bloom, init);
      CommitKeepsCovered(bloom, CommitAll(bloom, init), blocks[|blocks| - 1].receipts, blocks[|blocks| - 1].height);
    }
  }

  /** On every chain of blocks committed once, every query of every block whose times can be read returns
      exactly the matching logs of its receipts. */
  lemma QueriesAreExact(bloom: Bloom, blocks: seq<Block>, times: Times, f: Filter, h: nat)
    requires Sound(bloom) && EachOnce(bloom, blocks)
    requires Readable(CommitAll(bloom, blocks), times, Listed(CommitAll(bloom, blocks), h))
    ensures var s := CommitAll(bloom, blocks);
      Answer(bloom, s, times, f, h) == Scan(s, times, f, Listed(s, h))
  {
    ChainCovered(bloom, blocks);
    var s := CommitAll(bloom, blocks);
    assert Covers(bloom, s, Listed(s, h), Bits(s, h));
    CoveredIsTransparent(bloom, s, times, f, h);
  }

  /** Committing a block a second time replaces its filter: whatever log of the first commit the new
      filter does not cover is hidden from some query. */
  lemma SecondCommitHides(bloom: Bloom, s: State, rs: seq<Option<Receipt>>, h: nat, times: Times, i: nat, j: nat)
      returns (f: Filter)
    requires rs != [] && i < |Listed(s, h)| && Listed(s, h)[i] in s.receipts
    requires forall k :: 0 <= k < |Stored(rs)| ==> Stored(rs)[k].txHash != Listed(s, h)[i]
    requires j < |s.receipts[Listed(s, h)[i]].logs|
    requires !LogCovered(bloom, FilterBits(bloom, LogsOf(Stored(rs))), s.receipts[Listed(s, h)[i]].logs[j])
    requires Readable(Commit(bloom, s, rs, h), times, Listed(Commit(bloom, s, rs, h), h))
    ensures var t := Commit(bloom, s, rs, h);
      Answer(bloom, t, times, f, h) == Ok([]) != Scan(t, times, f, Listed(t, h))
  {
    var t, hash := Commit(bloom, s, rs, h), Listed(s, h)[i];
    WithReceiptsAt(s.receipts, Stored(rs), hash);
    assert Listed(t, h)[i] == hash && t.receipts[hash] == s.receipts[hash];
    f := UncoveredIsHidden(bloom, Bits(t, h), s.receipts[hash].logs[j]);
    ScanNonEmpty(t, times, f, Listed(t, h), i, j);
  }
}

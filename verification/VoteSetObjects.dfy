/** The mutable objects of the function consensus protocol. Every method is proved against the value
    of the object before and after it. */
module VoteSetObjects {
  import opened Basics
  import opened Tally
  import opened VoteSets
  import opened Majority

  /** The loop behind NumberOfVotes and NumberOfAgreeVotes. */
  method NumberOfBits(bits: seq<bool>) returns (n: nat)
    ensures n == Count(bits, |bits|)
  {
    n := 0;
    for i := 0 to |bits|
      invariant n == Count(bits, i)
    {
      if bits[i] { n := n + 1; }
    }
  }

  /** Position of validator `own` among the agreeing ones. */
  method FindAgreeIndex(bits: seq<bool>, own: int) returns (index: int)
    ensures index == AgreeIndex(bits, own)
  {
    index := -1;
    if !(0 <= own < |bits| && bits[own]) { return; }
    for i := 0 to own + 1
      invariant index == Count(bits, i) - 1
    {
      if bits[i] { index := index + 1; }
    }
  }

  class FnExecutionResponse {
    var hashes: seq<Option<Bytes>>
    var bits: seq<bool>
    var oracleSignatures: seq<Option<Bytes>>

    constructor (r: Response)
      ensures Value() == r
    {
      hashes, bits, oracleSignatures := r.hashes, r.bits, r.oracleSignatures;
    }

    function Value(): Response
      reads this
    { Response(hashes, bits, oracleSignatures) }

    /** Takes over the entries this response lacks. */
    method Merge(other: Response) returns (changed: bool, ok: bool)
      requires ResponseShaped(Value(), |bits|) && ResponseShaped(other, |other.bits|)
      modifies this
      ensures ok <==> ResponseComparable(old(Value()), other)
      ensures !ok ==> Value() == old(Value()) && !changed
      ensures ok ==> |old(bits)| == |other.bits| && Value() == MergeResponses(old(Value()), other)
      ensures ok ==> (changed <==> exists i :: 0 <= i < |other.bits| && Gain(old(bits), other.bits)[i])
    {
      changed, ok := false, ResponseComparable(Value(), other);
      if !ok { return; }
      ghost var was, gain := Value(), Gain(bits, other.bits);
      var n := |oracleSignatures|;
      for i := 0 to n
        invariant |hashes| == |bits| == |oracleSignatures| == n
        invariant forall j :: 0 <= j < n ==> bits[j] == (was.bits[j] || (j < i && other.bits[j]))
        invariant forall j :: 0 <= j < n ==> hashes[j] == if j < i && gain[j] then other.hashes[j] else was.hashes[j]
        invariant forall j :: 0 <= j < n ==>
          oracleSignatures[j] == if j < i && gain[j] then other.oracleSignatures[j] else was.oracleSignatures[j]
        invariant changed <==> exists j :: 0 <= j < i && gain[j]
      {
        if bits[i] || !other.bits[i] { continue; }
        changed := true;
        assert gain[i];
        oracleSignatures := oracleSignatures[i := other.oracleSignatures[i]];
        hashes := hashes[i := other.hashes[i]];
        bits := bits[i := true];
      }
      assert bits == Union(was.bits, other.bits);
      assert hashes == Pick(was.bits, other.bits, was.hashes, other.hashes);
      assert oracleSignatures == Pick(was.bits, other.bits, was.oracleSignatures, other.oracleSignatures);
    }

    /** Records one validator's response unless it is already there. */
    method AddSignature(resp: Individual, k: nat) returns (ok: bool)
      requires ResponseShaped(Value(), |bits|) && k < |bits|
      modifies this
      ensures ok <==> !old(bits)[k]
      ensures !ok ==> Value() == old(Value())
      ensures ok ==> Value() == Response(old(hashes)[k := resp.hash], old(bits)[k := true],
                                         old(oracleSignatures)[k := resp.oracleSignature])
    {
      if bits[k] { return false; }
      oracleSignatures := oracleSignatures[k := resp.oracleSignature];
      hashes := hashes[k := resp.hash];
      bits := bits[k := true];
      return true;
    }

    /** The first pass of ToMajResponse: a running maximum over the power counted per hash. */
    method FindLeader(vals: Validators, n: nat) returns (highest: Option<Bytes>, highestPower: int)
      requires WellFormed(vals) && n <= |hashes| && n <= |vals|
      ensures highest == Leader(hashes, vals, n)
      ensures forall h ::
        Power(vals, Voters(hashes, h, |vals|), n) <= if highest.None? then 0 else highestPower
      ensures if highest.None? then highestPower == -1
              else highestPower == Power(vals, Voters(hashes, highest.value, |vals|), n) > 0
    {
      var hashMap: map<Bytes, int> := map[];
      highest, highestPower := None, -1;
      for i := 0 to n
        invariant forall h :: h in hashMap ==> hashMap[h] == Power(vals, Voters(hashes, h, |vals|), i) <= highestPower
        invariant forall h :: h !in hashMap ==> Power(vals, Voters(hashes, h, |vals|), i) == 0
        invariant highest == Leader(hashes, vals, i)
        invariant highest.None? ==> hashMap == map[] && highestPower == -1
        invariant highest.Some? ==> highest.value in hashMap && hashMap[highest.value] == highestPower > 0
      {
        if hashes[i].None? { continue; }
        var key := hashes[i].value;
        hashMap := hashMap[key := (if key in hashMap then hashMap[key] else 0) + vals[i].power];
        if highestPower < hashMap[key] {
          highestPower := hashMap[key];
          highest := hashes[i];
        }
      }
    }

    /** One pass with a running maximum finds the majority hash, if there is one; the aggregate carries
        its agree bits and signatures. More entries than validators can end in a panic. */
    method ToMajResponse(threshold: Threshold, vals: Validators) returns (m: Option<Aggregate>, panicked: bool)
      requires WellFormed(vals) && |hashes| == |oracleSignatures|
      ensures panicked <==> MajPanics(Value(), vals)
      ensures !panicked ==> m == MajResponse(Value(), threshold, vals)
      ensures !panicked ==> (m.Some? <==> exists h :: HasMajority(Value(), threshold, vals, h))
      ensures !panicked && m.Some? ==> HasMajority(Value(), threshold, vals, m.value.hash)
      ensures !panicked ==> forall h :: HasMajority(Value(), threshold, vals, h) ==> m.Some? && h == m.value.hash
    {
      var n := if |hashes| <= |vals| then |hashes| else |vals|;
      var highest, highestPower := FindLeader(vals, n);
      for i := n to |hashes|
        invariant forall j :: n <= j < i ==> hashes[j].None?
      {
        if hashes[i].Some? { return None, true; }
      }
      forall h {
        NobodyBeyond(vals, Voters(hashes, h, |vals|), n, |vals|);
      }
      m, panicked := Winner(highest, highestPower, threshold, vals);
    }

    /** The second pass of ToMajResponse and its threshold test. */
    method Winner(highest: Option<Bytes>, highestPower: int, threshold: Threshold, vals: Validators)
        returns (m: Option<Aggregate>, panicked: bool)
      requires WellFormed(vals) && |hashes| == |oracleSignatures|
      requires forall i :: |vals| <= i < |hashes| ==> hashes[i].None?
      requires forall h :: HashPower(hashes, h, vals) <= if highest.None? then 0 else highestPower
      requires highest.Some? ==> highestPower == HashPower(hashes, highest.value, vals)
      requires highest.None? ==> highestPower == -1
      ensures panicked <==> |hashes| > |vals| && Raw(highest) == []
      ensures !panicked ==> m == MajResponse(Value(), threshold, vals)
      ensures !panicked ==> forall h :: HasMajority(Value(), threshold, vals, h) ==> m.Some? && h == m.value.hash
    {
      var agreeBits := seq(|vals|, i => false);
      var agreeSignatures: seq<Option<Bytes>> := seq(|vals|, i => None);
      for i := 0 to |hashes|
        invariant |agreeBits| == |agreeSignatures| == |vals|
        invariant i > |vals| ==> Raw(highest) != []
        invariant forall j :: 0 <= j < i && j < |vals| ==>
          && agreeBits[j] == (Raw(highest) == Raw(hashes[j]))
          && agreeSignatures[j] == if agreeBits[j] then oracleSignatures[j] else None
        invariant forall j :: i <= j < |vals| ==> !agreeBits[j] && agreeSignatures[j] == None
      {
        if Raw(highest) == Raw(hashes[i]) {
          if i >= |vals| { return None, true; }
          agreeBits := agreeBits[i := true];
          agreeSignatures := agreeSignatures[i := oracleSignatures[i]];
        }
      }
      panicked := false;
      TotalPositive(vals);
      if highest.Some? {
        PowerAtMostTotal(vals, Voters(hashes, highest.value, |vals|));
        if Reaches(threshold, highestPower, Total(vals)) {
          m := Some(Aggregate(highest.value, agreeBits, agreeSignatures));
          assert HasMajority(Value(), threshold, vals, highest.value);
          forall h | HasMajority(Value(), threshold, vals, h) ensures h == highest.value {
            MajorityUnique(Value(), threshold, vals, h, highest.value);
          }
          assert m.value == AggregateOf(Value(), highest.value, |vals|);
          return;
        }
      }
      m := None;
      forall h ensures !HasMajority(Value(), threshold, vals, h) {
        PowerAtMostTotal(vals, Voters(hashes, h, |vals|));
        assert HashPower(hashes, h, vals) <= if highest.None? then 0 else highestPower;
      }
    }
  }

  /** Entries beyond the recorded hashes hold no power. */
  lemma {:induction false} NobodyBeyond(vals: Validators, a: seq<bool>, m: nat, n: nat)
    requires m <= n <= |vals| && n <= |a| && forall i :: m <= i < n ==> !a[i]
    ensures Power(vals, a, n) == Power(vals, a, m)
  {
    if m < n { NobodyBeyond(vals, a, m, n - 1); }
  }

  class FnVoteSet {
    const nonce: int
    const validatorsHash: Bytes
    const chainID: string
    const fnID: string
    const response: FnExecutionResponse
    var totalVotingPower: int
    var bits: seq<bool>
    var signatures: seq<Option<Bytes>>
    var addresses: seq<Bytes>

    constructor (v: VoteSet)
      ensures Value() == v && fresh(response)
    {
      nonce, validatorsHash, chainID, fnID := v.nonce, v.validatorsHash, v.chainID, v.fnID;
      totalVotingPower, bits, signatures, addresses := v.totalVotingPower, v.bits, v.signatures, v.addresses;
      response := new FnExecutionResponse(v.response);
    }

    function Value(): VoteSet
      reads this, response
    {
      VoteSet(nonce, validatorsHash, chainID, totalVotingPower, bits, fnID, response.Value(), signatures, addresses)
    }

    /** The acceptance test, adding up the power of the voters as it goes. */
    method CheckValid(cfg: Config, vals: Validators) returns (ok: bool)
      ensures ok <==> IsValid(cfg, Value(), vals)
    {
      var v := Value();
      if !HeaderValid(cfg, v, vals) { return false; }
      var power := 0;
      for i := 0 to |vals|
        invariant forall j :: 0 <= j < i ==> EntryValid(cfg.codec, v, vals, j)
        invariant power == Power(vals, bits, i)
      {
        ghost var valid := EntryValid(cfg.codec, v, vals, i);
        if addresses[i] != vals[i].address { return false; }
        if bits[i] != response.bits[i] { return false; }
        if !bits[i] { continue; }
        if response.oracleSignatures[i] == None { return false; }
        if cfg.codec.addressOf(vals[i].pubKey) != addresses[i] { return false; }
        if !cfg.codec.verify(vals[i].pubKey, SignBytes(cfg.codec, v, i), Raw(signatures[i])) { return false; }
        power := power + vals[i].power;
      }
      ok := totalVotingPower == power;
    }

    /** Takes over the votes this set lacks, if the headers agree; otherwise changes nothing. */
    method Merge(vals: Validators, other: VoteSet) returns (changed: bool, ok: bool)
      requires Shaped(Value(), |bits|) && Shaped(other, |vals|)
      modifies this, response
      ensures ok <==> CanonicalCompare(old(Value()), other)
      ensures Value() == VoteSets.Merge(vals, old(Value()), other)
      ensures !ok ==> !changed
      ensures ok ==> |old(bits)| == |vals| && (changed <==> MergeChanges(old(Value()), other))
    {
      changed, ok := false, CanonicalCompare(Value(), other);
      if !ok { return; }
      var hasPayloadChanged, _ := response.Merge(other.response);
      var hasVotesChanged := MergeVotes(vals, other);
      changed := hasPayloadChanged || hasVotesChanged;
    }

    /** The vote loop of Merge: signatures, bits and power of the votes this set lacks. */
    method MergeVotes(vals: Validators, other: VoteSet) returns (changed: bool)
      requires |bits| == |signatures| == |other.bits| == |other.signatures| == |vals|
      requires addresses == other.addresses && |addresses| == |vals|
      modifies this
      ensures addresses == old(addresses) && bits == Union(old(bits), other.bits)
      ensures signatures == Pick(old(bits), other.bits, old(signatures), other.signatures)
      ensures totalVotingPower == old(totalVotingPower) + Power(vals, Gain(old(bits), other.bits), |vals|)
      ensures changed <==> exists i :: 0 <= i < |vals| && Gain(old(bits), other.bits)[i]
    {
      ghost var was, wasSigned, gain := bits, signatures, Gain(bits, other.bits);
      changed := false;
      var n := |bits|;
      for i := 0 to n
        invariant |bits| == |signatures| == n && addresses == other.addresses
        invariant forall j :: 0 <= j < n ==> bits[j] == (was[j] || (j < i && other.bits[j]))
        invariant forall j :: 0 <= j < n ==>
          signatures[j] == if j < i && gain[j] then other.signatures[j] else wasSigned[j]
        invariant totalVotingPower == old(totalVotingPower) + Power(vals, gain, i)
        invariant changed <==> exists j :: 0 <= j < i && gain[j]
      {
        if bits[i] || !other.bits[i] { continue; }
        changed := true;
        assert gain[i];
        signatures := signatures[i := other.signatures[i]];
        addresses := addresses[i := other.addresses[i]];
        bits := bits[i := true];
        totalVotingPower := totalVotingPower + vals[i].power;
      }
      assert bits == Union(was, other.bits);
      assert signatures == Pick(was, other.bits, wasSigned, other.signatures);
    }

    /** Adds this node's vote. On failure the object may already be partly written, exactly as the
        specification says. */
    method AddVote(nonce': int, resp: Individual, vals: Validators, k: nat, signature: Option<Bytes>)
        returns (ok: bool)
      requires Shaped(Value(), |bits|) && k < |bits|
      modifies this, response
      ensures (Value(), ok) == VoteSets.AddVote(old(Value()), nonce', resp, vals, k, signature)
    {
      if nonce != nonce' { return false; }
      if bits[k] { return false; }
      ok := response.AddSignature(resp, k);
      if !ok { return; }
      if signature.None? { return false; }
      bits := bits[k := true];
      signatures := signatures[k := signature];
      if k >= |vals| { return false; }
      if vals[k].address != addresses[k] { return false; }
      totalVotingPower := totalVotingPower + vals[k].power;
    }
  }
}

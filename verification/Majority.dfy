/** Which hash a set of responses agrees on: the declarative definition, its uniqueness, its stability
    and what two conflicting majorities imply. */
module Majority {
  import opened Basics
  import opened Tally
  import opened VoteSets

  datatype Aggregate = Aggregate(hash: Bytes, bits: seq<bool>, oracleSignatures: seq<Option<Bytes>>)

  /** The validators among n whose hash is h. */
  function Voters(hashes: seq<Option<Bytes>>, h: Bytes, n: nat): seq<bool> {
    seq(n, i => 0 <= i < |hashes| && hashes[i] == Some(h))
  }

  function HashPower(hashes: seq<Option<Bytes>>, h: Bytes, vals: Validators): int {
    Power(vals, Voters(hashes, h, |vals|), |vals|)
  }

  ghost predicate HasMajority(r: Response, threshold: Threshold, vals: Validators, h: Bytes) {
    Reaches(threshold, HashPower(r.hashes, h, vals), Total(vals))
  }

  /** The entries whose bytes equal h: its voters, and for the empty hash also every nil entry. */
  function Equal(hashes: seq<Option<Bytes>>, h: Bytes, n: nat): seq<bool> {
    seq(n, i => 0 <= i < |hashes| && Raw(hashes[i]) == h)
  }

  function AggregateOf(r: Response, h: Bytes, n: nat): Aggregate
    requires |r.hashes| == |r.oracleSignatures|
  {
    Aggregate(h, Equal(r.hashes, h, n),
              seq(n, i => if 0 <= i < |r.hashes| && Raw(r.hashes[i]) == h then r.oracleSignatures[i] else None))
  }

  /** The agreed response, if any hash reaches the threshold. */
  ghost function MajResponse(r: Response, threshold: Threshold, vals: Validators): (m: Option<Aggregate>)
    requires |r.hashes| == |r.oracleSignatures|
    ensures m.None? <==> !exists h :: HasMajority(r, threshold, vals, h)
    ensures m.Some? ==> HasMajority(r, threshold, vals, m.value.hash)
    ensures m.Some? ==> m.value == AggregateOf(r, m.value.hash, |vals|)
  {
    if h :| HasMajority(r, threshold, vals, h) then Some(AggregateOf(r, h, |vals|)) else None
  }

  /** The hash in the lead after the first n entries: the first to have reached the highest power. */
  function Leader(hashes: seq<Option<Bytes>>, vals: Validators, n: nat): Option<Bytes>
    requires n <= |hashes| && n <= |vals|
  {
    if n == 0 then None
    else
      var l := Leader(hashes, vals, n - 1);
      if hashes[n - 1].None? then l
      else if l.None? || Power(vals, Voters(hashes, hashes[n - 1].value, |vals|), n)
                         > Power(vals, Voters(hashes, l.value, |vals|), n - 1) then hashes[n - 1]
      else l
  }

  /** Computing the majority indexes out of range: there are more entries than validators, and one of the
      extra ones is present, or equals the leading hash because that is nil or empty. */
  predicate MajPanics(r: Response, vals: Validators) {
    && |r.hashes| > |vals|
    && ((exists i :: |vals| <= i < |r.hashes| && r.hashes[i].Some?) || Raw(Leader(r.hashes, vals, |vals|)) == [])
  }

  /** Different hashes have disjoint voters. */
  lemma HashPowersAddUp(r: Response, vals: Validators, h: Bytes, k: Bytes)
    requires WellFormed(vals) && h != k
    ensures HashPower(r.hashes, h, vals) + HashPower(r.hashes, k, vals) <= Total(vals)
  {
    var a, b := Voters(r.hashes, h, |vals|), Voters(r.hashes, k, |vals|);
    InclusionExclusion(vals, a, b, |vals|);
    PowerAtMostTotal(vals, Union(a, b));
    NobodyPower(vals, Both(a, b), |vals|);
  }

  lemma {:induction false} NobodyPower(vals: Validators, a: seq<bool>, n: nat)
    requires n <= |vals| && n <= |a| && forall i :: 0 <= i < n ==> !a[i]
    ensures Power(vals, a, n) == 0
  {
    if n > 0 { NobodyPower(vals, a, n - 1); }
  }

  lemma TotalPositive(vals: Validators)
    requires WellFormed(vals)
    ensures Total(vals) > 0
  {
    PowerMonotone(vals, Everyone(|vals|), Everyone(|vals|), |vals| - 1);
  }

  /** At most one hash has a majority. */
  lemma MajorityUnique(r: Response, threshold: Threshold, vals: Validators, h: Bytes, k: Bytes)
    requires WellFormed(vals)
    requires HasMajority(r, threshold, vals, h) && HasMajority(r, threshold, vals, k)
    ensures h == k
  {
    TotalPositive(vals);
    if h != k { HashPowersAddUp(r, vals, h, k); }
  }

  /** The majority hash was voted for by someone. */
  lemma MajorityHasVoter(r: Response, threshold: Threshold, vals: Validators, h: Bytes)
    requires WellFormed(vals) && HasMajority(r, threshold, vals, h)
    ensures exists i :: 0 <= i < |vals| && i < |r.hashes| && r.hashes[i] == Some(h)
  {
    TotalPositive(vals);
    var a := Voters(r.hashes, h, |vals|);
    if forall i :: 0 <= i < |vals| ==> !a[i] {
      NobodyPower(vals, a, |vals|);
      assert false;
    }
    var i :| 0 <= i < |vals| && a[i];
  }

  /** The agree bits are exactly the voters of the winning hash if and only if the empty byte string has
      no majority or no entry is nil. */
  lemma AgreeBitsExact(r: Response, threshold: Threshold, vals: Validators)
    requires WellFormed(vals) && ResponseShaped(r, |vals|)
    requires MajResponse(r, threshold, vals).Some?
    ensures var m := MajResponse(r, threshold, vals).value;
            m.bits == Voters(r.hashes, m.hash, |vals|) <==>
            !HasMajority(r, threshold, vals, []) || forall i :: 0 <= i < |vals| ==> r.hashes[i].Some?
  {
    var m := MajResponse(r, threshold, vals).value;
    var v := Voters(r.hashes, m.hash, |vals|);
    if HasMajority(r, threshold, vals, []) { MajorityUnique(r, threshold, vals, [], m.hash); }
    if m.hash != [] || forall i :: 0 <= i < |vals| ==> r.hashes[i].Some? {
      assert forall i :: 0 <= i < |vals| ==> m.bits[i] == v[i];
    } else {
      var i :| 0 <= i < |vals| && r.hashes[i].None?;
      assert m.bits[i] && !v[i];
    }
  }

  /** The agree bits can name validators that never voted: in an accepted vote set whose majority is one
      validator's empty hash, the validator without a vote is listed too. */
  lemma EmptyHashCountsAbsentees()
    ensures exists cfg: Config, v: VoteSet, vals: Validators ::
              && WellFormed(vals) && IsValid(cfg, v, vals)
              && MajResponse(v.response, cfg.threshold, vals).Some?
              && exists i :: 0 <= i < |vals| && MajResponse(v.response, cfg.threshold, vals).value.bits[i] && !v.bits[i]
  {
    var vals := [Validator([1], [1], 3), Validator([2], [2], 1)];
    var r := Response([Some([]), None], [true, false], [Some([7]), None]);
    var cfg, v := LaxConfig(), LaxVoteSet(1, r, vals);
    LaxVoteSetValid(1, r, vals);
    assert Power(vals, Everyone(2), 1) == 3 && Power(vals, Everyone(2), 2) == 4;
    var s := Voters(r.hashes, [], 2);
    assert s[0] && !s[1];
    assert Power(vals, s, 1) == 3;
    assert Power(vals, s, 2) == 3;
    assert HasMajority(r, Maj23, vals, []);
    var m := MajResponse(r, Maj23, vals);
    MajorityUnique(r, Maj23, vals, [], m.value.hash);
    assert m.value.bits[1] && !v.bits[1];
    assert WellFormed(vals) && IsValid(cfg, v, vals);
  }

  /** A vote set with a majority response has converged. */
  lemma MajorityConverges(cfg: Config, v: VoteSet, vals: Validators)
    requires WellFormed(vals) && IsValid(cfg, v, vals)
    requires MajResponse(v.response, cfg.threshold, vals).Some?
    ensures HasConverged(v, cfg.threshold, vals)
  {
    var h := MajResponse(v.response, cfg.threshold, vals).value.hash;
    var s := Voters(v.response.hashes, h, |vals|);
    forall i | 0 <= i < |vals| && s[i] ensures v.bits[i] {
      assert EntryValid(cfg.codec, v, vals, i) && v.response.hashes[i].Some?;
    }
    PowerMonotone(vals, s, v.bits, |vals|);
    PowerAtMostTotal(vals, v.bits);
  }

  /** Converging is not agreeing: in an accepted vote set all power can have voted with no hash in the
      majority. */
  lemma ConvergedWithoutMajority()
    ensures exists cfg: Config, v: VoteSet, vals: Validators ::
              && WellFormed(vals) && IsValid(cfg, v, vals) && HasConverged(v, cfg.threshold, vals)
              && MajResponse(v.response, cfg.threshold, vals).None?
  {
    var vals := [Validator([1], [1], 1), Validator([2], [2], 1)];
    var r := Response([Some([1]), Some([2])], [true, true], [Some([7]), Some([7])]);
    var cfg, v := LaxConfig(), LaxVoteSet(1, r, vals);
    LaxVoteSetValid(1, r, vals);
    assert Power(vals, Everyone(2), 1) == 1 && Power(vals, Everyone(2), 2) == 2;
    assert Power(vals, r.bits, 1) == 1 && Power(vals, r.bits, 2) == 2;
    forall h: Bytes ensures !HasMajority(r, Maj23, vals, h) {
      var s := Voters(r.hashes, h, 2);
      assert Power(vals, s, 2) == Power(vals, s, 1) + if s[1] then 1 else 0;
      assert Power(vals, s, 1) == if s[0] then 1 else 0;
      assert !(s[0] && s[1]);
    }
    assert WellFormed(vals) && IsValid(cfg, v, vals) && HasConverged(v, cfg.threshold, vals);
  }

  /** b keeps every hash of a. */
  ghost predicate Extends(a: Response, b: Response) {
    |a.hashes| == |b.hashes| && |a.oracleSignatures| == |b.oracleSignatures|
    && forall i :: 0 <= i < |a.hashes| ==> a.hashes[i].Some? ==> b.hashes[i] == a.hashes[i]
  }

  /** Nobody missing from a is counted by its agree bits and then votes otherwise in b: the empty byte
      string has no majority in a, or every nil entry of a is still empty bytes in b. */
  ghost predicate AbsenteesStay(a: Response, b: Response, threshold: Threshold, vals: Validators)
    requires ResponseShaped(a, |vals|) && ResponseShaped(b, |vals|)
  {
    !HasMajority(a, threshold, vals, []) || forall i :: 0 <= i < |vals| && a.hashes[i].None? ==> Raw(b.hashes[i]) == []
  }

  /** Once a hash has the majority it keeps it: further votes change neither the hash nor the votes
      already for it, and the agree bits only grow if and only if the absentees they count stay. */
  lemma MajorityStable(a: Response, b: Response, threshold: Threshold, vals: Validators)
    requires WellFormed(vals) && ResponseShaped(a, |vals|) && ResponseShaped(b, |vals|) && Extends(a, b)
    requires MajResponse(a, threshold, vals).Some?
    ensures MajResponse(b, threshold, vals).Some?
    ensures MajResponse(b, threshold, vals).value.hash == MajResponse(a, threshold, vals).value.hash
    ensures var h := MajResponse(a, threshold, vals).value.hash;
            Within(Voters(a.hashes, h, |vals|), Voters(b.hashes, h, |vals|))
    ensures Within(MajResponse(a, threshold, vals).value.bits, MajResponse(b, threshold, vals).value.bits) <==>
              AbsenteesStay(a, b, threshold, vals)
  {
    var h := MajResponse(a, threshold, vals).value.hash;
    PowerMonotone(vals, Voters(a.hashes, h, |vals|), Voters(b.hashes, h, |vals|), |vals|);
    PowerAtMostTotal(vals, Voters(b.hashes, h, |vals|));
    assert HasMajority(b, threshold, vals, h);
    MajorityUnique(b, threshold, vals, h, MajResponse(b, threshold, vals).value.hash);
    if HasMajority(a, threshold, vals, []) { MajorityUnique(a, threshold, vals, [], h); }
    AgreeBitsWithin(a, b, h, |vals|);
  }

  lemma AgreeBitsWithin(a: Response, b: Response, h: Bytes, n: nat)
    requires ResponseShaped(a, n) && ResponseShaped(b, n) && Extends(a, b)
    ensures Within(Equal(a.hashes, h, n), Equal(b.hashes, h, n)) <==>
              h != [] || forall i :: 0 <= i < n && a.hashes[i].None? ==> Raw(b.hashes[i]) == []
  {
    var x, y := Equal(a.hashes, h, n), Equal(b.hashes, h, n);
    if Within(x, y) && h == [] {
      forall i | 0 <= i < n && a.hashes[i].None? ensures Raw(b.hashes[i]) == [] { assert x[i]; }
    }
  }

  /** Merging and adding a vote only extend the responses of a vote set. */
  lemma OperationsExtend(cfg: Config, v: VoteSet, w: VoteSet, vals: Validators,
                         nonce: int, resp: Individual, k: nat, signature: Option<Bytes>)
    requires IsValid(cfg, v, vals) && IsValid(cfg, w, vals) && k < |vals|
    ensures Extends(v.response, Merge(vals, v, w).response)
    ensures Extends(v.response, AddVote(v, nonce, resp, vals, k, signature).0.response)
  {
    assert forall i :: 0 <= i < |vals| ==> EntryValid(cfg.codec, v, vals, i);
  }

  /** The majority of a valid vote set survives every merge and every added vote. */
  lemma MajoritySurvives(cfg: Config, v: VoteSet, w: VoteSet, vals: Validators,
                         nonce: int, resp: Individual, k: nat, signature: Option<Bytes>)
    requires WellFormed(vals) && IsValid(cfg, v, vals) && IsValid(cfg, w, vals) && k < |vals|
    requires MajResponse(v.response, cfg.threshold, vals).Some?
    ensures var m := MajResponse(v.response, cfg.threshold, vals).value;
            forall after :: after in {Merge(vals, v, w).response,
                                      AddVote(v, nonce, resp, vals, k, signature).0.response} ==>
              && ResponseShaped(after, |vals|)
              && MajResponse(after, cfg.threshold, vals).Some?
              && MajResponse(after, cfg.threshold, vals).value.hash == m.hash
              && Within(Voters(v.response.hashes, m.hash, |vals|), Voters(after.hashes, m.hash, |vals|))
              && (Within(m.bits, MajResponse(after, cfg.threshold, vals).value.bits) <==>
                    AbsenteesStay(v.response, after, cfg.threshold, vals))
  {
    OperationsExtend(cfg, v, w, vals, nonce, resp, k, signature);
    MajorityStable(v.response, Merge(vals, v, w).response, cfg.threshold, vals);
    MajorityStable(v.response, AddVote(v, nonce, resp, vals, k, signature).0.response, cfg.threshold, vals);
  }

  // ---- Quorum intersection ----

  /** Encoders that keep distinct responses apart. */
  ghost predicate Injective(codec: Codec) {
    forall h: Bytes, s: Bytes, h': Bytes, s': Bytes ::
      codec.marshalResponse(h, s) == codec.marshalResponse(h', s') ==> h == h' && s == s'
  }

  /** Validator i signed two different messages, one in each vote set, and both signatures verify. */
  ghost predicate SignedBoth(codec: Codec, v: VoteSet, w: VoteSet, vals: Validators, i: nat) {
    && i < |vals| && Shaped(v, |vals|) && Shaped(w, |vals|)
    && v.response.hashes[i].Some? && w.response.hashes[i].Some?
    && v.response.hashes[i] != w.response.hashes[i]
    && SignBytes(codec, v, i) != SignBytes(codec, w, i)
    && codec.verify(vals[i].pubKey, SignBytes(codec, v, i), Raw(v.signatures[i]))
    && codec.verify(vals[i].pubKey, SignBytes(codec, w, i), Raw(w.signatures[i]))
  }

  lemma ConflictingVoteIsDoubleSigned(cfg: Config, v: VoteSet, w: VoteSet, vals: Validators, i: nat)
    requires Injective(cfg.codec) && IsValid(cfg, v, vals) && IsValid(cfg, w, vals) && i < |vals|
    requires v.fnID == w.fnID && v.nonce == w.nonce
    requires v.response.hashes[i].Some? && w.response.hashes[i].Some?
    requires v.response.hashes[i] != w.response.hashes[i]
    ensures SignedBoth(cfg.codec, v, w, vals, i)
  {
    assert EntryValid(cfg.codec, v, vals, i) && EntryValid(cfg.codec, w, vals, i);
    var c := cfg.codec;
    var head := c.signPrefix(v.nonce, v.chainID, v.addresses[i]) + SEPARATOR + v.validatorsHash + SEPARATOR;
    var req := c.marshalRequest(v.fnID) + [0x50];
    var mv := c.marshalResponse(Raw(v.response.hashes[i]), Raw(v.response.oracleSignatures[i]));
    var mw := c.marshalResponse(Raw(w.response.hashes[i]), Raw(w.response.oracleSignatures[i]));
    assert mv != mw;
    assert SignBytes(c, v, i) == head + (req + mv) && SignBytes(c, w, i) == head + (req + mw);
    SuffixesDiffer(head, req, mv, mw);
  }

  lemma SuffixesDiffer(head: Bytes, req: Bytes, a: Bytes, b: Bytes)
    requires a != b
    ensures head + (req + a) != head + (req + b)
  {
    var x, y := head + (req + a), head + (req + b);
    assert x[|head| + |req|..] == a && y[|head| + |req|..] == b;
  }

  /** Two valid vote sets for one function, nonce and validator set with majorities on different hashes:
      the validators that signed both hold more than one third of the power, despite the integer
      division in the threshold and whichever threshold each majority reached. */
  lemma QuorumIntersection(cfg: Config, v: VoteSet, w: VoteSet, vals: Validators,
                           t: Threshold, h: Bytes, t': Threshold, k: Bytes)
      returns (culprits: seq<bool>)
    requires WellFormed(vals) && Injective(cfg.codec)
    requires IsValid(cfg, v, vals) && IsValid(cfg, w, vals) && v.fnID == w.fnID && v.nonce == w.nonce
    requires HasMajority(v.response, t, vals, h) && HasMajority(w.response, t', vals, k) && h != k
    ensures |culprits| == |vals| && 3 * Power(vals, culprits, |vals|) > Total(vals)
    ensures forall i :: 0 <= i < |vals| && culprits[i] ==> SignedBoth(cfg.codec, v, w, vals, i)
  {
    var a, b := Voters(v.response.hashes, h, |vals|), Voters(w.response.hashes, k, |vals|);
    culprits := Both(a, b);
    InclusionExclusion(vals, a, b, |vals|);
    PowerAtMostTotal(vals, Union(a, b));
    TotalPositive(vals);
    forall i | 0 <= i < |vals| && culprits[i] ensures SignedBoth(cfg.codec, v, w, vals, i) {
      ConflictingVoteIsDoubleSigned(cfg, v, w, vals, i);
    }
  }

  // ---- The submitter ----

  /** Position of validator `own` among the agreeing ones, -1 when it does not agree. */
  function AgreeIndex(bits: seq<bool>, own: int): int {
    if 0 <= own < |bits| && bits[own] then Count(bits, own + 1) - 1 else -1
  }

  lemma {:induction false} KthAgreeing(bits: seq<bool>, k: nat, n: nat) returns (i: nat)
    requires n <= |bits| && k < Count(bits, n)
    ensures i < n && AgreeIndex(bits, i) == k
  {
    if bits[n - 1] && Count(bits, n) == k + 1 {
      i := n - 1;
    } else {
      i := KthAgreeing(bits, k, n - 1);
    }
  }

  lemma {:induction false} CountMonotoneInN(bits: seq<bool>, m: nat, n: nat)
    requires m <= n <= |bits|
    ensures Count(bits, m) <= Count(bits, n)
  {
    if m < n { CountMonotoneInN(bits, m, n - 1); }
  }

  lemma AgreeIndexInjective(bits: seq<bool>, i: int, j: int)
    requires AgreeIndex(bits, i) == AgreeIndex(bits, j) != -1
    ensures i == j
  {
    if i < j {
      CountMonotoneInN(bits, i + 1, j);
    } else if j < i {
      CountMonotoneInN(bits, j + 1, i);
    }
  }

  /** The test by which validator `own` decides that it is the one to submit. */
  predicate IsSubmitter(bits: seq<bool>, nonce: int, own: int)
    requires Count(bits, |bits|) > 0
  {
    AgreeIndex(bits, own) != -1 && nonce % Count(bits, |bits|) == AgreeIndex(bits, own)
  }

  /** For any majority response and nonce, the divisor is positive and exactly one validator submits;
      it agrees with the winning hash. */
  lemma ExactlyOneSubmitter(r: Response, threshold: Threshold, vals: Validators, nonce: int) returns (i: nat)
    requires WellFormed(vals) && ResponseShaped(r, |vals|) && nonce >= 0
    requires MajResponse(r, threshold, vals).Some?
    ensures var bits := MajResponse(r, threshold, vals).value.bits;
            && |bits| == |vals| && Count(bits, |bits|) > 0
            && i < |vals| && bits[i]
            && forall j :: IsSubmitter(bits, nonce, j) <==> j == i
  {
    var m := MajResponse(r, threshold, vals).value;
    var bits := m.bits;
    MajorityHasVoter(r, threshold, vals, m.hash);
    var v :| 0 <= v < |vals| && r.hashes[v] == Some(m.hash);
    assert bits[v];
    CountMonotoneInN(bits, v + 1, |bits|);
    i := KthAgreeing(bits, nonce % Count(bits, |bits|), |bits|);
    forall j ensures IsSubmitter(bits, nonce, j) <==> j == i {
      if IsSubmitter(bits, nonce, j) { AgreeIndexInjective(bits, i, j); }
    }
  }

  /** The submitter takes turns: validator i submits if and only if it agrees and as many agreeing validators
      come before it as the nonce leaves modulo their number. */
  lemma SubmitterExactlyWhen(bits: seq<bool>, nonce: int, i: nat)
    requires i < |bits| && nonce >= 0 && Count(bits, |bits|) > 0
    ensures IsSubmitter(bits, nonce, i) <==> bits[i] && Count(bits, i) == nonce % Count(bits, |bits|)
  {
    assert bits[i] ==> Count(bits, i + 1) == Count(bits, i) + 1;
  }
}

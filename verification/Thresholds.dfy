/** What the two signing thresholds mean, in votes and power, and what a majority response carries. */
module Thresholds {
  import opened Basics
  import opened Tally
  import opened VoteSets
  import opened Majority

  /** A selection holds all the power if and only if it is everybody. */
  lemma {:induction false} FullPower(vals: Validators, sel: seq<bool>, n: nat)
    requires n <= |vals| && |sel| == |vals| && forall i :: 0 <= i < |vals| ==> vals[i].power > 0
    ensures Power(vals, sel, n) == Power(vals, Everyone(|vals|), n) <==> forall i :: 0 <= i < n ==> sel[i]
  {
    if n > 0 {
      FullPower(vals, sel, n - 1);
      PowerMonotone(vals, sel, Everyone(|vals|), n - 1);
    }
  }

  /** Requiring everybody: an accepted vote set has converged if and only if every validator has voted. */
  lemma ConvergedUnderAll(cfg: Config, v: VoteSet, vals: Validators)
    requires WellFormed(vals) && IsValid(cfg, v, vals)
    ensures HasConverged(v, All, vals) <==> forall i :: 0 <= i < |vals| ==> v.bits[i]
  {
    FullPower(vals, v.bits, |vals|);
  }

  /** Requiring two thirds: an accepted vote set has converged if and only if its voters hold more than two
      thirds of the power, whatever the integer division drops. */
  lemma ConvergedUnderMaj23(cfg: Config, v: VoteSet, vals: Validators)
    requires WellFormed(vals) && IsValid(cfg, v, vals)
    ensures HasConverged(v, Maj23, vals) <==> 3 * Power(vals, v.bits, |vals|) > 2 * Total(vals)
  {
  }

  /** Every validator answered with the same hash. */
  ghost predicate Unanimous(r: Response, n: nat, h: Bytes)
    requires ResponseShaped(r, n)
  { forall i :: 0 <= i < n ==> r.hashes[i] == Some(h) }

  lemma AllHashPower(r: Response, vals: Validators, h: Bytes)
    requires WellFormed(vals) && ResponseShaped(r, |vals|)
    ensures HasMajority(r, All, vals, h) <==> Unanimous(r, |vals|, h)
  {
    var voters := Voters(r.hashes, h, |vals|);
    FullPower(vals, voters, |vals|);
    assert forall i :: 0 <= i < |vals| ==> (voters[i] <==> r.hashes[i] == Some(h));
  }

  /** Requiring everybody: there is a majority response if and only if all validators answered with one
      hash, and then it is that hash. */
  lemma MajorityUnderAll(r: Response, vals: Validators)
    requires WellFormed(vals) && ResponseShaped(r, |vals|)
    ensures MajResponse(r, All, vals).Some? <==> exists h :: Unanimous(r, |vals|, h)
    ensures MajResponse(r, All, vals).Some? ==> Unanimous(r, |vals|, MajResponse(r, All, vals).value.hash)
  {
    if MajResponse(r, All, vals).Some? { AllHashPower(r, vals, MajResponse(r, All, vals).value.hash); }
    if h :| Unanimous(r, |vals|, h) { AllHashPower(r, vals, h); }
  }

  /** The validators that answered with h hold more than two thirds of the power. */
  ghost predicate TwoThirds(r: Response, vals: Validators, h: Bytes) {
    3 * HashPower(r.hashes, h, vals) > 2 * Total(vals)
  }

  /** Requiring two thirds: there is a majority response if and only if the validators of some hash hold
      more than two thirds of the power, and then it is that hash. */
  lemma MajorityUnderMaj23(r: Response, vals: Validators)
    requires WellFormed(vals) && ResponseShaped(r, |vals|)
    ensures MajResponse(r, Maj23, vals).Some? <==> exists h :: TwoThirds(r, vals, h)
    ensures forall h :: TwoThirds(r, vals, h) ==>
              MajResponse(r, Maj23, vals).Some? && MajResponse(r, Maj23, vals).value.hash == h
  {
    var m := MajResponse(r, Maj23, vals);
    if m.Some? { assert TwoThirds(r, vals, m.value.hash); }
    forall h | TwoThirds(r, vals, h) ensures m.Some? && m.value.hash == h {
      assert HasMajority(r, Maj23, vals, h);
      MajorityUnique(r, Maj23, vals, h, m.value.hash);
    }
  }

  /** A majority response carries, for each validator, its recorded oracle signature if it agrees and none
      otherwise; to agree is to have the winning hash's bytes. */
  lemma MajorityCarries(r: Response, threshold: Threshold, vals: Validators, i: nat)
    requires WellFormed(vals) && ResponseShaped(r, |vals|) && MajResponse(r, threshold, vals).Some? && i < |vals|
    ensures var m := MajResponse(r, threshold, vals).value;
      && |m.bits| == |m.oracleSignatures| == |vals|
      && (m.bits[i] <==> Raw(r.hashes[i]) == m.hash)
      && m.oracleSignatures[i] == if m.bits[i] then r.oracleSignatures[i] else None
  {
  }
}

/** The function consensus reactor: the locked parts of its routines and message handlers, each proved
    to perform exactly its protocol step. */
module Reactor {
  import opened Basics
  import opened Tally
  import opened VoteSets
  import opened Majority
  import opened VoteSetObjects
  import opened Persistence
  import opened Protocol

  class FnConsensusReactor {
    const cfg: Config
    var currentVoteSets: map<string, VoteSet>
    var currentNonces: map<string, int>
    var previousTimedOutVoteSets: map<string, VoteSet>
    var previousMajVoteSets: map<string, VoteSet>
    var previousValidatorSet: Option<Validators>
    var disk: Option<Image>

    function Value(): State
      reads this
    {
      State(currentVoteSets, currentNonces, previousTimedOutVoteSets, previousMajVoteSets, previousValidatorSet)
    }

    ghost function Snapshot(): Node
      reads this
    { Node(Value(), disk) }

    constructor (cfg: Config, disk: Option<Image>)
      ensures this.cfg == cfg && this.disk == disk && Value() == Load(disk)
    {
      var s := EMPTY_STATE;
      if disk.Some? { s := Unmarshal(disk.value); }
      this.cfg, this.disk := cfg, disk;
      currentVoteSets, currentNonces := s.current, s.nonces;
      previousTimedOutVoteSets, previousMajVoteSets := s.timedOut, s.prevMaj;
      previousValidatorSet := s.prevVals;
    }

    /** Writes the state to disk; nothing is written when marshalling fails. */
    method Save(marshals: bool)
      modifies `disk
      ensures if marshals then disk.Some? && Flattens(Value(), disk.value) else disk == old(disk)
    {
      if marshals {
        var image := Marshal(Value());
        disk := Some(image);
      }
    }

    /** Casts our own vote for f. */
    method Vote(f: string, vals: Validators, resp: Option<Individual>, signature: Option<Bytes>, marshals: bool)
        returns (out: Out)
      requires WellFormed(vals) && Steppable(Value())
      modifies this
      ensures out == Step(cfg, old(Value()), DoVote(f, vals, resp, signature, marshals)).1
      ensures Next(cfg, old(Snapshot()), DoVote(f, vals, resp, signature, marshals), Snapshot())
    {
      var own := IndexOf(vals, cfg.ownAddress);
      if own < 0 || resp.None? || f !in cfg.registry { return NOTHING; }
      var currentNonce := if f in currentNonces then currentNonces[f] else 1;
      var voteSet := NewVoteSet(cfg, currentNonce, f, resp.value, vals, own, signature);
      if voteSet.None? { return NOTHING; }
      var response := new FnExecutionResponse(voteSet.value.response);
      var majority, _ := response.ToMajResponse(cfg.threshold, vals);
      if majority.Some? { return Out(false, true, false); }
      currentVoteSets := currentVoteSets[f := voteSet.value];
      Save(marshals);
      return if marshals then Out(true, false, true) else NOTHING;
    }

    /** Commits f's vote set if it has converged, drops it if it is no longer valid. */
    method Commit(f: string, vals: Validators, marshals: bool) returns (out: Out)
      requires WellFormed(vals) && Steppable(Value())
      modifies this
      ensures out == Step(cfg, old(Value()), DoCommit(f, vals, marshals)).1
      ensures Next(cfg, old(Snapshot()), DoCommit(f, vals, marshals), Snapshot())
    {
      out := CommitInMemory(f, vals);
      if out.saves { Save(marshals); }
      out := AfterSave(out, marshals, true);
    }

    /** The part of a commit before its save. */
    method CommitInMemory(f: string, vals: Validators) returns (out: Out)
      requires WellFormed(vals) && Steppable(Value())
      modifies this
      ensures disk == old(disk) && (Value(), out) == CommitStep(cfg, old(Value()), f, vals)
    {
      if f !in cfg.registry || f !in currentVoteSets { return NOTHING; }
      var own := IndexOf(vals, cfg.ownAddress);
      var v := currentVoteSets[f];
      var currentNonce := if f in currentNonces then currentNonces[f] else 0;
      var voteSet := new FnVoteSet(v);
      var valid := voteSet.CheckValid(cfg, vals);
      if !valid {
        currentVoteSets := currentVoteSets - {f};
        return Out(false, false, true);
      }
      if !HasConverged(v, cfg.threshold, vals) {
        return Out(f in previousMajVoteSets, false, true);
      }
      var submits := SubmitsNow(v, vals, currentNonce, own);
      currentNonces := currentNonces[f := Inc64(currentNonce)];
      previousValidatorSet := Some(vals);
      previousMajVoteSets := previousMajVoteSets[f := v];
      currentVoteSets := currentVoteSets - {f};
      return Out(false, submits, true);
    }

    /** Whether we are the validator that submits the majority message. */
    method SubmitsNow(v: VoteSet, vals: Validators, nonce: int, own: int) returns (submits: bool)
      requires WellFormed(vals) && Shaped(v, |vals|)
      ensures submits <==> Submits(cfg, v, vals, nonce, own)
    {
      if own < 0 { return false; }
      var response := new FnExecutionResponse(v.response);
      var majority, _ := response.ToMajResponse(cfg.threshold, vals);
      if majority.None? { return false; }
      MajorityCounts(v.response, cfg.threshold, vals);
      var numberOfAgreeVotes := NumberOfBits(majority.value.bits);
      var agreeVoteIndex := FindAgreeIndex(majority.value.bits, own);
      submits := agreeVoteIndex != -1 && nonce % numberOfAgreeVotes == agreeVoteIndex;
    }

    /** The validator set that accepts a majority vote set: the current one, else the previous one. */
    method FindSigners(remote: VoteSet, vals: Validators) returns (signers: Option<Validators>)
      ensures signers == SignedBy(cfg, Value(), remote, vals)
    {
      var voteSet := new FnVoteSet(remote);
      var valid := voteSet.CheckValid(cfg, vals);
      if valid { return Some(vals); }
      if previousValidatorSet.None? { return None; }
      valid := voteSet.CheckValid(cfg, previousValidatorSet.value);
      return if valid then previousValidatorSet else None;
    }

    /** Handles a peer's majority vote set. */
    method HandleMaj23(remote: VoteSet, vals: Validators, marshals: bool) returns (out: Out)
      requires WellFormed(vals) && Steppable(Value()) && IsInt64(remote.nonce)
      modifies this
      ensures out == Step(cfg, old(Value()), MajMsg(remote, vals, marshals)).1
      ensures Next(cfg, old(Snapshot()), MajMsg(remote, vals, marshals), Snapshot())
    {
      var signers := FindSigners(remote, vals);
      if signers.None? { return NOTHING; }
      var f := remote.fnID;
      var currentNonce := if f in currentNonces then currentNonces[f] else 1;
      if !HasConverged(remote, cfg.threshold, signers.value) { return NOTHING; }
      var needToBroadcast := true;
      if remote.nonce < currentNonce {
        needToBroadcast := false;
        if remote.nonce == currentNonce - 1 && f !in previousMajVoteSets {
          previousMajVoteSets := previousMajVoteSets[f := remote];
          previousValidatorSet := signers;
        }
      } else {
        previousMajVoteSets := previousMajVoteSets[f := remote];
        previousValidatorSet := signers;
        currentNonces := currentNonces[f := Inc64(remote.nonce)];
        currentVoteSets := currentVoteSets - {f};
      }
      assert (Value(), Out(needToBroadcast, false, true)) == MajStep(cfg, old(Value()), remote, vals);
      Save(marshals);
      return Out(needToBroadcast && marshals, false, marshals);
    }

    /** Which of two vote sets to trust. */
    method CompareVoteSets(remote: VoteSet, cur: Option<VoteSet>, nonce: int, vals: Validators) returns (r: Verdict)
      requires WellFormed(vals) && Shaped(remote, |vals|) && (cur.Some? ==> Shaped(cur.value, |cur.value.bits|))
      ensures r == Compare(cfg, remote, cur, nonce, vals)
    {
      if cur.None? {
        if nonce == remote.nonce { return Replace; }
        if HasConverged(remote, cfg.threshold, vals) { return Replace; }
        return Keep;
      }
      if cur.value.nonce == remote.nonce { return Same; }
      var currentConverged := HasConverged(cur.value, cfg.threshold, vals);
      var remoteConverged := HasConverged(remote, cfg.threshold, vals);
      if currentConverged && !remoteConverged { return Keep; }
      if !currentConverged && remoteConverged { return Replace; }
      if !currentConverged && !remoteConverged { return Keep; }
      var currentVotes := NumberOfBits(cur.value.bits);
      var remoteVotes := NumberOfBits(remote.bits);
      if remoteVotes < currentVotes { return Keep; }
      if remoteVotes > currentVotes { return Replace; }
      r := CompareMajorities(remote.response, cur.value.response, vals);
    }

    /** The tie-break on majority responses; the program stops when computing ours panics. */
    method CompareMajorities(remote: Response, ours: Response, vals: Validators) returns (r: Verdict)
      requires WellFormed(vals) && |remote.hashes| == |remote.oracleSignatures| <= |vals|
      requires |ours.hashes| == |ours.oracleSignatures|
      ensures r == Abort <==> MajPanics(ours, vals)
      ensures r != Abort ==>
        var theirs, mine := MajResponse(remote, cfg.threshold, vals), MajResponse(ours, cfg.threshold, vals);
        r == if theirs.Some? && (mine.None? || Count(theirs.value.bits, |theirs.value.bits|)
                                               > Count(mine.value.bits, |mine.value.bits|))
             then Replace else Keep
    {
      var currentResponse := new FnExecutionResponse(ours);
      var remoteResponse := new FnExecutionResponse(remote);
      var currentMajority, panicked := currentResponse.ToMajResponse(cfg.threshold, vals);
      if panicked { return Abort; }
      var remoteMajority, _ := remoteResponse.ToMajResponse(cfg.threshold, vals);
      if remoteMajority.None? { return Keep; }
      if currentMajority.None? { return Replace; }
      var currentAgree := NumberOfBits(currentMajority.value.bits);
      var remoteAgree := NumberOfBits(remoteMajority.value.bits);
      return if remoteAgree > currentAgree then Replace else Keep;
    }

    /** Merges a peer's vote set into ours or replaces ours by it. */
    method AbsorbRemote(remote: VoteSet, vals: Validators) returns (changed: Option<bool>)
      requires WellFormed(vals) && Shapely(Value()) && Shaped(remote, |vals|)
      modifies this
      ensures (Value(), changed) == Absorb(cfg, old(Value()), remote, vals) && disk == old(disk)
    {
      var f := remote.fnID;
      if f !in currentNonces { currentNonces := currentNonces[f := 1]; }
      var currentNonce := currentNonces[f];
      var cur := if f in currentVoteSets then Some(currentVoteSets[f]) else None;
      if currentNonce > remote.nonce { return None; }
      var verdict := CompareVoteSets(remote, cur, currentNonce, vals);
      match verdict
      case Abort => return None;
      case Keep => return if cur.None? then None else Some(false);
      case Replace =>
        currentVoteSets := currentVoteSets[f := remote];
        currentNonces := currentNonces[f := remote.nonce];
        return Some(true);
      case Same =>
        var voteSet := new FnVoteSet(cur.value);
        var gained, ok := voteSet.Merge(vals, remote);
        if !ok { return None; }
        currentVoteSets := currentVoteSets[f := voteSet.Value()];
        return Some(gained);
    }

    /** Handles a peer's vote set; nothing is saved to disk. */
    method HandleVoteSet(remote: VoteSet, vals: Validators, resp: Option<Individual>, signature: Option<Bytes>)
        returns (out: Out)
      requires WellFormed(vals) && Steppable(Value()) && IsInt64(remote.nonce)
      modifies this
      ensures out == Step(cfg, old(Value()), VoteSetMsg(remote, vals, resp, signature)).1
      ensures Next(cfg, old(Snapshot()), VoteSetMsg(remote, vals, resp, signature), Snapshot())
    {
      var received := new FnVoteSet(remote);
      var valid := received.CheckValid(cfg, vals);
      if !valid { return NOTHING; }
      var changed := AbsorbRemote(remote, vals);
      if changed.None? { return NOTHING; }
      var f, own := remote.fnID, IndexOf(vals, cfg.ownAddress);
      var v := currentVoteSets[f];
      if own < 0 || (own < |v.bits| && v.bits[own]) { return Out(changed.value, false, false); }
      if resp.None? || own >= |v.bits| { return NOTHING; }
      var voteSet := new FnVoteSet(v);
      var ok := voteSet.AddVote(currentNonces[f], resp.value, vals, own, signature);
      currentVoteSets := currentVoteSets[f := voteSet.Value()];
      return Out(ok, false, false);
    }
  }
}

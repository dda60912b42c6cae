/** When a node takes over what others send it, adds its own vote and passes it on: what each step does to
    the vote set in progress, in terms of votes, nonces and thresholds. */
module Adoption {
  import opened Basics
  import opened Tally
  import opened VoteSets
  import opened Majority
  import opened Thresholds
  import opened Persistence
  import opened Protocol
  import opened ReactorRuns

  // ---- vote sets that hold another's votes ----

  ghost predicate SameHeader(w: VoteSet, v: VoteSet) {
    && w.nonce == v.nonce && w.fnID == v.fnID && w.chainID == v.chainID
    && w.validatorsHash == v.validatorsHash && w.addresses == v.addresses
    && Shaped(v, |v.bits|) && Shaped(w, |v.bits|)
  }

  /** Validator i's vote is the same in both: hash, oracle signature and signature. */
  ghost predicate SameVote(w: VoteSet, v: VoteSet, i: nat) {
    && i < |v.bits| && Shaped(v, |v.bits|) && Shaped(w, |v.bits|) && w.bits[i] == v.bits[i]
    && w.signatures[i] == v.signatures[i] && w.response.hashes[i] == v.response.hashes[i]
    && w.response.oracleSignatures[i] == v.response.oracleSignatures[i]
  }

  /** w is v, perhaps with the vote of validator `own` added where v has none. */
  ghost predicate PlusOwn(w: VoteSet, v: VoteSet, own: int) {
    && SameHeader(w, v)
    && forall i :: 0 <= i < |v.bits| && (i != own || v.bits[i]) ==> SameVote(w, v, i)
  }

  lemma ContributePlusOwn(cfg: Config, s: State, f: string, changed: bool, vals: Validators,
                          resp: Option<Individual>, signature: Option<Bytes>)
    requires Shapely(s) && f in s.current && f in s.nonces
    ensures var t := Contribute(cfg, s, f, changed, vals, resp, signature).0;
      f in t.current && PlusOwn(t.current[f], s.current[f], IndexOf(vals, cfg.ownAddress)) && t.nonces == s.nonces
  {
    var v, own := s.current[f], IndexOf(vals, cfg.ownAddress);
    if 0 <= own < |v.bits| && resp.Some? {
      AddVotePlusOwn(v, s.nonces[f], resp.value, vals, own, signature);
    }
  }

  lemma AddVotePlusOwn(v: VoteSet, nonce: int, resp: Individual, vals: Validators, k: nat, signature: Option<Bytes>)
    requires Shaped(v, |v.bits|) && k < |v.bits|
    ensures PlusOwn(AddVote(v, nonce, resp, vals, k, signature).0, v, k)
  {
  }

  /** Our vote is in, and says what we answered. */
  ghost predicate HoldsAnswer(v: VoteSet, own: int, resp: Individual, signature: Option<Bytes>) {
    && Shaped(v, |v.bits|) && 0 <= own < |v.bits| && v.bits[own] && v.response.bits[own]
    && v.response.hashes[own] == resp.hash && v.response.oracleSignatures[own] == resp.oracleSignature
    && v.signatures[own] == signature && signature.Some?
  }

  /** Our vote can be added to v: we have an answer and a signature, and v has no trace of us. */
  ghost predicate CanAdd(v: VoteSet, vals: Validators, own: int, resp: Option<Individual>, signature: Option<Bytes>) {
    && Shaped(v, |v.bits|) && 0 <= own < |v.bits| && own < |vals| && !v.bits[own] && !v.response.bits[own]
    && vals[own].address == v.addresses[own] && resp.Some? && signature.Some?
  }

  /** With v the set we go on with: we pass it on if and only if our vote was missing and can be added, or
      is not missing (or we are no validator) and the message brought something new. */
  lemma ContributeBroadcasts(cfg: Config, s: State, f: string, changed: bool, vals: Validators,
                             resp: Option<Individual>, signature: Option<Bytes>)
    requires Shapely(s) && f in s.current && f in s.nonces && s.current[f].nonce == s.nonces[f]
    ensures var (t, out) := Contribute(cfg, s, f, changed, vals, resp, signature);
      var v, own := s.current[f], IndexOf(vals, cfg.ownAddress);
      && !out.submits && !out.saves
      && (out.broadcasts <==> if own < 0 || (own < |v.bits| && v.bits[own]) then changed
                              else CanAdd(v, vals, own, resp, signature))
      && (CanAdd(v, vals, own, resp, signature) ==> HoldsAnswer(t.current[f], own, resp.value, signature))
  {
  }

  // ---- a vote set message ----

  ghost function Agreeing(r: Response, threshold: Threshold, vals: Validators): nat
    requires |r.hashes| == |r.oracleSignatures|
  {
    var m := MajResponse(r, threshold, vals);
    if m.None? then 0 else Count(m.value.bits, |m.value.bits|)
  }

  /** The remote set is preferred to a set of ours with another nonce: it has converged, and ours has not,
      or has fewer votes, or as many votes and fewer of them agreeing. */
  ghost predicate Preferred(cfg: Config, remote: VoteSet, cur: VoteSet, vals: Validators)
    requires Shaped(remote, |vals|) && Shaped(cur, |cur.bits|)
  {
    && HasConverged(remote, cfg.threshold, vals)
    && (|| !HasConverged(cur, cfg.threshold, vals)
        || NumberOfVotes(cur) < NumberOfVotes(remote)
        || (&& NumberOfVotes(cur) == NumberOfVotes(remote) && !MajPanics(cur.response, vals)
            && Agreeing(cur.response, cfg.threshold, vals) < Agreeing(remote.response, cfg.threshold, vals)))
  }

  lemma PreferredIsReplace(cfg: Config, remote: VoteSet, cur: VoteSet, nonce: int, vals: Validators)
    requires WellFormed(vals) && Shaped(remote, |vals|) && Shaped(cur, |cur.bits|) && cur.nonce != remote.nonce
    ensures Compare(cfg, remote, Some(cur), nonce, vals) == Replace <==> Preferred(cfg, remote, cur, vals)
    ensures Compare(cfg, remote, Some(cur), nonce, vals) == Abort <==> Stops(cfg, remote, cur, vals)
  {
    if MajResponse(remote.response, cfg.threshold, vals).Some? {
      MajorityCounts(remote.response, cfg.threshold, vals);
    }
  }

  /** Comparing the agreeing votes runs out of range. */
  ghost predicate Stops(cfg: Config, remote: VoteSet, cur: VoteSet, vals: Validators) {
    && HasConverged(remote, cfg.threshold, vals) && HasConverged(cur, cfg.threshold, vals)
    && NumberOfVotes(cur) == NumberOfVotes(remote) && MajPanics(cur.response, vals)
  }

  lemma ValidCanAdd(cfg: Config, v: VoteSet, vals: Validators, own: int, resp: Option<Individual>,
                    signature: Option<Bytes>)
    requires IsValid(cfg, v, vals) && 0 <= own < |vals|
    ensures CanAdd(v, vals, own, resp, signature) <==> !v.bits[own] && resp.Some? && signature.Some?
  {
    assert EntryValid(cfg.codec, v, vals, own);
  }

  /** What happens once the remote set has been taken over: our vote is added if it is missing, and the
      result is passed on unless our vote is missing and cannot be added. */
  lemma InstalledOutcome(cfg: Config, s: State, remote: VoteSet, vals: Validators,
                         resp: Option<Individual>, signature: Option<Bytes>)
    requires Shapely(s) && IsValid(cfg, remote, vals) && Installs(cfg, s, remote, vals)
    ensures TakesOver(cfg, s, remote, vals, resp, signature)
  {
    var t := Absorb(cfg, s, remote, vals).0;
    var own := IndexOf(vals, cfg.ownAddress);
    ContributePlusOwn(cfg, t, remote.fnID, true, vals, resp, signature);
    ContributeBroadcasts(cfg, t, remote.fnID, true, vals, resp, signature);
    if own >= 0 { ValidCanAdd(cfg, remote, vals, own, resp, signature); }
  }

  /** The remote set and its nonce are taken over as they are. */
  ghost predicate Installs(cfg: Config, s: State, remote: VoteSet, vals: Validators)
    requires Shapely(s) && Shaped(remote, |vals|)
  {
    var (t, changed) := Absorb(cfg, s, remote, vals);
    && changed == Some(true) && remote.fnID in t.current && t.current[remote.fnID] == remote
    && remote.fnID in t.nonces && t.nonces[remote.fnID] == remote.nonce
  }

  ghost predicate TakesOver(cfg: Config, s: State, remote: VoteSet, vals: Validators,
                            resp: Option<Individual>, signature: Option<Bytes>)
    requires Shapely(s) && Shaped(remote, |vals|)
  {
    var (t, out) := VoteSetStep(cfg, s, remote, vals, resp, signature);
    var f, own := remote.fnID, IndexOf(vals, cfg.ownAddress);
    && f in t.current && PlusOwn(t.current[f], remote, own) && Eff(t, f) == remote.nonce
    && (out.broadcasts <==> own < 0 || remote.bits[own] || (resp.Some? && signature.Some?))
    && (own >= 0 && !remote.bits[own] && resp.Some? && signature.Some? ==>
          HoldsAnswer(t.current[f], own, resp.value, signature))
  }

  /** A node without a set takes over one with its own nonce, or a converged one with a later nonce. */
  ghost predicate Adopts(cfg: Config, s: State, remote: VoteSet, vals: Validators) {
    || remote.nonce == Eff(s, remote.fnID)
    || (remote.nonce > Eff(s, remote.fnID) && HasConverged(remote, cfg.threshold, vals))
  }

  lemma AbsorbAdopts(cfg: Config, s: State, remote: VoteSet, vals: Validators)
    requires Shapely(s) && Shaped(remote, |vals|) && remote.fnID !in s.current
    ensures if Adopts(cfg, s, remote, vals) then Installs(cfg, s, remote, vals)
            else Absorb(cfg, s, remote, vals) == (WithNonce(s, remote.fnID), None)
  {
  }

  /** A node without a vote set for the function takes over an accepted remote set, with its own vote added,
      if and only if the remote nonce is its own, or is later and the remote set has converged; otherwise
      nothing is installed and nothing sent. */
  lemma AdoptsExactlyWhen(cfg: Config, s: State, remote: VoteSet, vals: Validators,
                          resp: Option<Individual>, signature: Option<Bytes>)
    requires Shapely(s) && IsValid(cfg, remote, vals) && remote.fnID !in s.current
    ensures var (t, out) := VoteSetStep(cfg, s, remote, vals, resp, signature);
      if Adopts(cfg, s, remote, vals) then TakesOver(cfg, s, remote, vals, resp, signature)
      else t.current == s.current && Eff(t, remote.fnID) == Eff(s, remote.fnID) && out == NOTHING
  {
    AbsorbAdopts(cfg, s, remote, vals);
    if Adopts(cfg, s, remote, vals) { InstalledOutcome(cfg, s, remote, vals, resp, signature); }
  }

  lemma AbsorbReplaces(cfg: Config, s: State, remote: VoteSet, vals: Validators)
    requires WellFormed(vals) && Shapely(s) && Shaped(remote, |vals|) && remote.fnID in s.current
    requires s.current[remote.fnID].nonce != remote.nonce
    ensures var f, cur, u := remote.fnID, s.current[remote.fnID], WithNonce(s, remote.fnID);
      if remote.nonce < Eff(s, f) then Absorb(cfg, s, remote, vals) == (u, None)
      else if Preferred(cfg, remote, cur, vals) then Installs(cfg, s, remote, vals)
      else Absorb(cfg, s, remote, vals) == (u, if Stops(cfg, remote, cur, vals) then None else Some(false))
  {
    PreferredIsReplace(cfg, remote, s.current[remote.fnID], Eff(s, remote.fnID), vals);
  }

  /** Keeping our own set: nothing is taken over, but our vote may be added. */
  ghost predicate Keeps(cfg: Config, s: State, remote: VoteSet, vals: Validators,
                        resp: Option<Individual>, signature: Option<Bytes>, goesOn: bool)
    requires Shapely(s) && remote.fnID in s.current
  {
    var (t, out) := VoteSetStep(cfg, s, remote, vals, resp, signature);
    var f, cur, own := remote.fnID, s.current[remote.fnID], IndexOf(vals, cfg.ownAddress);
    && f in t.current && PlusOwn(t.current[f], cur, own) && Eff(t, f) == Eff(s, f)
    && (out.broadcasts <==> goesOn && CanAdd(cur, vals, own, resp, signature))
    && (out.broadcasts ==> HoldsAnswer(t.current[f], own, resp.value, signature))
  }

  lemma KeptOutcome(cfg: Config, s: State, remote: VoteSet, vals: Validators,
                    resp: Option<Individual>, signature: Option<Bytes>, goesOn: bool)
    requires Shapely(s) && IsValid(cfg, remote, vals) && remote.fnID in s.current
    requires s.current[remote.fnID].nonce == Eff(s, remote.fnID)
    requires Absorb(cfg, s, remote, vals) == (WithNonce(s, remote.fnID), if goesOn then Some(false) else None)
    ensures Keeps(cfg, s, remote, vals, resp, signature, goesOn)
  {
    var u, own := WithNonce(s, remote.fnID), IndexOf(vals, cfg.ownAddress);
    if goesOn {
      ContributePlusOwn(cfg, u, remote.fnID, false, vals, resp, signature);
      ContributeBroadcasts(cfg, u, remote.fnID, false, vals, resp, signature);
    } else {
      assert VoteSetStep(cfg, s, remote, vals, resp, signature) == (u, NOTHING);
      assert PlusOwn(s.current[remote.fnID], s.current[remote.fnID], own);
    }
  }

  /** A node whose set has another nonce replaces it by an accepted remote set if and only if the remote
      nonce is later and the remote set is preferred; otherwise it keeps its own set, adding its vote if that
      is missing and the remote nonce is later. */
  lemma ReplacesExactlyWhen(cfg: Config, s: State, remote: VoteSet, vals: Validators,
                            resp: Option<Individual>, signature: Option<Bytes>)
    requires Inv(cfg, s) && Shapely(s) && WellFormed(vals) && IsValid(cfg, remote, vals)
    requires remote.fnID in s.current && s.current[remote.fnID].nonce != remote.nonce
    ensures var later, cur := remote.nonce > Eff(s, remote.fnID), s.current[remote.fnID];
      if later && Preferred(cfg, remote, cur, vals) then TakesOver(cfg, s, remote, vals, resp, signature)
      else Keeps(cfg, s, remote, vals, resp, signature, later && !Stops(cfg, remote, cur, vals))
  {
    var later, cur := remote.nonce > Eff(s, remote.fnID), s.current[remote.fnID];
    assert cur.nonce == Eff(s, remote.fnID) by { assert CurrentOk(cfg, s, remote.fnID); }
    AbsorbReplaces(cfg, s, remote, vals);
    if later && Preferred(cfg, remote, cur, vals) {
      InstalledOutcome(cfg, s, remote, vals, resp, signature);
    } else {
      KeptOutcome(cfg, s, remote, vals, resp, signature, later && !Stops(cfg, remote, cur, vals));
    }
  }

  /** w holds the votes of both sets: ours where we have one, theirs where only they do. A response of ours
      that was recorded without its vote stays beside the vote that arrives. */
  ghost predicate Unites(w: VoteSet, cur: VoteSet, remote: VoteSet, own: int) {
    && SameHeader(w, cur) && Shaped(remote, |cur.bits|)
    && forall i :: 0 <= i < |cur.bits| ==> UnitesAt(w, cur, remote, own, i)
  }

  ghost predicate UnitesAt(w: VoteSet, cur: VoteSet, remote: VoteSet, own: int, i: nat)
    requires i < |cur.bits| && Shaped(cur, |cur.bits|) && Shaped(w, |cur.bits|) && Shaped(remote, |cur.bits|)
  {
    && (cur.bits[i] ==> SameVote(w, cur, i))
    && (!cur.bits[i] && remote.bits[i] ==>
          w.bits[i] && w.signatures[i] == remote.signatures[i]
          && (!cur.response.bits[i] ==> SameVote(w, remote, i))
          && (cur.response.bits[i] ==> w.response.hashes[i] == cur.response.hashes[i]))
    && (!cur.bits[i] && !remote.bits[i] && i != own ==> SameVote(w, cur, i))
  }

  lemma JoinUnites(cfg: Config, vals: Validators, cur: VoteSet, remote: VoteSet)
    requires Shaped(cur, |cur.bits|) && Within(cur.bits, cur.response.bits)
    requires IsValid(cfg, remote, vals) && CanonicalCompare(cur, remote)
    ensures |cur.bits| == |vals| && Unites(Merge(vals, cur, remote), cur, remote, -1)
    ensures MergeChanges(cur, remote) <==> exists i :: 0 <= i < |vals| && remote.bits[i] && !cur.bits[i]
  {
    var w := Merge(vals, cur, remote);
    forall i | 0 <= i < |vals|
      ensures UnitesAt(w, cur, remote, -1, i)
      ensures Gain(cur.bits, remote.bits)[i] || Gain(cur.response.bits, remote.response.bits)[i] <==>
              remote.bits[i] && !cur.bits[i]
    {
      assert EntryValid(cfg.codec, remote, vals, i);
    }
  }

  lemma PlusOwnUnites(w: VoteSet, v: VoteSet, cur: VoteSet, remote: VoteSet, own: int)
    requires Unites(v, cur, remote, -1) && PlusOwn(w, v, own)
    ensures Unites(w, cur, remote, own)
  {
    forall i | 0 <= i < |cur.bits| ensures UnitesAt(w, cur, remote, own, i) {
      assert UnitesAt(v, cur, remote, -1, i);
      if i != own || v.bits[i] { assert SameVote(w, v, i); }
    }
  }

  lemma AbsorbMerges(cfg: Config, s: State, remote: VoteSet, vals: Validators)
    requires Shapely(s) && Shaped(remote, |vals|) && remote.fnID in s.current
    requires s.current[remote.fnID].nonce == remote.nonce == Eff(s, remote.fnID)
    ensures var f, cur, u := remote.fnID, s.current[remote.fnID], WithNonce(s, remote.fnID);
      Absorb(cfg, s, remote, vals) ==
        if !CanonicalCompare(cur, remote) then (u, None)
        else (u.(current := s.current[f := Merge(vals, cur, remote)]), Some(MergeChanges(cur, remote)))
  {
  }

  /** The votes of both sets are held, ours is added if it is missing and can be, and the result is passed
      on if and only if a vote was new or ours was added. */
  ghost predicate Merges(cfg: Config, s: State, remote: VoteSet, vals: Validators,
                         resp: Option<Individual>, signature: Option<Bytes>)
    requires Shapely(s) && remote.fnID in s.current && Shaped(remote, |vals|)
  {
    var (t, out) := VoteSetStep(cfg, s, remote, vals, resp, signature);
    var f, cur, own := remote.fnID, s.current[remote.fnID], IndexOf(vals, cfg.ownAddress);
    && |cur.bits| == |vals| && f in t.current && Unites(t.current[f], cur, remote, own) && Eff(t, f) == Eff(s, f)
    && (out.broadcasts <==>
          if own < 0 || cur.bits[own] || remote.bits[own]
          then exists i :: 0 <= i < |vals| && remote.bits[i] && !cur.bits[i]
          else CanAdd(cur, vals, own, resp, signature))
    && (own >= 0 && !cur.bits[own] && !remote.bits[own] && CanAdd(cur, vals, own, resp, signature) ==>
          HoldsAnswer(t.current[f], own, resp.value, signature))
  }

  lemma MergedOutcome(cfg: Config, s: State, remote: VoteSet, vals: Validators,
                      resp: Option<Individual>, signature: Option<Bytes>)
    requires Shapely(s) && IsValid(cfg, remote, vals) && remote.fnID in s.current
    requires s.current[remote.fnID].nonce == remote.nonce == Eff(s, remote.fnID)
    requires Within(s.current[remote.fnID].bits, s.current[remote.fnID].response.bits)
    requires CanonicalCompare(s.current[remote.fnID], remote)
    ensures Merges(cfg, s, remote, vals, resp, signature)
  {
    var f, cur, own := remote.fnID, s.current[remote.fnID], IndexOf(vals, cfg.ownAddress);
    JoinUnites(cfg, vals, cur, remote);
    AbsorbMerges(cfg, s, remote, vals);
    var (u, changed) := Absorb(cfg, s, remote, vals);
    ContributePlusOwn(cfg, u, f, changed.value, vals, resp, signature);
    ContributeBroadcasts(cfg, u, f, changed.value, vals, resp, signature);
    PlusOwnUnites(VoteSetStep(cfg, s, remote, vals, resp, signature).0.current[f], u.current[f], cur, remote, own);
    if own >= 0 { MergedCanAdd(cfg, vals, cur, remote, own, resp, signature); }
  }

  /** A node whose set has the remote nonce never replaces it: with another header nothing happens, with
      the same header the votes of both sets are united. */
  lemma MergesExactlyWhen(cfg: Config, s: State, remote: VoteSet, vals: Validators,
                          resp: Option<Individual>, signature: Option<Bytes>)
    requires Inv(cfg, s) && Shapely(s) && IsValid(cfg, remote, vals)
    requires remote.fnID in s.current && s.current[remote.fnID].nonce == remote.nonce
    ensures var (t, out) := VoteSetStep(cfg, s, remote, vals, resp, signature);
      if CanonicalCompare(s.current[remote.fnID], remote) then Merges(cfg, s, remote, vals, resp, signature)
      else t.current == s.current && out == NOTHING
  {
    assert CurrentOk(cfg, s, remote.fnID);
    AbsorbMerges(cfg, s, remote, vals);
    if CanonicalCompare(s.current[remote.fnID], remote) { MergedOutcome(cfg, s, remote, vals, resp, signature); }
  }

  lemma MergedCanAdd(cfg: Config, vals: Validators, cur: VoteSet, remote: VoteSet, own: int,
                     resp: Option<Individual>, signature: Option<Bytes>)
    requires Shaped(cur, |cur.bits|) && Within(cur.bits, cur.response.bits)
    requires IsValid(cfg, remote, vals) && CanonicalCompare(cur, remote) && 0 <= own < |vals| == |cur.bits|
    ensures Merge(vals, cur, remote).bits[own] == (cur.bits[own] || remote.bits[own])
    ensures !cur.bits[own] && !remote.bits[own] ==>
      (CanAdd(Merge(vals, cur, remote), vals, own, resp, signature) <==> CanAdd(cur, vals, own, resp, signature))
  {
    assert EntryValid(cfg.codec, remote, vals, own);
  }

  // ---- every vote a node hears of is kept ----

  /** The header of v is the one every accepted set of this nonce and these validators has. */
  ghost predicate HeaderFor(cfg: Config, v: VoteSet, vals: Validators) {
    && Shaped(v, |vals|) && v.chainID == cfg.chainID && v.validatorsHash == cfg.codec.validatorsHash(vals)
    && forall i :: 0 <= i < |vals| ==> v.addresses[i] == vals[i].address
  }

  /** The node is at this nonce; a set it holds for f is for these validators. */
  ghost predicate Listening(cfg: Config, s: State, f: string, nonce: int, vals: Validators) {
    Inv(cfg, s) && Shapely(s) && Eff(s, f) == nonce && (f in s.current ==> HeaderFor(cfg, s.current[f], vals))
  }

  /** A message about f at this nonce, accepted by these validators, takes the node from s to t. */
  ghost predicate HearsVotes(cfg: Config, s: State, i: Input, t: State, f: string, nonce: int, vals: Validators) {
    && i.VoteSetMsg? && i.vals == vals && IsValid(cfg, i.remote, vals) && i.remote.fnID == f
    && i.remote.nonce == nonce && IsInt64(nonce) && Shapely(s)
    && t == VoteSetStep(cfg, s, i.remote, vals, i.resp, i.signature).0
  }

  /** t holds f's set with at least these votes. */
  ghost predicate HoldsVotes(t: State, f: string, bits: seq<bool>) {
    f in t.current && Within(bits, t.current[f].bits)
  }

  lemma ValidHeader(cfg: Config, v: VoteSet, vals: Validators)
    requires IsValid(cfg, v, vals)
    ensures HeaderFor(cfg, v, vals)
  {
    forall i | 0 <= i < |vals| ensures v.addresses[i] == vals[i].address { assert EntryValid(cfg.codec, v, vals, i); }
  }

  lemma SameHeaderFor(cfg: Config, w: VoteSet, v: VoteSet, vals: Validators)
    requires HeaderFor(cfg, v, vals) && SameHeader(w, v)
    ensures HeaderFor(cfg, w, vals)
  {
  }

  /** Hearing one message: its votes and all we had are held afterwards. */
  lemma HeardOnce(cfg: Config, s: State, i: Input, t: State, f: string, nonce: int, vals: Validators)
    requires WellFormed(vals) && Listening(cfg, s, f, nonce, vals) && HearsVotes(cfg, s, i, t, f, nonce, vals)
    ensures Listening(cfg, t, f, nonce, vals) && HoldsVotes(t, f, i.remote.bits)
    ensures f in s.current ==> HoldsVotes(t, f, s.current[f].bits)
  {
    VoteSetKeepsInv(cfg, s, i.remote, vals, i.resp, i.signature);
    InvSteppable(cfg, t);
    ValidHeader(cfg, i.remote, vals);
    if f in s.current {
      assert CurrentOk(cfg, s, f);
      MergeHeard(cfg, s, i, f, nonce, vals);
      SameHeaderFor(cfg, t.current[f], s.current[f], vals);
    } else {
      AdoptsExactlyWhen(cfg, s, i.remote, vals, i.resp, i.signature);
      SameHeaderFor(cfg, t.current[f], i.remote, vals);
      PlusOwnWithin(t.current[f], i.remote, IndexOf(vals, cfg.ownAddress));
    }
  }

  lemma PlusOwnWithin(w: VoteSet, v: VoteSet, own: int)
    requires PlusOwn(w, v, own)
    ensures Within(v.bits, w.bits)
  {
    forall i | 0 <= i < |v.bits| && v.bits[i] ensures w.bits[i] { assert SameVote(w, v, i); }
  }

  lemma MergeHeard(cfg: Config, s: State, i: Input, f: string, nonce: int, vals: Validators)
    requires Inv(cfg, s) && Shapely(s) && f in s.current && HeaderFor(cfg, s.current[f], vals)
    requires i.VoteSetMsg? && i.vals == vals && IsValid(cfg, i.remote, vals) && i.remote.fnID == f
    requires i.remote.nonce == nonce == s.current[f].nonce == Eff(s, f) && s.current[f].fnID == f
    ensures var t := VoteSetStep(cfg, s, i.remote, vals, i.resp, i.signature).0;
      && Eff(t, f) == nonce && HoldsVotes(t, f, i.remote.bits) && HoldsVotes(t, f, s.current[f].bits)
      && SameHeader(t.current[f], s.current[f])
  {
    var t, cur := VoteSetStep(cfg, s, i.remote, vals, i.resp, i.signature).0, s.current[f];
    ValidHeader(cfg, i.remote, vals);
    assert cur.addresses == i.remote.addresses;
    MergesExactlyWhen(cfg, s, i.remote, vals, i.resp, i.signature);
    var w, own := t.current[f], IndexOf(vals, cfg.ownAddress);
    forall j | 0 <= j < |vals| ensures (cur.bits[j] || i.remote.bits[j]) ==> w.bits[j] {
      assert UnitesAt(w, cur, i.remote, own, j);
    }
  }

  ghost predicate HearsAt(cfg: Config, ss: seq<State>, ins: seq<Input>, f: string, nonce: int, vals: Validators, j: nat)
    requires j < |ins| && j + 1 < |ss|
  { HearsVotes(cfg, ss[j], ins[j], ss[j + 1], f, nonce, vals) }

  ghost predicate HearsAll(cfg: Config, ss: seq<State>, ins: seq<Input>, f: string, nonce: int, vals: Validators) {
    && |ss| == |ins| + 1 && Listening(cfg, ss[0], f, nonce, vals)
    && forall j :: 0 <= j < |ins| ==> HearsAt(cfg, ss, ins, f, nonce, vals, j)
  }

  lemma {:induction false} StaysListening(cfg: Config, ss: seq<State>, ins: seq<Input>, f: string, nonce: int,
                                          vals: Validators, m: nat)
    requires WellFormed(vals) && HearsAll(cfg, ss, ins, f, nonce, vals) && m <= |ins|
    ensures Listening(cfg, ss[m], f, nonce, vals)
  {
    if m > 0 {
      var j := m - 1;
      StaysListening(cfg, ss, ins, f, nonce, vals, j);
      assert HearsAt(cfg, ss, ins, f, nonce, vals, j);
      HeardOnce(cfg, ss[j], ins[j], ss[m], f, nonce, vals);
    }
  }

  lemma StillHeld(cfg: Config, s: State, i: Input, t: State, f: string, nonce: int, vals: Validators, bits: seq<bool>)
    requires WellFormed(vals) && Listening(cfg, s, f, nonce, vals) && HearsVotes(cfg, s, i, t, f, nonce, vals)
    requires HoldsVotes(s, f, bits)
    ensures HoldsVotes(t, f, bits)
  {
    HeardOnce(cfg, s, i, t, f, nonce, vals);
  }

  lemma {:induction false} HeldFrom(cfg: Config, ss: seq<State>, ins: seq<Input>, f: string, nonce: int,
                                    vals: Validators, j: nat, m: nat, bits: seq<bool>)
    requires WellFormed(vals) && HearsAll(cfg, ss, ins, f, nonce, vals) && j <= m <= |ins|
    requires HoldsVotes(ss[j], f, bits)
    ensures HoldsVotes(ss[m], f, bits)
    decreases m
  {
    if j < m {
      var k := m - 1;
      HeldFrom(cfg, ss, ins, f, nonce, vals, j, k, bits);
      StaysListening(cfg, ss, ins, f, nonce, vals, k);
      assert HearsAt(cfg, ss, ins, f, nonce, vals, k);
      StillHeld(cfg, ss[k], ins[k], ss[m], f, nonce, vals, bits);
    }
  }

  /** A node at a nonce holds, after hearing any accepted messages of that nonce in any order, every vote of
      every one of them, whether or not it had a set before. */
  lemma HeardVotesAreHeld(cfg: Config, ss: seq<State>, ins: seq<Input>, f: string, nonce: int,
                          vals: Validators, j: nat, m: nat)
    requires WellFormed(vals) && HearsAll(cfg, ss, ins, f, nonce, vals) && j < m <= |ins|
    ensures HearsAt(cfg, ss, ins, f, nonce, vals, j) && HoldsVotes(ss[m], f, ins[j].remote.bits)
  {
    StaysListening(cfg, ss, ins, f, nonce, vals, j);
    assert HearsAt(cfg, ss, ins, f, nonce, vals, j);
    HeardOnce(cfg, ss[j], ins[j], ss[j + 1], f, nonce, vals);
    HeldFrom(cfg, ss, ins, f, nonce, vals, j + 1, m, ins[j].remote.bits);
  }

  // ---- our own vote ----

  /** The validator alone reaches the threshold. */
  predicate Sole(threshold: Threshold, vals: Validators, k: nat)
    requires k < |vals|
  {
    match threshold
    case Maj23 => 3 * vals[k].power > 2 * Total(vals)
    case All => |vals| == 1
  }

  lemma SoleMajority(v: VoteSet, threshold: Threshold, vals: Validators, k: nat, h: Bytes)
    requires WellFormed(vals) && ResponseShaped(v.response, |vals|) && k < |vals|
    requires forall i :: 0 <= i < |vals| ==> v.response.hashes[i] == if i == k then Some(h) else None
    ensures MajResponse(v.response, threshold, vals).Some? <==> Sole(threshold, vals, k)
  {
    var r := v.response;
    if threshold == All {
      MajorityUnderAll(r, vals);
      if |vals| == 1 {
        assert Unanimous(r, 1, h);
      } else {
        var j := if k == 0 then 1 else 0;
        assert r.hashes[j].None?;
      }
    } else {
      MajorityUnderMaj23(r, vals);
      SinglePower(vals, Voters(r.hashes, h, |vals|), k, |vals|);
      if g :| TwoThirds(r, vals, g) && g != h {
        NobodyPower(vals, Voters(r.hashes, g, |vals|), |vals|);
        TotalPositive(vals);
      }
      assert TwoThirds(r, vals, h) <==> Sole(Maj23, vals, k);
    }
  }

  /** A complete answer of a registered function by a validator, signed. */
  predicate Answered(cfg: Config, f: string, vals: Validators, resp: Option<Individual>, signature: Option<Bytes>) {
    && IndexOf(vals, cfg.ownAddress) >= 0 && f in cfg.registry && signature.Some?
    && resp.Some? && resp.value.hash.Some? && resp.value.oracleSignature.Some?
  }

  /** v is a fresh set of this nonce that holds the one vote of validator k. */
  ghost predicate OneVote(cfg: Config, v: VoteSet, nonce: int, f: string, vals: Validators, k: nat,
                          resp: Individual, signature: Option<Bytes>) {
    && Shaped(v, |vals|) && v.nonce == nonce && v.fnID == f && v.chainID == cfg.chainID
    && v.validatorsHash == cfg.codec.validatorsHash(vals) && HoldsAnswer(v, k, resp, signature)
    && forall i :: 0 <= i < |vals| ==> v.bits[i] == (i == k) && v.addresses[i] == vals[i].address
  }

  /** Casting our vote: with a complete signed answer the node installs a fresh set of its current nonce that
      holds exactly our vote, saves and broadcasts it; if we alone reach the threshold it submits instead;
      otherwise nothing happens. */
  lemma VoteOutcome(cfg: Config, s: State, f: string, vals: Validators, resp: Option<Individual>,
                    signature: Option<Bytes>)
    requires WellFormed(vals)
    ensures var (t, out) := VoteStep(cfg, s, f, vals, resp, signature);
      var k := IndexOf(vals, cfg.ownAddress);
      if !Answered(cfg, f, vals, resp, signature) then t == s && out == NOTHING
      else if Sole(cfg.threshold, vals, k) then t == s && out == Out(false, true, false)
      else
        && out == Out(true, false, true) && SameElsewhere(s, t, f) && t.nonces == s.nonces
        && t.prevMaj == s.prevMaj && t.prevVals == s.prevVals
        && f in t.current && OneVote(cfg, t.current[f], Eff(s, f), f, vals, k, resp.value, signature)
  {
    var k := IndexOf(vals, cfg.ownAddress);
    if k >= 0 && resp.Some? {
      FreshExists(cfg, Eff(s, f), f, resp.value, vals, k, signature);
      var v := NewVoteSet(cfg, Eff(s, f), f, resp.value, vals, k, signature);
      if v.Some? {
        FreshVoteIsRecorded(cfg, Eff(s, f), f, resp.value, vals, k, signature);
        SoleMajority(v.value, cfg.threshold, vals, k, resp.value.hash.value);
      }
    }
  }

  lemma FreshExists(cfg: Config, nonce: int, f: string, resp: Individual, vals: Validators, k: nat,
                    signature: Option<Bytes>)
    requires WellFormed(vals) && k < |vals|
    ensures NewVoteSet(cfg, nonce, f, resp, vals, k, signature).Some? <==>
              resp.hash.Some? && resp.oracleSignature.Some? && signature.Some?
  {
    var u := Unsigned(cfg, nonce, f, resp, vals, k);
    assert u.response.bits[k] && u.response.hashes[k] == resp.hash;
    assert u.response.oracleSignatures[k] == resp.oracleSignature;
  }

  // ---- committing ----

  /** Committing: a set the given validators would not accept is dropped, one that has not converged stays
      and the previous majority is sent again if there is one, a converged one becomes the previous majority
      under these validators and its nonce is passed. */
  lemma CommitOutcome(cfg: Config, s: State, f: string, vals: Validators)
    requires Inv(cfg, s) && WellFormed(vals)
    ensures var (t, out) := CommitStep(cfg, s, f, vals);
      && SameElsewhere(s, t, f)
      && (f !in cfg.registry || f !in s.current ==> t == s && out == NOTHING)
      && (f in cfg.registry && f in s.current ==>
            var v := s.current[f];
            && out.saves
            && (out.broadcasts <==>
                  IsValid(cfg, v, vals) && !HasConverged(v, cfg.threshold, vals) && f in s.prevMaj)
            && (f in t.current <==> IsValid(cfg, v, vals) && !HasConverged(v, cfg.threshold, vals))
            && (f in t.current ==> t == s)
            && (out.submits ==> IsValid(cfg, v, vals) && HasConverged(v, cfg.threshold, vals))
            && (!IsValid(cfg, v, vals) ==>
                  t.nonces == s.nonces && t.prevMaj == s.prevMaj && t.prevVals == s.prevVals)
            && (IsValid(cfg, v, vals) && HasConverged(v, cfg.threshold, vals) ==>
                  && t.prevVals == Some(vals) && f in t.prevMaj && t.prevMaj[f] == v
                  && (v.nonce < MAX_INT64 ==> Eff(t, f) == v.nonce + 1)))
  {
    if CommitAdvances(cfg, s, f, vals) { CommitMovesNonce(cfg, s, f, vals); }
  }

  /** After a commit a majority message signed by the validators of that commit is still accepted, although
      the validator set has changed. */
  lemma LateMajorityIsAccepted(cfg: Config, s: State, f: string, vals: Validators, later: Validators, remote: VoteSet)
    requires Inv(cfg, s) && WellFormed(vals) && Binding(cfg.codec) && IsInt64(remote.nonce)
    requires f in cfg.registry && f in s.current
    requires IsValid(cfg, s.current[f], vals) && HasConverged(s.current[f], cfg.threshold, vals)
    requires IsValid(cfg, remote, vals) && HasConverged(remote, cfg.threshold, vals)
    ensures MajStep(cfg, CommitStep(cfg, s, f, vals).0, remote, later).1.saves
  {
    CommitOutcome(cfg, s, f, vals);
  }

  // ---- majority messages ----

  /** The message is a converged set that the current validators, or else the previous ones, accept. */
  ghost predicate Accepts(cfg: Config, s: State, remote: VoteSet, vals: Validators) {
    || (IsValid(cfg, remote, vals) && HasConverged(remote, cfg.threshold, vals))
    || (&& !IsValid(cfg, remote, vals) && s.prevVals.Some?
        && IsValid(cfg, remote, s.prevVals.value) && HasConverged(remote, cfg.threshold, s.prevVals.value))
  }

  /** A majority message moves the node, and is passed on, if and only if it is accepted and its nonce is not
      behind: then the node is at the next nonce with no set in progress and the message recorded. One that is
      exactly one behind is recorded if nothing is; every other message changes nothing. */
  lemma MajorityOutcome(cfg: Config, s: State, remote: VoteSet, vals: Validators)
    requires IsInt64(remote.nonce)
    ensures var (t, out) := MajStep(cfg, s, remote, vals);
      var f := remote.fnID;
      && SameElsewhere(s, t, f) && !out.submits
      && (out.saves <==> Accepts(cfg, s, remote, vals))
      && (out.broadcasts <==> Accepts(cfg, s, remote, vals) && remote.nonce >= Eff(s, f))
      && (out.broadcasts ==>
            && f !in t.current && f in t.prevMaj && t.prevMaj[f] == remote
            && t.prevVals.Some? && IsValid(cfg, remote, t.prevVals.value)
            && (remote.nonce < MAX_INT64 ==> Eff(t, f) == remote.nonce + 1))
      && (!out.broadcasts ==>
            && t.current == s.current && t.nonces == s.nonces
            && (t != s ==> Accepts(cfg, s, remote, vals) && remote.nonce == Eff(s, f) - 1 && f !in s.prevMaj)
            && (Accepts(cfg, s, remote, vals) && remote.nonce == Eff(s, f) - 1 && f !in s.prevMaj ==>
                  f in t.prevMaj && t.prevMaj[f] == remote
                  && t.prevVals.Some? && IsValid(cfg, remote, t.prevVals.value)))
  {
    AcceptsMeans(cfg, s, remote, vals);
    if !Accepts(cfg, s, remote, vals) {
      assert MajStep(cfg, s, remote, vals) == (s, NOTHING);
    } else if remote.nonce < Eff(s, remote.fnID) {
      assert MajStep(cfg, s, remote, vals).1 == Out(false, false, true);
    } else {
      assert MajStep(cfg, s, remote, vals).1 == Out(true, false, true);
    }
  }

  lemma AcceptsMeans(cfg: Config, s: State, remote: VoteSet, vals: Validators)
    ensures Accepts(cfg, s, remote, vals) <==> MajAccepted(cfg, s, remote, vals)
    ensures var signers := SignedBy(cfg, s, remote, vals);
      Accepts(cfg, s, remote, vals) ==> signers.Some? && IsValid(cfg, remote, signers.value)
  {
  }

  // ---- when the save fails ----

  /** A failed save writes nothing and keeps the state in memory; our vote and a majority message are then
      not sent, while a commit has already sent the previous majority and submitted. */
  lemma FailedSave(cfg: Config, s: State, i: Input)
    requires InputOk(i) && Steppable(s) && (i.DoVote? || i.DoCommit? || i.MajMsg?) && !i.marshals
    ensures var (t, out) := Step(cfg, s, i);
      var (u, full) := Step(cfg, s, i.(marshals := true));
      && t == u && !out.saves && out.submits == full.submits
      && (i.DoCommit? ==> out.broadcasts == full.broadcasts)
      && (!i.DoCommit? ==> !out.broadcasts)
  {
    if i.DoVote? {
      VoteOutcome(cfg, s, i.f, i.vals, i.resp, i.signature);
    } else if i.MajMsg? {
      MajorityOutcome(cfg, s, i.remote, i.vals);
    }
  }
}

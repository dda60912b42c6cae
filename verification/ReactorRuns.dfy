/** What holds in every run of a node: votes, commits, messages from any peer, failed saves, crashes. */
module ReactorRuns {
  import opened Basics
  import opened Tally
  import opened VoteSets
  import opened Majority
  import opened Persistence
  import opened Protocol

  /** The validators' hash determines the validator set. */
  ghost predicate Binding(codec: Codec) {
    forall a: Validators, b: Validators :: codec.validatorsHash(a) == codec.validatorsHash(b) ==> a == b
  }

  /** v holds one vote and has not converged for any validator set it can be valid for. */
  ghost predicate Lonely(cfg: Config, v: VoteSet) {
    && NumberOfVotes(v) == 1
    && forall vals: Validators :: WellFormed(vals) && cfg.codec.validatorsHash(vals) == v.validatorsHash ==>
         !HasConverged(v, cfg.threshold, vals)
  }

  /** v was accepted and had converged for some validator set. */
  ghost predicate Certified(cfg: Config, v: VoteSet) {
    exists vals: Validators :: WellFormed(vals) && IsValid(cfg, v, vals) && HasConverged(v, cfg.threshold, vals)
  }

  /** The vote set in progress for f. */
  ghost predicate CurrentOk(cfg: Config, s: State, f: string)
    requires f in s.current
  {
    var v := s.current[f];
    && v.fnID == f
    && v.nonce == Eff(s, f)
    && Shaped(v, |v.bits|)
    && Within(v.bits, v.response.bits)
    && (f !in s.nonces ==> Lonely(cfg, v))
  }

  ghost predicate MajOk(cfg: Config, s: State, f: string)
    requires f in s.prevMaj
  {
    s.prevMaj[f].fnID == f && s.prevMaj[f].nonce < Eff(s, f) && Certified(cfg, s.prevMaj[f])
  }

  /** The invariant of the reactor's state. */
  ghost predicate Inv(cfg: Config, s: State) {
    && (forall f :: f in s.current ==> CurrentOk(cfg, s, f))
    && (forall f :: f in s.prevMaj ==> MajOk(cfg, s, f))
    && (forall f :: f in s.nonces ==> 1 <= s.nonces[f] <= MAX_INT64)
    && s.timedOut == map[]
    && (s.prevVals.Some? ==> WellFormed(s.prevVals.value))
  }

  lemma InvSteppable(cfg: Config, s: State)
    requires Inv(cfg, s)
    ensures Steppable(s)
  {
    forall f | f in s.current ensures Shaped(s.current[f], |s.current[f].bits|) {
      assert CurrentOk(cfg, s, f);
    }
  }

  /** The step would increment a nonce that is already the largest int64. */
  ghost predicate Wraps(cfg: Config, s: State, i: Input) {
    match i
    case DoCommit(f, vals, _) => CommitAdvances(cfg, s, f, vals) && s.current[f].nonce == MAX_INT64
    case MajMsg(remote, vals, _) => MajAdvances(cfg, s, remote, vals) && remote.nonce == MAX_INT64
    case _ => false
  }

  /** Functions other than f are untouched. */
  ghost predicate SameElsewhere(s: State, t: State, f: string) {
    && (forall g :: g != f ==>
          (g in s.current <==> g in t.current) && (g in s.current ==> s.current[g] == t.current[g]))
    && (forall g :: g != f ==> (g in s.nonces <==> g in t.nonces) && (g in s.nonces ==> s.nonces[g] == t.nonces[g]))
    && (forall g :: g != f ==>
          (g in s.prevMaj <==> g in t.prevMaj) && (g in s.prevMaj ==> s.prevMaj[g] == t.prevMaj[g]))
    && s.timedOut == t.timedOut
  }

  /** The part of the invariant about one function. */
  ghost predicate InvAt(cfg: Config, s: State, f: string) {
    && (f in s.current ==> CurrentOk(cfg, s, f))
    && (f in s.prevMaj ==> MajOk(cfg, s, f))
    && (f in s.nonces ==> 1 <= s.nonces[f] <= MAX_INT64)
  }

  lemma InvFromOne(cfg: Config, s: State, t: State, f: string)
    requires Inv(cfg, s) && SameElsewhere(s, t, f) && InvAt(cfg, t, f)
    requires t.prevVals.Some? ==> WellFormed(t.prevVals.value)
    ensures Inv(cfg, t)
  {
    forall g | g in t.current ensures CurrentOk(cfg, t, g) {
      if g != f { assert CurrentOk(cfg, s, g); }
    }
    forall g | g in t.prevMaj ensures MajOk(cfg, t, g) {
      if g != f { assert MajOk(cfg, s, g); }
    }
  }

  // ---- each step ----

  /** The set a vote step installs is lonely. */
  lemma FreshVoteSetLonely(cfg: Config, nonce: int, f: string, resp: Individual, vals: Validators, k: nat,
                           signature: Option<Bytes>)
    requires Binding(cfg.codec) && WellFormed(vals) && k < |vals|
    requires NewVoteSet(cfg, nonce, f, resp, vals, k, signature).Some?
    requires MajResponse(NewVoteSet(cfg, nonce, f, resp, vals, k, signature).value.response, cfg.threshold, vals).None?
    ensures Lonely(cfg, NewVoteSet(cfg, nonce, f, resp, vals, k, signature).value)
  {
    var v := NewVoteSet(cfg, nonce, f, resp, vals, k, signature).value;
    SingleCount(v.bits, k, |v.bits|);
    assert v.response.bits[k] && v.response.hashes[k] == resp.hash;
    var h := resp.hash.value;
    var voters := Voters(v.response.hashes, h, |vals|);
    SinglePower(vals, voters, k, |vals|);
    assert !HasMajority(v.response, cfg.threshold, vals, h);
  }

  lemma {:induction false} SingleCount(bits: seq<bool>, k: nat, n: nat)
    requires n <= |bits| && forall i :: 0 <= i < n ==> bits[i] == (i == k)
    ensures Count(bits, n) == if k < n then 1 else 0
  {
    if n > 0 { SingleCount(bits, k, n - 1); }
  }

  lemma VoteKeepsInv(cfg: Config, s: State, f: string, vals: Validators, resp: Option<Individual>,
                     signature: Option<Bytes>)
    requires Binding(cfg.codec) && Inv(cfg, s) && WellFormed(vals)
    ensures Inv(cfg, VoteStep(cfg, s, f, vals, resp, signature).0)
  {
    var t := VoteStep(cfg, s, f, vals, resp, signature).0;
    if t != s {
      var k := IndexOf(vals, cfg.ownAddress);
      FreshVoteSetLonely(cfg, Eff(s, f), f, resp.value, vals, k, signature);
      assert f in s.prevMaj ==> MajOk(cfg, s, f);
      InvFromOne(cfg, s, t, f);
    }
  }

  /** A commit that converges finds the committed set's nonce stored and moves it to the next one. */
  lemma CommitMovesNonce(cfg: Config, s: State, f: string, vals: Validators)
    requires Inv(cfg, s) && WellFormed(vals) && CommitAdvances(cfg, s, f, vals)
    ensures f in s.nonces && s.nonces[f] == s.current[f].nonce == Stored(s, f) == Eff(s, f)
    ensures var t := CommitStep(cfg, s, f, vals).0;
      && Eff(t, f) == Inc64(s.current[f].nonce)
      && f in t.prevMaj && t.prevMaj[f] == s.current[f] && f !in t.current
      && (s.current[f].nonce < MAX_INT64 ==> Eff(t, f) == s.current[f].nonce + 1)
  {
    assert CurrentOk(cfg, s, f);
  }

  lemma AdvancingCommit(cfg: Config, s: State, f: string, vals: Validators)
    requires Inv(cfg, s) && WellFormed(vals) && CommitAdvances(cfg, s, f, vals)
    ensures Inv(cfg, CommitStep(cfg, s, f, vals).0) <==> s.current[f].nonce != MAX_INT64
  {
    var t := CommitStep(cfg, s, f, vals).0;
    CommitMovesNonce(cfg, s, f, vals);
    assert CurrentOk(cfg, s, f);
    if s.current[f].nonce == MAX_INT64 {
      assert t.nonces[f] == MIN_INT64;
    } else {
      assert Certified(cfg, s.current[f]);
      assert SameElsewhere(s, t, f);
      assert InvAt(cfg, t, f);
      InvFromOne(cfg, s, t, f);
    }
  }

  lemma CommitKeepsInv(cfg: Config, s: State, f: string, vals: Validators)
    requires Inv(cfg, s) && WellFormed(vals)
    ensures Inv(cfg, CommitStep(cfg, s, f, vals).0) <==>
      !(CommitAdvances(cfg, s, f, vals) && s.current[f].nonce == MAX_INT64)
  {
    if CommitAdvances(cfg, s, f, vals) {
      AdvancingCommit(cfg, s, f, vals);
    } else {
      var t := CommitStep(cfg, s, f, vals).0;
      assert t == s || t == s.(current := s.current - {f});
      DroppingKeepsInv(cfg, s, f);
    }
  }

  lemma DroppingKeepsInv(cfg: Config, s: State, f: string)
    requires Inv(cfg, s)
    ensures Inv(cfg, s.(current := s.current - {f}))
  {
    assert f in s.prevMaj ==> MajOk(cfg, s, f);
    InvFromOne(cfg, s, s.(current := s.current - {f}), f);
  }

  lemma AdvancingMaj(cfg: Config, s: State, t: State, remote: VoteSet, signers: Option<Validators>)
    requires Inv(cfg, s) && Certified(cfg, remote) && signers.Some? && WellFormed(signers.value)
    requires IsInt64(remote.nonce) && remote.nonce >= Eff(s, remote.fnID)
    requires t == s.(prevMaj := s.prevMaj[remote.fnID := remote], prevVals := signers,
                     nonces := s.nonces[remote.fnID := Inc64(remote.nonce)], current := s.current - {remote.fnID})
    ensures Inv(cfg, t) <==> remote.nonce != MAX_INT64
  {
    if remote.nonce == MAX_INT64 {
      assert t.nonces[remote.fnID] == MIN_INT64;
    } else {
      InvFromOne(cfg, s, t, remote.fnID);
    }
  }

  lemma LateMaj(cfg: Config, s: State, t: State, remote: VoteSet, signers: Option<Validators>)
    requires Inv(cfg, s) && Certified(cfg, remote) && signers.Some? && WellFormed(signers.value)
    requires remote.nonce < Eff(s, remote.fnID)
    requires t == s.(prevMaj := s.prevMaj[remote.fnID := remote], prevVals := signers)
    ensures Inv(cfg, t)
  {
    assert remote.fnID in s.current ==> CurrentOk(cfg, s, remote.fnID);
    InvFromOne(cfg, s, t, remote.fnID);
  }

  lemma MajKeepsInv(cfg: Config, s: State, remote: VoteSet, vals: Validators)
    requires Inv(cfg, s) && WellFormed(vals) && IsInt64(remote.nonce)
    ensures Inv(cfg, MajStep(cfg, s, remote, vals).0) <==>
      !(MajAdvances(cfg, s, remote, vals) && remote.nonce == MAX_INT64)
  {
    if MajAccepted(cfg, s, remote, vals) {
      var t, signers := MajStep(cfg, s, remote, vals).0, SignedBy(cfg, s, remote, vals);
      assert WellFormed(signers.value) && IsValid(cfg, remote, signers.value);
      assert Certified(cfg, remote);
      if MajAdvances(cfg, s, remote, vals) {
        AdvancingMaj(cfg, s, t, remote, signers);
      } else if t != s {
        LateMaj(cfg, s, t, remote, signers);
      }
    }
  }

  lemma ValidIsWithin(cfg: Config, v: VoteSet, vals: Validators)
    requires IsValid(cfg, v, vals)
    ensures Within(v.bits, v.response.bits)
  {
    forall i | 0 <= i < |v.bits| ensures v.bits[i] ==> v.response.bits[i] {
      assert EntryValid(cfg.codec, v, vals, i);
    }
  }

  /** Installing a vote set with a larger or equal nonce. */
  lemma InstallKeepsInv(cfg: Config, s: State, t: State, f: string, v: VoteSet)
    requires Inv(cfg, s) && t == s.(current := s.current[f := v], nonces := s.nonces[f := v.nonce])
    requires v.fnID == f && Eff(s, f) <= v.nonce <= MAX_INT64
    requires Shaped(v, |v.bits|) && Within(v.bits, v.response.bits)
    ensures Inv(cfg, t)
  {
    assert f in s.prevMaj ==> MajOk(cfg, s, f);
    InvFromOne(cfg, s, t, f);
  }

  lemma WithNonceKeepsInv(cfg: Config, s: State, f: string)
    requires Inv(cfg, s)
    ensures Inv(cfg, WithNonce(s, f)) && Eff(WithNonce(s, f), f) == Eff(s, f)
  {
    assert f in s.prevMaj ==> MajOk(cfg, s, f);
    assert f in s.current ==> CurrentOk(cfg, s, f);
    InvFromOne(cfg, s, WithNonce(s, f), f);
  }

  lemma JoinWithin(vals: Validators, a: VoteSet, b: VoteSet)
    requires Shaped(a, |vals|) && Shaped(b, |vals|)
    requires Within(a.bits, a.response.bits) && Within(b.bits, b.response.bits)
    ensures Within(Join(vals, a, b).bits, Join(vals, a, b).response.bits)
    ensures Shaped(Join(vals, a, b), |vals|)
  {
  }

  lemma MergingKeepsInv(cfg: Config, s: State, remote: VoteSet, vals: Validators)
    requires Inv(cfg, s) && remote.fnID in s.current && remote.fnID in s.nonces && IsValid(cfg, remote, vals)
    requires CanonicalCompare(s.current[remote.fnID], remote) && |vals| == |s.current[remote.fnID].bits|
    requires Shaped(s.current[remote.fnID], |vals|)
    ensures Inv(cfg, s.(current := s.current[remote.fnID := Join(vals, s.current[remote.fnID], remote)]))
  {
    var f, cur := remote.fnID, s.current[remote.fnID];
    assert CurrentOk(cfg, s, f);
    ValidIsWithin(cfg, remote, vals);
    JoinWithin(vals, cur, remote);
    assert s.nonces[f := cur.nonce] == s.nonces;
    InstallKeepsInv(cfg, s, s.(current := s.current[f := Join(vals, cur, remote)]), f, Join(vals, cur, remote));
  }

  lemma ActingKeepsInv(cfg: Config, s: State, remote: VoteSet, vals: Validators, verdict: Verdict)
    requires Inv(cfg, s) && Shapely(s) && IsInt64(remote.nonce) && IsValid(cfg, remote, vals)
    requires remote.fnID in s.nonces && s.nonces[remote.fnID] <= remote.nonce
    requires Plausible(verdict, remote, CurrentOf(s, remote.fnID))
    ensures Inv(cfg, ActOn(s, remote, vals, verdict).0)
  {
    var f := remote.fnID;
    ValidIsWithin(cfg, remote, vals);
    if verdict == Replace {
      InstallKeepsInv(cfg, s, ActOn(s, remote, vals, verdict).0, f, remote);
    } else if verdict == Same && CanonicalCompare(s.current[f], remote) {
      MergingKeepsInv(cfg, s, remote, vals);
    }
  }

  lemma AbsorbKeepsInv(cfg: Config, s: State, remote: VoteSet, vals: Validators)
    requires Inv(cfg, s) && Shapely(s) && IsInt64(remote.nonce) && IsValid(cfg, remote, vals)
    ensures Inv(cfg, Absorb(cfg, s, remote, vals).0)
  {
    var f, u := remote.fnID, WithNonce(s, remote.fnID);
    WithNonceKeepsInv(cfg, s, f);
    if u.nonces[f] <= remote.nonce {
      ActingKeepsInv(cfg, u, remote, vals, Compare(cfg, remote, CurrentOf(u, f), u.nonces[f], vals));
    }
  }

  /** Even a failed AddVote leaves the header alone and no vote without its response. */
  lemma AddVoteKeepsShape(v: VoteSet, nonce: int, resp: Individual, vals: Validators, k: nat, signature: Option<Bytes>)
    requires Shaped(v, |v.bits|) && k < |v.bits| && Within(v.bits, v.response.bits)
    ensures var w := AddVote(v, nonce, resp, vals, k, signature).0;
      && w.fnID == v.fnID && w.nonce == v.nonce && Shaped(w, |w.bits|) && Within(w.bits, w.response.bits)
  {
  }

  lemma ContributeKeepsInv(cfg: Config, s: State, f: string, changed: bool, vals: Validators,
                           resp: Option<Individual>, signature: Option<Bytes>)
    requires Inv(cfg, s) && Shapely(s) && f in s.current && f in s.nonces
    ensures Inv(cfg, Contribute(cfg, s, f, changed, vals, resp, signature).0)
  {
    var t, v := Contribute(cfg, s, f, changed, vals, resp, signature).0, s.current[f];
    var own := IndexOf(vals, cfg.ownAddress);
    assert CurrentOk(cfg, s, f);
    if 0 <= own < |v.bits| && !v.bits[own] && resp.Some? {
      AddVoteKeepsShape(v, s.nonces[f], resp.value, vals, own, signature);
      assert s.nonces[f := v.nonce] == s.nonces;
      InstallKeepsInv(cfg, s, t, f, t.current[f]);
    }
  }

  lemma VoteSetKeepsInv(cfg: Config, s: State, remote: VoteSet, vals: Validators,
                        resp: Option<Individual>, signature: Option<Bytes>)
    requires Inv(cfg, s) && Shapely(s) && IsInt64(remote.nonce)
    ensures Inv(cfg, VoteSetStep(cfg, s, remote, vals, resp, signature).0)
  {
    if IsValid(cfg, remote, vals) {
      AbsorbKeepsInv(cfg, s, remote, vals);
      var (t, changed) := Absorb(cfg, s, remote, vals);
      if changed.Some? {
        ContributeKeepsInv(cfg, t, remote.fnID, changed.value, vals, resp, signature);
      }
    }
  }

  /** A step keeps the invariant if and only if it does not wrap a nonce. */
  lemma StepKeepsInv(cfg: Config, s: State, i: Input)
    requires Binding(cfg.codec) && Inv(cfg, s) && Steppable(s) && InputOk(i) && !i.Restart?
    ensures Inv(cfg, Step(cfg, s, i).0) <==> !Wraps(cfg, s, i)
  {
    match i
    case DoVote(f, vals, resp, signature, _) => VoteKeepsInv(cfg, s, f, vals, resp, signature);
    case DoCommit(f, vals, _) => CommitKeepsInv(cfg, s, f, vals);
    case VoteSetMsg(remote, vals, resp, signature) => VoteSetKeepsInv(cfg, s, remote, vals, resp, signature);
    case MajMsg(remote, vals, _) => MajKeepsInv(cfg, s, remote, vals);
  }

  /** It can happen on every chain: any accepted majority with the largest nonce takes an idle node there,
      and the step breaks the invariant. */
  lemma WrapIsPossible(cfg: Config, vals: Validators, remote: VoteSet, marshals: bool)
    requires Binding(cfg.codec) && WellFormed(vals) && remote.nonce == MAX_INT64
    requires IsValid(cfg, remote, vals) && HasConverged(remote, cfg.threshold, vals)
    ensures var i := MajMsg(remote, vals, marshals);
      InputOk(i) && Inv(cfg, EMPTY_STATE) && Wraps(cfg, EMPTY_STATE, i) && !Inv(cfg, Step(cfg, EMPTY_STATE, i).0)
  {
    StepKeepsInv(cfg, EMPTY_STATE, MajMsg(remote, vals, marshals));
  }

  /** An accepted majority at least one below the node's nonce leaves the node past it with a recorded
      majority; the same message once more changes nothing and is not passed on. */
  lemma MajMessageOnce(cfg: Config, s: State, remote: VoteSet, vals: Validators)
    requires IsInt64(remote.nonce) && remote.nonce != MAX_INT64
    ensures var f, t := remote.fnID, MajStep(cfg, s, remote, vals).0;
      && (MajAccepted(cfg, s, remote, vals) && remote.nonce >= Eff(s, f) - 1 ==>
            f in t.prevMaj && Eff(t, f) > remote.nonce)
      && (MajStep(cfg, s, remote, vals).1.broadcasts ==> Eff(t, f) > Eff(s, f))
      && MajStep(cfg, t, remote, vals).0 == t && !MajStep(cfg, t, remote, vals).1.broadcasts
  {
    var f, t := remote.fnID, MajStep(cfg, s, remote, vals).0;
    if MajAccepted(cfg, s, remote, vals) {
      assert SignedBy(cfg, t, remote, vals) == SignedBy(cfg, s, remote, vals);
    }
  }

  /** The trust order never prefers each of two vote sets to the other, so two nodes cannot swap their
      sets; and only a converged set with at least as many votes replaces a converged one. */
  lemma TrustIsAsymmetric(cfg: Config, a: VoteSet, b: VoteSet, n: int, n': int, vals: Validators)
    requires Shaped(a, |vals|) && Shaped(b, |vals|)
    ensures !(Compare(cfg, a, Some(b), n, vals) == Replace && Compare(cfg, b, Some(a), n', vals) == Replace)
    ensures Compare(cfg, a, Some(b), n, vals) == Replace ==>
      && a.nonce != b.nonce && HasConverged(a, cfg.threshold, vals)
      && (HasConverged(b, cfg.threshold, vals) ==> NumberOfVotes(a) >= NumberOfVotes(b))
  {
  }

  // ---- whole runs ----

  /** The node's state and whatever it would load after a crash are both fine. */
  ghost predicate NodeInv(cfg: Config, n: Node) { Inv(cfg, n.state) && Inv(cfg, Load(n.disk)) }

  const INITIAL: Node := Node(EMPTY_STATE, None)

  /** A run: each step allowed from a state all of whose arrays are in shape, and no nonce wraps. */
  ghost predicate Run(cfg: Config, nodes: seq<Node>, inputs: seq<Input>) {
    && |nodes| == |inputs| + 1 && nodes[0] == INITIAL
    && forall j :: 0 <= j < |inputs| ==> Allowed(cfg, nodes[j], inputs[j], nodes[j + 1])
  }

  ghost predicate Allowed(cfg: Config, a: Node, i: Input, b: Node) {
    InputOk(i) && Steppable(a.state) && !Wraps(cfg, a.state, i) && Next(cfg, a, i, b)
  }

  lemma NextKeepsInv(cfg: Config, a: Node, i: Input, b: Node)
    requires Binding(cfg.codec) && NodeInv(cfg, a) && Allowed(cfg, a, i, b)
    ensures NodeInv(cfg, b)
  {
    if !i.Restart? {
      StepKeepsInv(cfg, a.state, i);
      if b.disk != a.disk {
        SavedStateReloads(cfg, b);
      }
    }
  }

  /** Flattening and rebuilding gives back every state that satisfies the invariant. */
  lemma SavedStateReloads(cfg: Config, n: Node)
    requires Inv(cfg, n.state) && n.disk.Some? && Flattens(n.state, n.disk.value)
    ensures Load(n.disk) == n.state
  {
    forall f | f in n.state.current ensures n.state.current[f].fnID == f { assert CurrentOk(cfg, n.state, f); }
    forall f | f in n.state.prevMaj ensures n.state.prevMaj[f].fnID == f { assert MajOk(cfg, n.state, f); }
    RoundTrip(n.state, n.disk.value);
  }

  /** The invariant holds at every point of every run, for the state in memory and for the saved one;
      no run gets stuck on a misshapen state. */
  lemma {:induction false} RunInvariant(cfg: Config, nodes: seq<Node>, inputs: seq<Input>, j: nat)
    requires Binding(cfg.codec) && Run(cfg, nodes, inputs) && j < |nodes|
    ensures NodeInv(cfg, nodes[j]) && Steppable(nodes[j].state)
  {
    if j > 0 {
      RunInvariant(cfg, nodes, inputs, j - 1);
      NextKeepsInv(cfg, nodes[j - 1], inputs[j - 1], nodes[j]);
    }
    InvSteppable(cfg, nodes[j].state);
  }

  /** Within one process lifetime no function's nonce goes down, unless the step wraps. */
  lemma NonceNeverDecreases(cfg: Config, s: State, i: Input, f: string)
    requires Inv(cfg, s) && Steppable(s) && InputOk(i) && !i.Restart?
    requires !Wraps(cfg, s, i)
    ensures Eff(Step(cfg, s, i).0, f) >= Eff(s, f)
  {
    match i
    case DoVote(_, _, _, _, _) =>
    case DoCommit(g, vals, _) =>
      if CommitAdvances(cfg, s, g, vals) { CommitMovesNonce(cfg, s, g, vals); }
    case VoteSetMsg(remote, vals, resp, signature) => VoteSetNonces(cfg, s, remote, vals, resp, signature, f);
    case MajMsg(_, _, _) =>
  }

  lemma ActingNonces(s: State, remote: VoteSet, vals: Validators, verdict: Verdict, f: string)
    requires Shapely(s) && Shaped(remote, |vals|) && Plausible(verdict, remote, CurrentOf(s, remote.fnID))
    requires remote.fnID in s.nonces && s.nonces[remote.fnID] <= remote.nonce
    ensures Eff(ActOn(s, remote, vals, verdict).0, f) >= Eff(s, f)
  {
  }

  lemma AbsorbNonces(cfg: Config, s: State, remote: VoteSet, vals: Validators, f: string)
    requires Shapely(s) && Shaped(remote, |vals|)
    ensures Eff(Absorb(cfg, s, remote, vals).0, f) >= Eff(s, f)
  {
    var u := WithNonce(s, remote.fnID);
    var n := u.nonces[remote.fnID];
    if n <= remote.nonce {
      ActingNonces(u, remote, vals, Compare(cfg, remote, CurrentOf(u, remote.fnID), n, vals), f);
    }
  }

  lemma ContributeNonces(cfg: Config, s: State, f: string, changed: bool, vals: Validators,
                         resp: Option<Individual>, signature: Option<Bytes>)
    requires Shapely(s) && f in s.current && f in s.nonces
    ensures Contribute(cfg, s, f, changed, vals, resp, signature).0.nonces == s.nonces
  {
  }

  lemma VoteSetNonces(cfg: Config, s: State, remote: VoteSet, vals: Validators,
                      resp: Option<Individual>, signature: Option<Bytes>, f: string)
    requires Shapely(s)
    ensures Eff(VoteSetStep(cfg, s, remote, vals, resp, signature).0, f) >= Eff(s, f)
  {
    if IsValid(cfg, remote, vals) {
      AbsorbNonces(cfg, s, remote, vals, f);
      var (t, changed) := Absorb(cfg, s, remote, vals);
      if changed.Some? {
        ContributeNonces(cfg, t, remote.fnID, changed.value, vals, resp, signature);
      }
    }
  }

  /** A step that wraps takes the nonce to the smallest int64. */
  lemma WrappingLosesNonce(cfg: Config, s: State, i: Input)
    requires Inv(cfg, s) && Steppable(s) && InputOk(i) && Wraps(cfg, s, i)
    ensures var f := if i.DoCommit? then i.f else i.remote.fnID;
      Eff(Step(cfg, s, i).0, f) == MIN_INT64 < Eff(s, f)
  {
    if i.DoCommit? { CommitMovesNonce(cfg, s, i.f, i.vals); }
  }

  lemma LiveStep(cfg: Config, a: Node, i: Input, b: Node, f: string)
    requires NodeInv(cfg, a) && Allowed(cfg, a, i, b) && !i.Restart?
    ensures Eff(a.state, f) <= Eff(b.state, f)
  {
    NonceNeverDecreases(cfg, a.state, i, f);
  }

  lemma RunLiveStep(cfg: Config, nodes: seq<Node>, inputs: seq<Input>, j: nat, f: string)
    requires Binding(cfg.codec) && Run(cfg, nodes, inputs) && j < |inputs| && !inputs[j].Restart?
    ensures Eff(nodes[j].state, f) <= Eff(nodes[j + 1].state, f)
  {
    RunInvariant(cfg, nodes, inputs, j);
    LiveStep(cfg, nodes[j], inputs[j], nodes[j + 1], f);
  }

  /** Between two points of a run with no restart between them, no function's nonce goes down. */
  lemma {:induction false} LifetimeNonces(cfg: Config, nodes: seq<Node>, inputs: seq<Input>, a: nat, b: nat, f: string)
    requires Binding(cfg.codec) && Run(cfg, nodes, inputs) && a <= b < |nodes|
    requires forall j :: a <= j < b ==> !inputs[j].Restart?
    ensures 1 <= Eff(nodes[a].state, f) <= Eff(nodes[b].state, f)
    decreases b - a
  {
    if a == b {
      RunInvariant(cfg, nodes, inputs, a);
    } else {
      LifetimeNonces(cfg, nodes, inputs, a, b - 1, f);
      RunLiveStep(cfg, nodes, inputs, b - 1, f);
    }
  }

  /** Nodes of one chain: the same encoders and chain ID; addresses, registries and thresholds may differ. */
  ghost predicate SameChain(cfg: Config, cfg': Config) { cfg.codec == cfg'.codec && cfg.chainID == cfg'.chainID }

  lemma ValidForUnion(cfg: Config, cfg': Config, v: VoteSet, vals: Validators)
    requires SameChain(cfg, cfg') && cfg.registry <= cfg'.registry && IsValid(cfg, v, vals)
    ensures IsValid(cfg', v, vals)
  {
    forall i | 0 <= i < |vals| ensures EntryValid(cfg'.codec, v, vals, i) {
      assert EntryValid(cfg.codec, v, vals, i);
    }
  }

  /** A recorded majority vote set was valid for the validator set its hash names. */
  lemma RecordedIsValid(cfg: Config, nodes: seq<Node>, inputs: seq<Input>, j: nat, f: string, vals: Validators)
    requires Binding(cfg.codec) && Run(cfg, nodes, inputs) && j < |nodes| && f in nodes[j].state.prevMaj
    requires nodes[j].state.prevMaj[f].validatorsHash == cfg.codec.validatorsHash(vals)
    ensures nodes[j].state.prevMaj[f].fnID == f && IsValid(cfg, nodes[j].state.prevMaj[f], vals)
  {
    RunInvariant(cfg, nodes, inputs, j);
    assert MajOk(cfg, nodes[j].state, f);
  }

  /** Two nodes of one chain, each with its own key, registry and threshold, have recorded majorities on
      different hashes for one function, nonce and validator set: more than one third of the power signed
      both. */
  lemma CrossNodeSafety(cfg: Config, n: seq<Node>, ins: seq<Input>, j: nat,
                        cfg': Config, n': seq<Node>, ins': seq<Input>, j': nat,
                        f: string, vals: Validators, h: Bytes, k: Bytes)
      returns (culprits: seq<bool>)
    requires SameChain(cfg, cfg') && Binding(cfg.codec) && Injective(cfg.codec) && WellFormed(vals)
    requires Run(cfg, n, ins) && Run(cfg', n', ins') && j < |n| && j' < |n'|
    requires f in n[j].state.prevMaj && f in n'[j'].state.prevMaj
    requires var v, w := n[j].state.prevMaj[f], n'[j'].state.prevMaj[f];
      && v.nonce == w.nonce && v.validatorsHash == w.validatorsHash == cfg.codec.validatorsHash(vals)
      && HasMajority(v.response, cfg.threshold, vals, h) && HasMajority(w.response, cfg'.threshold, vals, k)
    requires h != k
    ensures |culprits| == |vals| && 3 * Power(vals, culprits, |vals|) > Total(vals)
    ensures forall i :: 0 <= i < |vals| && culprits[i] ==>
      SignedBoth(cfg.codec, n[j].state.prevMaj[f], n'[j'].state.prevMaj[f], vals, i)
  {
    var v, w := n[j].state.prevMaj[f], n'[j'].state.prevMaj[f];
    var both := cfg.(registry := cfg.registry + cfg'.registry);
    RecordedIsValid(cfg, n, ins, j, f, vals);
    RecordedIsValid(cfg', n', ins', j', f, vals);
    ValidForUnion(cfg, both, v, vals);
    ValidForUnion(cfg', both, w, vals);
    culprits := QuorumIntersection(both, v, w, vals, cfg.threshold, h, cfg'.threshold, k);
  }

  /** The node can commit a vote set for f with this nonce and these agree bits; what else it holds is
      free. */
  ghost predicate Decides(cfg: Config, s: State, f: string, vals: Validators, nonce: int, bits: seq<bool>) {
    && Inv(cfg, s) && CommitAdvances(cfg, s, f, vals) && s.current[f].nonce == nonce
    && MajResponse(s.current[f].response, cfg.threshold, vals).Some?
    && MajResponse(s.current[f].response, cfg.threshold, vals).value.bits == bits
  }

  /** Every validator, each in its own state, decides the same. */
  ghost predicate SameDecision(cfg: Config, ss: seq<State>, f: string, vals: Validators, nonce: int, bits: seq<bool>) {
    |ss| == |vals| && forall j :: 0 <= j < |vals| ==> Decides(cfg, ss[j], f, vals, nonce, bits)
  }

  ghost predicate DistinctAddresses(vals: Validators) {
    forall a, b :: 0 <= a < b < |vals| ==> vals[a].address != vals[b].address
  }

  /** The node at this address submits when it commits f's vote set. */
  ghost predicate SubmitsFrom(cfg: Config, s: State, f: string, vals: Validators, address: Bytes)
    requires WellFormed(vals) && IsInt64(Stored(s, f))
  {
    CommitStep(cfg.(ownAddress := address), s, f, vals).1.submits
  }

  lemma CommitSubmits(cfg: Config, s: State, f: string, vals: Validators, nonce: int, bits: seq<bool>, j: nat)
    requires WellFormed(vals) && DistinctAddresses(vals) && Decides(cfg, s, f, vals, nonce, bits) && j < |vals|
    ensures IsInt64(Stored(s, f)) && Count(bits, |bits|) > 0
    ensures SubmitsFrom(cfg, s, f, vals, vals[j].address) <==> IsSubmitter(bits, nonce, j)
  {
    CommitMovesNonce(cfg, s, f, vals);
    MajorityCounts(s.current[f].response, cfg.threshold, vals);
    assert IndexOf(vals, vals[j].address) == j;
    assert IsValid(cfg.(ownAddress := vals[j].address), s.current[f], vals);
  }

  lemma SubmitterFor(cfg: Config, s: State, f: string, vals: Validators, nonce: int, bits: seq<bool>) returns (i: nat)
    requires WellFormed(vals) && Decides(cfg, s, f, vals, nonce, bits)
    ensures i < |vals| && |bits| == |vals| && bits[i] && Count(bits, |bits|) > 0
    ensures forall j :: IsSubmitter(bits, nonce, j) <==> j == i
  {
    CommitMovesNonce(cfg, s, f, vals);
    i := ExactlyOneSubmitter(s.current[f].response, cfg.threshold, vals, nonce);
  }

  lemma OutsiderIsSilent(cfg: Config, s: State, f: string, vals: Validators, address: Bytes)
    requires WellFormed(vals) && IsInt64(Stored(s, f)) && IndexOf(vals, address) == -1
    ensures !SubmitsFrom(cfg, s, f, vals, address)
  {
  }

  /** Of all validators that commit the same nonce with the same agree bits exactly one submits, whatever
      else their vote sets and states hold; a node that is not a validator never does. */
  lemma OneNodeSubmits(cfg: Config, ss: seq<State>, f: string, vals: Validators, nonce: int, bits: seq<bool>)
      returns (i: nat)
    requires WellFormed(vals) && DistinctAddresses(vals) && SameDecision(cfg, ss, f, vals, nonce, bits)
    ensures i < |vals| && |bits| == |vals| && bits[i]
    ensures forall j :: 0 <= j < |vals| ==>
      IsInt64(Stored(ss[j], f)) && (SubmitsFrom(cfg, ss[j], f, vals, vals[j].address) <==> j == i)
    ensures forall address, s :: IndexOf(vals, address) == -1 && IsInt64(Stored(s, f)) ==>
      !SubmitsFrom(cfg, s, f, vals, address)
  {
    assert Decides(cfg, ss[0], f, vals, nonce, bits);
    i := SubmitterFor(cfg, ss[0], f, vals, nonce, bits);
    forall j | 0 <= j < |vals|
      ensures IsInt64(Stored(ss[j], f)) && (SubmitsFrom(cfg, ss[j], f, vals, vals[j].address) <==> j == i)
    {
      CommitSubmits(cfg, ss[j], f, vals, nonce, bits, j);
    }
    forall address, s | IndexOf(vals, address) == -1 && IsInt64(Stored(s, f))
      ensures !SubmitsFrom(cfg, s, f, vals, address)
    {
      OutsiderIsSilent(cfg, s, f, vals, address);
    }
  }

  /** Equal hash and nonce are not enough: two accepted vote sets with the same majority hash, one with a
      later vote, name different submitters, so two validators submit. */
  lemma TwoNodesCanSubmit()
    ensures exists cfg: Config, v: VoteSet, w: VoteSet, vals: Validators, a: int, b: int ::
      && WellFormed(vals) && IsValid(cfg, v, vals) && IsValid(cfg, w, vals) && v.nonce == w.nonce && a != b
      && MajResponse(v.response, cfg.threshold, vals).Some? && MajResponse(w.response, cfg.threshold, vals).Some?
      && MajResponse(v.response, cfg.threshold, vals).value.hash
         == MajResponse(w.response, cfg.threshold, vals).value.hash
      && Submits(cfg, v, vals, v.nonce, a) && Submits(cfg, w, vals, w.nonce, b)
  {
    var vals := [Validator([0], [0], 1), Validator([1], [1], 1), Validator([2], [2], 1), Validator([3], [3], 1)];
    var some: Option<Bytes> := Some([7]);
    var r := Response([some, some, some, None], [true, true, true, false], [some, some, some, None]);
    var q := Response([some, some, some, some], [true, true, true, true], [some, some, some, some]);
    var cfg, v, w := LaxConfig(), LaxVoteSet(4, r, vals), LaxVoteSet(4, q, vals);
    LaxVoteSetValid(4, r, vals);
    LaxVoteSetValid(4, q, vals);
    FourValidators(vals, Everyone(4));
    SubmitterOf(r, vals, [true, true, true, false], 1);
    SubmitterOf(q, vals, [true, true, true, true], 0);
    assert Submits(cfg, v, vals, v.nonce, 1) && Submits(cfg, w, vals, w.nonce, 0);
    assert WellFormed(vals) && IsValid(cfg, v, vals) && IsValid(cfg, w, vals);
  }

  lemma FourValidators(vals: Validators, sel: seq<bool>)
    requires |vals| == |sel| == 4 && forall i :: 0 <= i < 4 ==> vals[i].power == 1
    ensures Power(vals, sel, 4) == Count(sel, 4)
    ensures Count(sel, 4) == (if sel[0] then 1 else 0) + (if sel[1] then 1 else 0)
                             + (if sel[2] then 1 else 0) + (if sel[3] then 1 else 0)
    ensures Count(sel, 1) == (if sel[0] then 1 else 0)
    ensures Count(sel, 2) == (if sel[0] then 1 else 0) + (if sel[1] then 1 else 0)
  {
    assert Power(vals, sel, 1) == Count(sel, 1);
    assert Power(vals, sel, 2) == Count(sel, 2);
    assert Power(vals, sel, 3) == Count(sel, 3);
  }

  lemma SubmitterOf(r: Response, vals: Validators, bits: seq<bool>, own: nat)
    requires WellFormed(vals) && ResponseShaped(r, 4) && |vals| == |bits| == 4 && own < 4
    requires forall i :: 0 <= i < 4 ==> vals[i].power == 1
    requires forall i :: 0 <= i < 4 ==> r.hashes[i] == if bits[i] then Some([7]) else None
    requires bits[0] && bits[1] && bits[2] && own == if bits[3] then 0 else 1
    ensures MajResponse(r, Maj23, vals).Some? && MajResponse(r, Maj23, vals).value.hash == [7]
    ensures var b := MajResponse(r, Maj23, vals).value.bits;
      Count(b, |b|) > 0 && IsSubmitter(b, 4, own)
  {
    FourValidators(vals, Everyone(4));
    assert Voters(r.hashes, [7], 4) == bits;
    FourValidators(vals, bits);
    assert HasMajority(r, Maj23, vals, [7]);
    var m := MajResponse(r, Maj23, vals).value;
    MajorityUnique(r, Maj23, vals, [7], m.hash);
    assert m.bits == bits;
  }

  // ---- validity over whole runs ----

  /** Every vote set in progress passes the whole acceptance test. */
  ghost predicate AllValid(cfg: Config, s: State, vals: Validators) {
    forall f :: f in s.current ==> IsValid(cfg, s.current[f], vals)
  }

  /** Our own key signs what it is given: when it returns a signature, it verifies over the fresh vote
      set's sign bytes when we vote, over the sign bytes of the set we complete when we answer a message. */
  ghost predicate SignsWell(cfg: Config, s: State, i: Input)
    requires InputOk(i) && Steppable(s) && !i.Restart?
  {
    (i.DoVote? || i.VoteSetMsg?) && i.resp.Some? && IndexOf(i.vals, cfg.ownAddress) >= 0 ==>
      var k := IndexOf(i.vals, cfg.ownAddress);
      && cfg.codec.addressOf(i.vals[k].pubKey) == i.vals[k].address
      && (i.DoVote? && i.signature.Some? ==>
            var u := Unsigned(cfg, Eff(s, i.f), i.f, i.resp.value, i.vals, k);
            cfg.codec.verify(i.vals[k].pubKey, SignBytes(cfg.codec, u, k), i.signature.value))
      && (i.VoteSetMsg? && i.signature.Some? && IsValid(cfg, i.remote, i.vals) ==>
            var (t, changed) := Absorb(cfg, s, i.remote, i.vals);
            changed.Some? && |t.current[i.remote.fnID].bits| == |i.vals| ==>
              var w := WithResponse(t.current[i.remote.fnID], i.resp.value, k);
              cfg.codec.verify(i.vals[k].pubKey, SignBytes(cfg.codec, w, k), i.signature.value))
  }

  /** The response lacks a hash or an oracle signature, or the signer fails. */
  predicate Incomplete(resp: Individual, signature: Option<Bytes>) {
    resp.hash.None? || resp.oracleSignature.None? || signature.None?
  }

  /** Answering the message, we go on to add our missing vote with something missing: the one way a step
      writes a vote set that is no longer valid. */
  ghost predicate Spoils(cfg: Config, s: State, i: Input)
    requires InputOk(i) && Steppable(s) && !i.Restart?
  {
    && i.VoteSetMsg? && IsValid(cfg, i.remote, i.vals) && i.resp.Some? && Incomplete(i.resp.value, i.signature)
    && IndexOf(i.vals, cfg.ownAddress) >= 0
    && var (t, changed) := Absorb(cfg, s, i.remote, i.vals);
       var k := IndexOf(i.vals, cfg.ownAddress);
       changed.Some? && k < |t.current[i.remote.fnID].bits| && !t.current[i.remote.fnID].bits[k]
  }

  /** A vote added with something missing leaves a vote set that fails the acceptance test: in particular a
      signer failure does, because the response is written before signing. */
  lemma IncompleteVoteSpoils(cfg: Config, v: VoteSet, resp: Individual, vals: Validators, k: nat,
                             signature: Option<Bytes>)
    requires IsValid(cfg, v, vals) && k < |vals| && !v.bits[k] && Incomplete(resp, signature)
    ensures !IsValid(cfg, AddVote(v, v.nonce, resp, vals, k, signature).0, vals)
  {
    var w := AddVote(v, v.nonce, resp, vals, k, signature).0;
    assert EntryValid(cfg.codec, v, vals, k);
    assert w.response.bits[k];
    if signature.None? { assert !EntryValid(cfg.codec, w, vals, k); }
  }

  lemma ActingKeepsValid(cfg: Config, s: State, remote: VoteSet, vals: Validators, verdict: Verdict)
    requires Shapely(s) && AllValid(cfg, s, vals) && IsValid(cfg, remote, vals)
    requires remote.fnID in s.nonces && Plausible(verdict, remote, CurrentOf(s, remote.fnID))
    ensures AllValid(cfg, ActOn(s, remote, vals, verdict).0, vals)
  {
    if verdict == Same { MergeKeepsValid(cfg, vals, s.current[remote.fnID], remote); }
  }

  lemma AbsorbKeepsValid(cfg: Config, s: State, remote: VoteSet, vals: Validators)
    requires Shapely(s) && AllValid(cfg, s, vals) && IsValid(cfg, remote, vals)
    ensures AllValid(cfg, Absorb(cfg, s, remote, vals).0, vals)
  {
    var f, u := remote.fnID, WithNonce(s, remote.fnID);
    if u.nonces[f] <= remote.nonce {
      ActingKeepsValid(cfg, u, remote, vals, Compare(cfg, remote, CurrentOf(u, f), u.nonces[f], vals));
    }
  }

  lemma ContributeKeepsValid(cfg: Config, s: State, f: string, changed: bool, vals: Validators,
                             resp: Option<Individual>, signature: Option<Bytes>)
    requires Inv(cfg, s) && Shapely(s) && f in s.current && f in s.nonces && AllValid(cfg, s, vals)
    requires IsValid(cfg, s.current[f], vals)
    requires var k := IndexOf(vals, cfg.ownAddress);
      k >= 0 && resp.Some? && signature.Some? ==>
        && cfg.codec.addressOf(vals[k].pubKey) == vals[k].address
        && cfg.codec.verify(vals[k].pubKey, SignBytes(cfg.codec, WithResponse(s.current[f], resp.value, k), k),
                            signature.value)
    ensures var k := IndexOf(vals, cfg.ownAddress);
      AllValid(cfg, Contribute(cfg, s, f, changed, vals, resp, signature).0, vals) <==>
      !(k >= 0 && !s.current[f].bits[k] && resp.Some? && Incomplete(resp.value, signature))
  {
    var k, v := IndexOf(vals, cfg.ownAddress), s.current[f];
    var t := Contribute(cfg, s, f, changed, vals, resp, signature).0;
    assert CurrentOk(cfg, s, f);
    if k >= 0 && resp.Some? && !v.bits[k] {
      if Incomplete(resp.value, signature) {
        IncompleteVoteSpoils(cfg, v, resp.value, vals, k, signature);
        assert !IsValid(cfg, t.current[f], vals);
      } else {
        AddVoteKeepsValid(cfg, v, s.nonces[f], resp.value, vals, k, signature.value);
      }
    }
  }

  lemma VoteKeepsValid(cfg: Config, s: State, i: Input)
    requires Inv(cfg, s) && Steppable(s) && InputOk(i) && i.DoVote? && AllValid(cfg, s, i.vals) && SignsWell(cfg, s, i)
    ensures AllValid(cfg, Step(cfg, s, i).0, i.vals)
  {
    var k := IndexOf(i.vals, cfg.ownAddress);
    if k >= 0 && i.resp.Some? && i.f in cfg.registry && i.signature.Some? {
      NewVoteSetValid(cfg, Eff(s, i.f), i.f, i.resp.value, i.vals, k, i.signature.value);
    }
  }

  lemma VoteSetKeepsValid(cfg: Config, s: State, i: Input)
    requires Inv(cfg, s) && Steppable(s) && InputOk(i) && i.VoteSetMsg?
    requires AllValid(cfg, s, i.vals) && SignsWell(cfg, s, i)
    ensures AllValid(cfg, Step(cfg, s, i).0, i.vals) <==> !Spoils(cfg, s, i)
  {
    if IsValid(cfg, i.remote, i.vals) {
      AbsorbKeepsValid(cfg, s, i.remote, i.vals);
      AbsorbKeepsInv(cfg, s, i.remote, i.vals);
      var (t, changed) := Absorb(cfg, s, i.remote, i.vals);
      if changed.Some? {
        assert IsValid(cfg, t.current[i.remote.fnID], i.vals);
        ContributeKeepsValid(cfg, t, i.remote.fnID, changed.value, i.vals, i.resp, i.signature);
      }
    }
  }

  /** Under one validator set, with a key whose signatures verify, a step keeps every vote set in progress
      valid if and only if it does not add an incomplete vote; and a commit then removes a set exactly when
      it has converged. */
  lemma StepKeepsValid(cfg: Config, s: State, i: Input)
    requires Inv(cfg, s) && Steppable(s) && InputOk(i) && !i.Restart?
    requires AllValid(cfg, s, i.vals) && SignsWell(cfg, s, i)
    ensures AllValid(cfg, Step(cfg, s, i).0, i.vals) <==> !Spoils(cfg, s, i)
    ensures i.DoCommit? && i.f in cfg.registry && i.f in s.current ==>
      (i.f !in Step(cfg, s, i).0.current <==> HasConverged(s.current[i.f], cfg.threshold, i.vals))
  {
    if i.DoVote? {
      VoteKeepsValid(cfg, s, i);
    } else if i.VoteSetMsg? {
      VoteSetKeepsValid(cfg, s, i);
    }
  }

  /** The steps of a run under one validator set in which our key works and no vote is incomplete. */
  ghost predicate Healthy(cfg: Config, nodes: seq<Node>, inputs: seq<Input>, vals: Validators) {
    && Run(cfg, nodes, inputs)
    && forall j :: 0 <= j < |inputs| ==> HealthyAt(cfg, nodes, inputs, vals, j)
  }

  ghost predicate HealthyAt(cfg: Config, nodes: seq<Node>, inputs: seq<Input>, vals: Validators, j: nat)
    requires j < |inputs| && j < |nodes|
  { HealthyStep(cfg, nodes[j].state, inputs[j], vals) }

  ghost predicate HealthyStep(cfg: Config, s: State, i: Input, vals: Validators) {
    && InputOk(i) && Steppable(s)
    && (!i.Restart? ==> i.vals == vals && SignsWell(cfg, s, i) && !Spoils(cfg, s, i))
  }

  /** Every vote set in progress is valid, in memory and in what a crash would bring back. */
  ghost predicate NodeValid(cfg: Config, n: Node, vals: Validators) {
    AllValid(cfg, n.state, vals) && AllValid(cfg, Load(n.disk), vals)
  }

  lemma NextKeepsValid(cfg: Config, a: Node, i: Input, b: Node, vals: Validators)
    requires Binding(cfg.codec) && NodeInv(cfg, a) && Allowed(cfg, a, i, b) && HealthyStep(cfg, a.state, i, vals)
    requires NodeValid(cfg, a, vals)
    ensures NodeValid(cfg, b, vals)
  {
    if !i.Restart? {
      StepKeepsValid(cfg, a.state, i);
      StepKeepsInv(cfg, a.state, i);
      if Step(cfg, a.state, i).1.saves { SavedStateReloads(cfg, b); }
    }
  }

  lemma HealthyNext(cfg: Config, nodes: seq<Node>, inputs: seq<Input>, vals: Validators, j: nat)
    requires Binding(cfg.codec) && Healthy(cfg, nodes, inputs, vals) && j < |inputs| && NodeValid(cfg, nodes[j], vals)
    ensures NodeValid(cfg, nodes[j + 1], vals)
  {
    RunInvariant(cfg, nodes, inputs, j);
    assert HealthyAt(cfg, nodes, inputs, vals, j) && Allowed(cfg, nodes[j], inputs[j], nodes[j + 1]);
    NextKeepsValid(cfg, nodes[j], inputs[j], nodes[j + 1], vals);
  }

  lemma InitialValid(cfg: Config, vals: Validators)
    ensures NodeValid(cfg, INITIAL, vals)
  {
  }

  /** Over every such run, restarts and failed saves included, every vote set in progress is valid, in
      memory and on disk. */
  lemma {:induction false} RunKeepsValid(cfg: Config, nodes: seq<Node>, inputs: seq<Input>, vals: Validators, j: nat)
    requires Binding(cfg.codec) && Healthy(cfg, nodes, inputs, vals) && j < |nodes|
    ensures NodeValid(cfg, nodes[j], vals)
  {
    if j == 0 {
      InitialValid(cfg, vals);
      assert nodes[j] == INITIAL;
    } else {
      var i := j - 1;
      RunKeepsValid(cfg, nodes, inputs, vals, i);
      HealthyNext(cfg, nodes, inputs, vals, i);
      assert nodes[i + 1] == nodes[j];
    }
  }

  // ---- gossip terminates ----

  /** 0 without a vote set, otherwise one more than its votes. */
  function Rank(s: State, f: string): nat {
    if f in s.current then 1 + NumberOfVotes(s.current[f]) else 0
  }

  ghost predicate Progress(s: State, t: State, f: string) {
    Eff(t, f) > Eff(s, f) || (Eff(t, f) == Eff(s, f) && Rank(t, f) > Rank(s, f))
  }

  lemma MergeGainsVotes(cfg: Config, vals: Validators, a: VoteSet, b: VoteSet)
    requires Shaped(a, |vals|) && IsValid(cfg, b, vals) && Within(a.bits, a.response.bits)
    requires MergeChanges(a, b)
    ensures NumberOfVotes(Join(vals, a, b)) > NumberOfVotes(a)
  {
    var i :| 0 <= i < |a.bits| && (Gain(a.bits, b.bits)[i] || Gain(a.response.bits, b.response.bits)[i]);
    assert EntryValid(cfg.codec, b, vals, i);
    CountMonotone(a.bits, Union(a.bits, b.bits), |a.bits|);
  }

  lemma ActingProgress(cfg: Config, s: State, remote: VoteSet, vals: Validators, verdict: Verdict)
    requires Inv(cfg, s) && Shapely(s) && IsValid(cfg, remote, vals)
    requires remote.fnID in s.nonces && s.nonces[remote.fnID] <= remote.nonce
    requires Plausible(verdict, remote, CurrentOf(s, remote.fnID))
    requires ActOn(s, remote, vals, verdict).1.Some?
    ensures var (t, changed) := ActOn(s, remote, vals, verdict);
      if changed.value then Progress(s, t, remote.fnID)
      else Eff(t, remote.fnID) == Eff(s, remote.fnID) && Rank(t, remote.fnID) >= Rank(s, remote.fnID)
  {
    var f := remote.fnID;
    if f in s.current {
      assert CurrentOk(cfg, s, f);
      var cur := s.current[f];
      if verdict == Same {
        CountMonotone(cur.bits, Union(cur.bits, remote.bits), |cur.bits|);
        if MergeChanges(cur, remote) { MergeGainsVotes(cfg, vals, cur, remote); }
      }
    }
  }

  lemma AbsorbProgress(cfg: Config, s: State, remote: VoteSet, vals: Validators)
    requires Inv(cfg, s) && Shapely(s) && IsValid(cfg, remote, vals)
    requires Absorb(cfg, s, remote, vals).1.Some?
    ensures var (t, changed) := Absorb(cfg, s, remote, vals);
      if changed.value then Progress(s, t, remote.fnID)
      else Eff(t, remote.fnID) == Eff(s, remote.fnID) && Rank(t, remote.fnID) >= Rank(s, remote.fnID)
  {
    var f, u := remote.fnID, WithNonce(s, remote.fnID);
    WithNonceKeepsInv(cfg, s, f);
    ActingProgress(cfg, u, remote, vals, Compare(cfg, remote, CurrentOf(u, f), u.nonces[f], vals));
  }

  /** Every vote-set message that makes a node rebroadcast increases (nonce, set present, votes). */
  lemma RebroadcastProgress(cfg: Config, s: State, remote: VoteSet, vals: Validators,
                            resp: Option<Individual>, signature: Option<Bytes>)
    requires Inv(cfg, s) && Shapely(s)
    ensures var (t, out) := VoteSetStep(cfg, s, remote, vals, resp, signature);
      && (out.broadcasts ==> Progress(s, t, remote.fnID))
      && (t == s || Eff(t, remote.fnID) > Eff(s, remote.fnID)
          || (Eff(t, remote.fnID) == Eff(s, remote.fnID) && Rank(t, remote.fnID) >= Rank(s, remote.fnID)))
  {
    if IsValid(cfg, remote, vals) {
      var (u, changed) := Absorb(cfg, s, remote, vals);
      if changed.Some? {
        AbsorbProgress(cfg, s, remote, vals);
        ContributeProgress(cfg, u, remote.fnID, changed.value, vals, resp, signature);
      }
    }
  }

  lemma ContributeProgress(cfg: Config, s: State, f: string, changed: bool, vals: Validators,
                           resp: Option<Individual>, signature: Option<Bytes>)
    requires Shapely(s) && f in s.current && f in s.nonces
    ensures var (t, out) := Contribute(cfg, s, f, changed, vals, resp, signature);
      && Eff(t, f) == Eff(s, f) && Rank(t, f) >= Rank(s, f)
      && (out.broadcasts ==> changed || Rank(t, f) > Rank(s, f))
  {
    var v, own := s.current[f], IndexOf(vals, cfg.ownAddress);
    if 0 <= own < |v.bits| && !v.bits[own] {
      CountMonotone(v.bits, v.bits[own := true], |v.bits|);
    }
  }

  /** The vote set in progress for f, if any, is for at most n validators. */
  ghost predicate AtMost(s: State, f: string, n: nat) { f in s.current ==> |s.current[f].bits| <= n }

  /** States linked by vote-set messages about any functions, under validator sets of at most n members. */
  ghost predicate Chatter(cfg: Config, ss: seq<State>, ins: seq<Input>, f: string, n: nat) {
    && |ss| == |ins| + 1 && Inv(cfg, ss[0]) && AtMost(ss[0], f, n)
    && forall j :: 0 <= j < |ins| ==> ChatterAt(cfg, ss, ins, n, j)
  }

  ghost predicate ChatterAt(cfg: Config, ss: seq<State>, ins: seq<Input>, n: nat, j: nat)
    requires j < |ins| && j + 1 < |ss|
  { Hears(cfg, ss[j], ins[j], ss[j + 1], n) }

  /** A vote-set message, under at most n validators, takes the node from s to t. */
  ghost predicate Hears(cfg: Config, s: State, i: Input, t: State, n: nat) {
    i.VoteSetMsg? && InputOk(i) && |i.vals| <= n && Steppable(s) && t == Step(cfg, s, i).0
  }

  /** 1 if the message makes the node rebroadcast f's vote set. */
  ghost function Echo(cfg: Config, s: State, i: Input, f: string): nat {
    if i.VoteSetMsg? && InputOk(i) && Steppable(s) && i.remote.fnID == f && Step(cfg, s, i).1.broadcasts then 1 else 0
  }

  /** How often f's vote set was rebroadcast in the first m messages. */
  ghost function Rebroadcasts(cfg: Config, ss: seq<State>, ins: seq<Input>, f: string, m: nat): nat
    requires m <= |ins| && m < |ss|
  {
    if m == 0 then 0 else Rebroadcasts(cfg, ss, ins, f, m - 1) + Echo(cfg, ss[m - 1], ins[m - 1], f)
  }

  lemma AbsorbElsewhere(cfg: Config, s: State, remote: VoteSet, vals: Validators)
    requires Shapely(s) && Shaped(remote, |vals|)
    ensures SameElsewhere(s, Absorb(cfg, s, remote, vals).0, remote.fnID)
  {
    var f, u := remote.fnID, WithNonce(s, remote.fnID);
    assert SameElsewhere(s, u, f);
    if u.nonces[f] <= remote.nonce {
      var verdict := Compare(cfg, remote, CurrentOf(u, f), u.nonces[f], vals);
      ActingElsewhere(u, remote, vals, verdict);
      ElsewhereTransitive(s, u, ActOn(u, remote, vals, verdict).0, f);
    }
  }

  lemma ElsewhereTransitive(s: State, t: State, u: State, f: string)
    requires SameElsewhere(s, t, f) && SameElsewhere(t, u, f)
    ensures SameElsewhere(s, u, f)
  {
  }

  lemma ContributeElsewhere(cfg: Config, s: State, f: string, changed: bool, vals: Validators,
                            resp: Option<Individual>, signature: Option<Bytes>)
    requires Shapely(s) && f in s.current && f in s.nonces
    ensures SameElsewhere(s, Contribute(cfg, s, f, changed, vals, resp, signature).0, f)
  {
  }

  /** A message about another function leaves f alone. */
  lemma OthersLeaveAlone(cfg: Config, s: State, remote: VoteSet, vals: Validators,
                         resp: Option<Individual>, signature: Option<Bytes>)
    requires Shapely(s)
    ensures SameElsewhere(s, VoteSetStep(cfg, s, remote, vals, resp, signature).0, remote.fnID)
  {
    if IsValid(cfg, remote, vals) {
      AbsorbElsewhere(cfg, s, remote, vals);
      var (t, changed) := Absorb(cfg, s, remote, vals);
      if changed.Some? {
        var u := Contribute(cfg, t, remote.fnID, changed.value, vals, resp, signature).0;
        ContributeElsewhere(cfg, t, remote.fnID, changed.value, vals, resp, signature);
        ElsewhereTransitive(s, t, u, remote.fnID);
      }
    }
  }

  lemma ActingElsewhere(s: State, remote: VoteSet, vals: Validators, verdict: Verdict)
    requires Shapely(s) && Shaped(remote, |vals|)
    requires remote.fnID in s.nonces && Plausible(verdict, remote, CurrentOf(s, remote.fnID))
    ensures SameElsewhere(s, ActOn(s, remote, vals, verdict).0, remote.fnID)
  {
  }

  lemma ActingSizes(s: State, remote: VoteSet, vals: Validators, verdict: Verdict, n: nat)
    requires Shapely(s) && Shaped(remote, |vals|) && AtMost(s, remote.fnID, n) && |vals| <= n
    requires remote.fnID in s.nonces && Plausible(verdict, remote, CurrentOf(s, remote.fnID))
    ensures AtMost(ActOn(s, remote, vals, verdict).0, remote.fnID, n)
  {
  }

  lemma SizesStay(cfg: Config, s: State, remote: VoteSet, vals: Validators,
                  resp: Option<Individual>, signature: Option<Bytes>, n: nat)
    requires Shapely(s) && AtMost(s, remote.fnID, n) && |vals| <= n
    ensures AtMost(VoteSetStep(cfg, s, remote, vals, resp, signature).0, remote.fnID, n)
  {
    if IsValid(cfg, remote, vals) {
      var f, u := remote.fnID, WithNonce(s, remote.fnID);
      if u.nonces[f] <= remote.nonce {
        ActingSizes(u, remote, vals, Compare(cfg, remote, CurrentOf(u, f), u.nonces[f], vals), n);
      }
    }
  }

  lemma ChatterStep(cfg: Config, s: State, i: Input, t: State, f: string, n: nat)
    requires Binding(cfg.codec) && Inv(cfg, s) && Hears(cfg, s, i, t, n) && AtMost(s, f, n)
    ensures Inv(cfg, t) && AtMost(t, f, n) && Eff(t, f) >= Eff(s, f)
    ensures Eff(t, f) == Eff(s, f) ==> Rank(t, f) >= Rank(s, f) + Echo(cfg, s, i, f)
  {
    VoteSetKeepsInv(cfg, s, i.remote, i.vals, i.resp, i.signature);
    if i.remote.fnID == f {
      SizesStay(cfg, s, i.remote, i.vals, i.resp, i.signature, n);
      RebroadcastProgress(cfg, s, i.remote, i.vals, i.resp, i.signature);
      VoteSetNonces(cfg, s, i.remote, i.vals, i.resp, i.signature, f);
    } else {
      OthersLeaveAlone(cfg, s, i.remote, i.vals, i.resp, i.signature);
    }
  }

  /** After k rebroadcasts of f since state s: while the nonce is the same, the rank has grown by k. */
  ghost predicate Counted(cfg: Config, s: State, t: State, f: string, n: nat, k: nat) {
    && Inv(cfg, t) && AtMost(t, f, n) && Eff(t, f) >= Eff(s, f)
    && (Eff(t, f) == Eff(s, f) ==> k + Rank(s, f) <= Rank(t, f))
  }

  lemma CountedNext(cfg: Config, s: State, t: State, i: Input, u: State, f: string, n: nat, k: nat)
    requires Binding(cfg.codec) && Counted(cfg, s, t, f, n, k) && Hears(cfg, t, i, u, n)
    ensures Counted(cfg, s, u, f, n, k + Echo(cfg, t, i, f))
  {
    ChatterStep(cfg, t, i, u, f, n);
  }

  lemma HeardAt(cfg: Config, ss: seq<State>, ins: seq<Input>, f: string, n: nat, j: nat)
    requires Chatter(cfg, ss, ins, f, n) && j < |ins|
    ensures Hears(cfg, ss[j], ins[j], ss[j + 1], n)
  {
    assert ChatterAt(cfg, ss, ins, n, j);
  }

  lemma {:induction false} ChatterCount(cfg: Config, ss: seq<State>, ins: seq<Input>, f: string, n: nat, m: nat)
    requires Binding(cfg.codec) && Chatter(cfg, ss, ins, f, n) && m <= |ins|
    ensures Counted(cfg, ss[0], ss[m], f, n, Rebroadcasts(cfg, ss, ins, f, m))
  {
    if m == 0 {
      assert Counted(cfg, ss[0], ss[0], f, n, 0);
    } else {
      var j := m - 1;
      ChatterCount(cfg, ss, ins, f, n, j);
      HeardAt(cfg, ss, ins, f, n, j);
      var k := Rebroadcasts(cfg, ss, ins, f, j);
      assert Rebroadcasts(cfg, ss, ins, f, m) == k + Echo(cfg, ss[j], ins[j], f);
      CountedNext(cfg, ss[0], ss[j], ins[j], ss[m], f, n, k);
    }
  }

  /** With n validators a node rebroadcasts a function's vote set at most n + 1 times per nonce, whatever
      messages about other functions arrive in between. */
  lemma GossipTerminates(cfg: Config, ss: seq<State>, ins: seq<Input>, f: string, n: nat)
    requires Binding(cfg.codec) && Chatter(cfg, ss, ins, f, n) && Eff(ss[|ins|], f) == Eff(ss[0], f)
    ensures Rebroadcasts(cfg, ss, ins, f, |ins|) <= n + 1
  {
    ChatterCount(cfg, ss, ins, f, n, |ins|);
  }
}

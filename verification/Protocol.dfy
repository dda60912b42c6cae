/** The steps of the function consensus reactor as functions of its state. */
module Protocol {
  import opened Basics
  import opened Tally
  import opened VoteSets
  import opened Majority
  import opened Persistence

  /** What a step does besides changing the state: whether it broadcasts, submits, writes to disk. */
  datatype Out = Out(broadcasts: bool, submits: bool, saves: bool)

  const NOTHING: Out := Out(false, false, false)

  /** The outcome when saving may fail: nothing is written then, and a broadcast that comes after the save
      does not happen. */
  function AfterSave(out: Out, marshals: bool, broadcastsFirst: bool): Out {
    if !out.saves || marshals then out else Out(out.broadcasts && broadcastsFirst, out.submits, false)
  }

  /** A function's nonce: the stored one, or 1 when none is stored. */
  function Eff(s: State, f: string): int { if f in s.nonces then s.nonces[f] else 1 }

  /** The stored nonce read as Go reads a missing map entry. */
  function Stored(s: State, f: string): int { if f in s.nonces then s.nonces[f] else 0 }

  /** Index of the validator with this address, -1 when there is none. */
  function IndexOf(vals: Validators, address: Bytes): (i: int)
    ensures -1 <= i < |vals|
    ensures i >= 0 ==> vals[i].address == address
    ensures forall j :: 0 <= j < (if i >= 0 then i else |vals|) ==> vals[j].address != address
  {
    IndexFrom(vals, address, 0)
  }

  function IndexFrom(vals: Validators, address: Bytes, n: nat): (i: int)
    requires n <= |vals|
    ensures i == -1 || n <= i < |vals|
    ensures i >= 0 ==> vals[i].address == address
    ensures forall j :: n <= j < (if i >= 0 then i else |vals|) ==> vals[j].address != address
    decreases |vals| - n
  {
    if n == |vals| then -1 else if vals[n].address == address then n else IndexFrom(vals, address, n + 1)
  }

  predicate Shapely(s: State) { forall f :: f in s.current ==> Shaped(s.current[f], |s.current[f].bits|) }

  // ---- vote ----

  /** Casting this node's own vote. `resp` is what the function returns, None when it fails. */
  ghost function VoteStep(cfg: Config, s: State, f: string, vals: Validators, resp: Option<Individual>,
                          signature: Option<Bytes>): (State, Out)
    requires WellFormed(vals)
  {
    var k := IndexOf(vals, cfg.ownAddress);
    if k < 0 || resp.None? || f !in cfg.registry then (s, NOTHING)
    else
      var v := NewVoteSet(cfg, Eff(s, f), f, resp.value, vals, k, signature);
      if v.None? then (s, NOTHING)
      else if MajResponse(v.value.response, cfg.threshold, vals).Some? then (s, Out(false, true, false))
      else (s.(current := s.current[f := v.value]), Out(true, false, true))
  }

  // ---- commit ----

  predicate CommitAdvances(cfg: Config, s: State, f: string, vals: Validators) {
    && f in cfg.registry && f in s.current
    && IsValid(cfg, s.current[f], vals) && HasConverged(s.current[f], cfg.threshold, vals)
  }

  /** Whether the validator at index own submits the majority message of v. */
  ghost predicate Submits(cfg: Config, v: VoteSet, vals: Validators, nonce: int, own: int)
    requires WellFormed(vals) && Shaped(v, |vals|)
  {
    var m := MajResponse(v.response, cfg.threshold, vals);
    && own >= 0 && m.Some?
    && (MajorityCounts(v.response, cfg.threshold, vals); IsSubmitter(m.value.bits, nonce, own))
  }

  /** The divisor of the submitter test is never zero. */
  lemma MajorityCounts(r: Response, threshold: Threshold, vals: Validators)
    requires WellFormed(vals) && ResponseShaped(r, |vals|) && MajResponse(r, threshold, vals).Some?
    ensures var bits := MajResponse(r, threshold, vals).value.bits; Count(bits, |bits|) > 0
  {
    var i := ExactlyOneSubmitter(r, threshold, vals, 0);
  }

  ghost function CommitStep(cfg: Config, s: State, f: string, vals: Validators): (State, Out)
    requires WellFormed(vals) && IsInt64(Stored(s, f))
  {
    if f !in cfg.registry || f !in s.current then (s, NOTHING)
    else
      var v := s.current[f];
      if !IsValid(cfg, v, vals) then (s.(current := s.current - {f}), Out(false, false, true))
      else if !HasConverged(v, cfg.threshold, vals) then (s, Out(f in s.prevMaj, false, true))
      else
        (s.(nonces := s.nonces[f := Inc64(Stored(s, f))], prevVals := Some(vals),
            prevMaj := s.prevMaj[f := v], current := s.current - {f}),
         Out(false, Submits(cfg, v, vals, Stored(s, f), IndexOf(vals, cfg.ownAddress)), true))
  }

  // ---- majority message ----

  /** The validator set a majority message is checked against: the current one, else the previous. */
  function SignedBy(cfg: Config, s: State, remote: VoteSet, vals: Validators): Option<Validators> {
    if IsValid(cfg, remote, vals) then Some(vals)
    else if s.prevVals.Some? && IsValid(cfg, remote, s.prevVals.value) then s.prevVals
    else None
  }

  predicate MajAccepted(cfg: Config, s: State, remote: VoteSet, vals: Validators) {
    var signers := SignedBy(cfg, s, remote, vals);
    signers.Some? && HasConverged(remote, cfg.threshold, signers.value)
  }

  predicate MajAdvances(cfg: Config, s: State, remote: VoteSet, vals: Validators) {
    MajAccepted(cfg, s, remote, vals) && remote.nonce >= Eff(s, remote.fnID)
  }

  function MajStep(cfg: Config, s: State, remote: VoteSet, vals: Validators): (State, Out)
    requires IsInt64(remote.nonce)
  {
    var f, signers := remote.fnID, SignedBy(cfg, s, remote, vals);
    if !MajAccepted(cfg, s, remote, vals) then (s, NOTHING)
    else if remote.nonce < Eff(s, f) then
      if remote.nonce == Eff(s, f) - 1 && f !in s.prevMaj then
        (s.(prevMaj := s.prevMaj[f := remote], prevVals := signers), Out(false, false, true))
      else (s, Out(false, false, true))
    else
      (s.(prevMaj := s.prevMaj[f := remote], prevVals := signers, nonces := s.nonces[f := Inc64(remote.nonce)],
          current := s.current - {f}),
       Out(true, false, true))
  }

  // ---- vote set message ----

  /** Merge, replace our vote set, keep it, or stop at an index out of range. */
  datatype Verdict = Same | Replace | Keep | Abort

  predicate Plausible(r: Verdict, remote: VoteSet, cur: Option<VoteSet>) {
    r == Same <==> cur.Some? && cur.value.nonce == remote.nonce
  }

  function NumberOfVotes(v: VoteSet): nat { Count(v.bits, |v.bits|) }

  /** Which of the two sets to trust. Sets with one nonce are always merged, never replaced. */
  ghost function Compare(cfg: Config, remote: VoteSet, cur: Option<VoteSet>, nonce: int, vals: Validators): (r: Verdict)
    requires Shaped(remote, |vals|) && (cur.Some? ==> Shaped(cur.value, |cur.value.bits|))
    ensures Plausible(r, remote, cur)
  {
    var remoteConverged := HasConverged(remote, cfg.threshold, vals);
    if cur.None? then if nonce == remote.nonce || remoteConverged then Replace else Keep
    else if cur.value.nonce == remote.nonce then Same
    else if !HasConverged(cur.value, cfg.threshold, vals) then if remoteConverged then Replace else Keep
    else if !remoteConverged then Keep
    else if NumberOfVotes(remote) != NumberOfVotes(cur.value) then
      if NumberOfVotes(remote) > NumberOfVotes(cur.value) then Replace else Keep
    else if MajPanics(cur.value.response, vals) then Abort
    else
      var theirs := MajResponse(remote.response, cfg.threshold, vals);
      var ours := MajResponse(cur.value.response, cfg.threshold, vals);
      if theirs.Some? && (ours.None? ||
         Count(theirs.value.bits, |theirs.value.bits|) > Count(ours.value.bits, |ours.value.bits|))
      then Replace else Keep
  }

  /** Our vote set for the message's function, before any change. */
  function CurrentOf(s: State, f: string): Option<VoteSet> {
    if f in s.current then Some(s.current[f]) else None
  }

  /** The nonce entry is created when it is missing. */
  function WithNonce(s: State, f: string): State {
    if f in s.nonces then s else s.(nonces := s.nonces[f := 1])
  }

  /** Acting on a verdict: the new state and whether our set changed, None when the handler returns. */
  ghost function ActOn(s: State, remote: VoteSet, vals: Validators, verdict: Verdict): (r: (State, Option<bool>))
    requires Shapely(s) && Shaped(remote, |vals|) && Plausible(verdict, remote, CurrentOf(s, remote.fnID))
    requires remote.fnID in s.nonces
    ensures Shapely(r.0) && (r.1.Some? ==> remote.fnID in r.0.current && remote.fnID in r.0.nonces)
  {
    var f := remote.fnID;
    var cur := CurrentOf(s, f);
    match verdict
    case Abort => (s, None)
    case Keep => (s, if cur.None? then None else Some(false))
    case Replace => (s.(current := s.current[f := remote], nonces := s.nonces[f := remote.nonce]), Some(true))
    case Same =>
      if !CanonicalCompare(cur.value, remote) then (s, None)
      else (s.(current := s.current[f := Merge(vals, cur.value, remote)]), Some(MergeChanges(cur.value, remote)))
  }

  /** Merging or replacing; None when the handler returns early. The flag says our set changed. */
  ghost function Absorb(cfg: Config, s: State, remote: VoteSet, vals: Validators): (r: (State, Option<bool>))
    requires Shapely(s) && Shaped(remote, |vals|)
    ensures Shapely(r.0) && (r.1.Some? ==> remote.fnID in r.0.current && remote.fnID in r.0.nonces)
  {
    var t := WithNonce(s, remote.fnID);
    var n := t.nonces[remote.fnID];
    if n > remote.nonce then (t, None)
    else ActOn(t, remote, vals, Compare(cfg, remote, CurrentOf(t, remote.fnID), n, vals))
  }

  /** Adding our own vote when it is missing, and deciding to broadcast. */
  function Contribute(cfg: Config, s: State, f: string, changed: bool, vals: Validators,
                      resp: Option<Individual>, signature: Option<Bytes>): (State, Out)
    requires Shapely(s) && f in s.current && f in s.nonces
  {
    var v, own := s.current[f], IndexOf(vals, cfg.ownAddress);
    if own < 0 || (own < |v.bits| && v.bits[own]) then (s, Out(changed, false, false))
    else if resp.None? || own >= |v.bits| then (s, NOTHING)
    else
      var (w, ok) := AddVote(v, s.nonces[f], resp.value, vals, own, signature);
      (s.(current := s.current[f := w]), Out(ok, false, false))
  }

  ghost function VoteSetStep(cfg: Config, s: State, remote: VoteSet, vals: Validators,
                             resp: Option<Individual>, signature: Option<Bytes>): (State, Out)
    requires Shapely(s)
  {
    if !IsValid(cfg, remote, vals) then (s, NOTHING)
    else
      var (t, changed) := Absorb(cfg, s, remote, vals);
      if changed.None? then (t, NOTHING)
      else Contribute(cfg, t, remote.fnID, changed.value, vals, resp, signature)
  }

  // ---- the node ----

  datatype Node = Node(state: State, disk: Option<Image>)

  datatype Input =
    | DoVote(f: string, vals: Validators, resp: Option<Individual>, signature: Option<Bytes>, marshals: bool)
    | DoCommit(f: string, vals: Validators, marshals: bool)
    | VoteSetMsg(remote: VoteSet, vals: Validators, resp: Option<Individual>, signature: Option<Bytes>)
    | MajMsg(remote: VoteSet, vals: Validators, marshals: bool)
    | Restart

  /** Validator sets are Tendermint's and a decoded nonce is an int64. */
  predicate InputOk(i: Input) {
    && (!i.Restart? ==> WellFormed(i.vals))
    && (i.VoteSetMsg? || i.MajMsg? ==> IsInt64(i.remote.nonce))
  }

  predicate Steppable(s: State) { Shapely(s) && forall f :: f in s.nonces ==> IsInt64(s.nonces[f]) }

  ghost function Step(cfg: Config, s: State, i: Input): (State, Out)
    requires InputOk(i) && Steppable(s) && !i.Restart?
  {
    match i
    case DoVote(f, vals, resp, signature, marshals) =>
      var (t, out) := VoteStep(cfg, s, f, vals, resp, signature);
      (t, AfterSave(out, marshals, false))
    case DoCommit(f, vals, marshals) =>
      var (t, out) := CommitStep(cfg, s, f, vals);
      (t, AfterSave(out, marshals, true))
    case VoteSetMsg(remote, vals, resp, signature) => VoteSetStep(cfg, s, remote, vals, resp, signature)
    case MajMsg(remote, vals, marshals) =>
      var (t, out) := MajStep(cfg, s, remote, vals);
      (t, AfterSave(out, marshals, false))
  }

  function Load(disk: Option<Image>): State { if disk.None? then EMPTY_STATE else Rebuild(disk.value) }

  /** One step of a node. A step that saves leaves a flattening of its state on disk; a restart loads the
      last saved state. */
  ghost predicate Next(cfg: Config, a: Node, i: Input, b: Node)
    requires InputOk(i) && Steppable(a.state)
  {
    if i.Restart? then b == Node(Load(a.disk), a.disk)
    else
      var (s, out) := Step(cfg, a.state, i);
      && b.state == s
      && if out.saves then b.disk.Some? && Flattens(s, b.disk.value) else b.disk == a.disk
  }
}

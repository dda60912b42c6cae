/** The vote sets of the function consensus protocol: their value, when a node accepts one, and the
    in-place operations on them. */
module VoteSets {
  import opened Basics
  import opened Tally

  datatype Threshold = Maj23 | All

  /** The encoders, the signature check and the hashes the protocol uses but does not define. */
  datatype Codec = Codec(
    signPrefix: (int, string, Bytes) -> Bytes,
    marshalRequest: string -> Bytes,
    marshalResponse: (Bytes, Bytes) -> Bytes,
    verify: (Bytes, Bytes, Bytes) -> bool,
    addressOf: Bytes -> Bytes,
    validatorsHash: Validators -> Bytes)

  /** A node's fixed configuration. */
  datatype Config = Config(codec: Codec, chainID: string, registry: set<string>, threshold: Threshold,
                           ownAddress: Bytes)

  datatype Response = Response(hashes: seq<Option<Bytes>>, bits: seq<bool>,
                               oracleSignatures: seq<Option<Bytes>>)

  datatype VoteSet = VoteSet(nonce: int, validatorsHash: Bytes, chainID: string, totalVotingPower: int,
                             bits: seq<bool>, fnID: string, response: Response,
                             signatures: seq<Option<Bytes>>, addresses: seq<Bytes>)

  /** All arrays of a response have length n. */
  predicate ResponseShaped(r: Response, n: nat) { |r.hashes| == |r.bits| == |r.oracleSignatures| == n }

  /** All arrays of a vote set have length n, so no operation indexes out of range. */
  predicate Shaped(v: VoteSet, n: nat) {
    |v.bits| == |v.signatures| == |v.addresses| == n && ResponseShaped(v.response, n)
  }

  predicate Reaches(threshold: Threshold, power: int, total: int) {
    match threshold
    case Maj23 => power >= total * 2 / 3 + 1
    case All => power == total
  }

  predicate HasConverged(v: VoteSet, threshold: Threshold, vals: Validators) {
    Reaches(threshold, v.totalVotingPower, Total(vals))
  }

  const SEPARATOR: Bytes := [17, 19, 23, 29]

  function SignBytes(codec: Codec, v: VoteSet, i: nat): Bytes
    requires i < |v.addresses| && i < |v.response.hashes| && i < |v.response.oracleSignatures|
  {
    codec.signPrefix(v.nonce, v.chainID, v.addresses[i]) + SEPARATOR + v.validatorsHash + SEPARATOR
    + (codec.marshalRequest(v.fnID) + [0x50]
       + codec.marshalResponse(Raw(v.response.hashes[i]), Raw(v.response.oracleSignatures[i])))
  }

  predicate ResponseValid(r: Response, vals: Validators) {
    && ResponseShaped(r, |vals|)
    && forall i :: 0 <= i < |vals| ==>
      r.oracleSignatures[i].Some? == r.bits[i] && r.oracleSignatures[i].Some? == r.hashes[i].Some?
  }

  /** Validator i's entry: its address, its two bits and, if it voted, its signature. */
  predicate EntryValid(codec: Codec, v: VoteSet, vals: Validators, i: nat)
    requires Shaped(v, |vals|) && i < |vals|
  {
    && v.addresses[i] == vals[i].address
    && v.bits[i] == v.response.bits[i]
    && (v.bits[i] ==>
          && v.response.oracleSignatures[i].Some?
          && codec.addressOf(vals[i].pubKey) == v.addresses[i]
          && codec.verify(vals[i].pubKey, SignBytes(codec, v, i), Raw(v.signatures[i])))
  }

  predicate HeaderValid(cfg: Config, v: VoteSet, vals: Validators) {
    && Shaped(v, |vals|)
    && ResponseValid(v.response, vals)
    && v.fnID in cfg.registry
    && v.chainID == cfg.chainID
    && v.validatorsHash == cfg.codec.validatorsHash(vals)
  }

  /** The whole acceptance test for a vote set. */
  predicate IsValid(cfg: Config, v: VoteSet, vals: Validators) {
    && HeaderValid(cfg, v, vals)
    && (forall i :: 0 <= i < |vals| ==> EntryValid(cfg.codec, v, vals, i))
    && v.totalVotingPower == Power(vals, v.bits, |vals|)
  }

  predicate ResponseComparable(a: Response, b: Response) {
    |a.hashes| == |b.hashes| && |a.bits| == |b.bits| && |a.oracleSignatures| == |b.oracleSignatures|
  }

  predicate CanonicalCompare(a: VoteSet, b: VoteSet) {
    && a.nonce == b.nonce && a.chainID == b.chainID && a.validatorsHash == b.validatorsHash
    && a.fnID == b.fnID && ResponseComparable(a.response, b.response)
    && |a.signatures| == |b.signatures|
    && a.addresses == b.addresses
  }

  /** Entry by entry: mine where I have voted or the other has not, otherwise the other's. */
  function Pick<T>(mine: seq<bool>, theirs: seq<bool>, a: seq<T>, b: seq<T>): seq<T>
    requires |mine| == |theirs| == |a| == |b|
  {
    seq(|a|, i requires 0 <= i < |a| => if mine[i] || !theirs[i] then a[i] else b[i])
  }

  function MergeResponses(a: Response, b: Response): Response
    requires ResponseShaped(a, |a.bits|) && ResponseShaped(b, |a.bits|)
  {
    Response(Pick(a.bits, b.bits, a.hashes, b.hashes), Union(a.bits, b.bits),
             Pick(a.bits, b.bits, a.oracleSignatures, b.oracleSignatures))
  }

  /** The join of two vote sets with equal headers. */
  function Join(vals: Validators, a: VoteSet, b: VoteSet): VoteSet
    requires Shaped(a, |a.bits|) && Shaped(b, |a.bits|) && |vals| == |a.bits|
  {
    a.(totalVotingPower := a.totalVotingPower + Power(vals, Gain(a.bits, b.bits), |vals|),
       bits := Union(a.bits, b.bits),
       response := MergeResponses(a.response, b.response),
       signatures := Pick(a.bits, b.bits, a.signatures, b.signatures))
  }

  /** Merging: nothing happens when the headers differ. */
  function Merge(vals: Validators, a: VoteSet, b: VoteSet): VoteSet
    requires Shaped(a, |a.bits|) && Shaped(b, |vals|)
  {
    if CanonicalCompare(a, b) then Join(vals, a, b) else a
  }

  /** Something new arrived: a vote, or a response entry. */
  ghost predicate MergeChanges(a: VoteSet, b: VoteSet)
    requires Shaped(a, |a.bits|) && Shaped(b, |a.bits|)
  {
    exists i :: 0 <= i < |a.bits| && (Gain(a.bits, b.bits)[i] || Gain(a.response.bits, b.response.bits)[i])
  }

  /** What a validator adds: its message hash and its oracle signature, which may be nil. */
  datatype Individual = Individual(hash: Option<Bytes>, oracleSignature: Option<Bytes>)

  function WithResponse(v: VoteSet, resp: Individual, k: nat): VoteSet
    requires Shaped(v, |v.bits|) && k < |v.bits|
  {
    v.(response := Response(v.response.hashes[k := resp.hash], v.response.bits[k := true],
                            v.response.oracleSignatures[k := resp.oracleSignature]))
  }

  function WithSignature(v: VoteSet, signature: Bytes, k: nat): VoteSet
    requires Shaped(v, |v.bits|) && k < |v.bits|
  {
    v.(bits := v.bits[k := true], signatures := v.signatures[k := Some(signature)])
  }

  /** The vote set after an attempt to add a vote, and whether it succeeded. A failed attempt may have
      written the response entry, or all but the power, before it failed. `signature` is what the
      private validator returns for the sign bytes, None when it fails. */
  function AddVote(v: VoteSet, nonce: int, resp: Individual, vals: Validators, k: nat,
                   signature: Option<Bytes>): (r: (VoteSet, bool))
    requires Shaped(v, |v.bits|) && k < |v.bits|
    ensures Shaped(r.0, |v.bits|)
    ensures r.1 ==> !v.bits[k] && r.0.bits == v.bits[k := true]
  {
    if v.nonce != nonce || v.bits[k] || v.response.bits[k] then (v, false)
    else
      var w := WithResponse(v, resp, k);
      if signature.None? then (w, false)
      else
        var x := WithSignature(w, signature.value, k);
        if k >= |vals| || vals[k].address != x.addresses[k] then (x, false)
        else (x.(totalVotingPower := x.totalVotingPower + vals[k].power), true)
  }

  /** The vote set holding only validator k's vote, before it is signed. */
  function Unsigned(cfg: Config, nonce: int, fnID: string, resp: Individual, vals: Validators, k: nat): VoteSet
    requires k < |vals|
  {
    VoteSet(nonce, cfg.codec.validatorsHash(vals), cfg.chainID, vals[k].power,
            seq(|vals|, i => i == k), fnID,
            Response(seq(|vals|, i => if i == k then resp.hash else None), seq(|vals|, i => i == k),
                     seq(|vals|, i => if i == k then resp.oracleSignature else None)),
            seq(|vals|, i => None),
            seq(|vals|, i requires 0 <= i < |vals| => vals[i].address))
  }

  /** A fresh vote set with one signed vote, or nil when the payload is malformed, the index carries no
      power or signing fails. */
  function NewVoteSet(cfg: Config, nonce: int, fnID: string, resp: Individual, vals: Validators, k: nat,
                      signature: Option<Bytes>): (r: Option<VoteSet>)
    requires k < |vals|
    ensures r.Some? ==> Shaped(r.value, |vals|) && r.value.fnID == fnID && r.value.nonce == nonce
  {
    var v := Unsigned(cfg, nonce, fnID, resp, vals, k);
    if !ResponseValid(v.response, vals) || v.totalVotingPower == 0 || signature.None? then None
    else Some(v.(signatures := v.signatures[k := signature]))
  }

  // ---- Validity is kept by every operation of the protocol ----

  /** An entry stays valid in any vote set that has the same header and the same entry. */
  lemma EntryTransfers(codec: Codec, v: VoteSet, w: VoteSet, vals: Validators, i: nat)
    requires Shaped(v, |vals|) && Shaped(w, |vals|) && i < |vals| && EntryValid(codec, v, vals, i)
    requires w.nonce == v.nonce && w.chainID == v.chainID && w.validatorsHash == v.validatorsHash
    requires w.fnID == v.fnID && w.addresses[i] == v.addresses[i]
    requires w.bits[i] == v.bits[i] && w.response.bits[i] == v.response.bits[i]
    requires w.signatures[i] == v.signatures[i] && w.response.hashes[i] == v.response.hashes[i]
    requires w.response.oracleSignatures[i] == v.response.oracleSignatures[i]
    ensures EntryValid(codec, w, vals, i)
  {
    assert SignBytes(codec, w, i) == SignBytes(codec, v, i);
  }

  /** Merging two vote sets valid for one validator set gives a valid vote set: both bit arrays in
      lockstep, every signature over the merged set's own sign bytes, the power counted once. */
  lemma MergeKeepsValid(cfg: Config, vals: Validators, a: VoteSet, b: VoteSet)
    requires IsValid(cfg, a, vals) && IsValid(cfg, b, vals)
    ensures IsValid(cfg, Merge(vals, a, b), vals)
    ensures CanonicalCompare(a, b) ==> Merge(vals, a, b).bits == Union(a.bits, b.bits)
    ensures !CanonicalCompare(a, b) ==> Merge(vals, a, b) == a
  {
    if CanonicalCompare(a, b) {
      var m := Join(vals, a, b);
      forall i | 0 <= i < |vals| ensures EntryValid(cfg.codec, m, vals, i) {
        assert EntryValid(cfg.codec, a, vals, i) && EntryValid(cfg.codec, b, vals, i);
        if a.bits[i] || !b.bits[i] {
          EntryTransfers(cfg.codec, a, m, vals, i);
        } else {
          EntryTransfers(cfg.codec, b, m, vals, i);
        }
      }
      MergedResponseValid(a.response, b.response, vals);
      InclusionExclusion(vals, a.bits, b.bits, |vals|);
    }
  }

  lemma MergedResponseValid(a: Response, b: Response, vals: Validators)
    requires ResponseValid(a, vals) && ResponseValid(b, vals)
    ensures ResponseValid(MergeResponses(a, b), vals)
  {
    var m := MergeResponses(a, b);
    forall i | 0 <= i < |vals|
      ensures m.oracleSignatures[i].Some? == m.bits[i] && m.oracleSignatures[i].Some? == m.hashes[i].Some?
    {
      assert a.oracleSignatures[i].Some? == a.bits[i] && b.oracleSignatures[i].Some? == b.bits[i];
    }
  }

  /** A successful AddVote with a hash and an oracle signature, signed by the key at that index, keeps
      the vote set valid. */
  lemma AddVoteKeepsValid(cfg: Config, v: VoteSet, nonce: int, resp: Individual, vals: Validators, k: nat,
                          signature: Bytes)
    requires IsValid(cfg, v, vals) && k < |vals|
    requires resp.hash.Some? && resp.oracleSignature.Some?
    requires cfg.codec.addressOf(vals[k].pubKey) == vals[k].address
    requires cfg.codec.verify(vals[k].pubKey, SignBytes(cfg.codec, WithResponse(v, resp, k), k), signature)
    ensures AddVote(v, nonce, resp, vals, k, Some(signature)).1 <==> nonce == v.nonce && !v.bits[k]
    ensures AddVote(v, nonce, resp, vals, k, Some(signature)).1 ==>
              IsValid(cfg, AddVote(v, nonce, resp, vals, k, Some(signature)).0, vals)
  {
    assert EntryValid(cfg.codec, v, vals, k);
    var (w, ok) := AddVote(v, nonce, resp, vals, k, Some(signature));
    if ok {
      forall i | 0 <= i < |vals| ensures EntryValid(cfg.codec, w, vals, i) {
        assert EntryValid(cfg.codec, v, vals, i);
        if i == k {
          assert SignBytes(cfg.codec, w, k) == SignBytes(cfg.codec, WithResponse(v, resp, k), k);
        } else {
          EntryTransfers(cfg.codec, v, w, vals, i);
        }
      }
      PowerSetBit(vals, v.bits, k, |vals|);
    }
  }

  /** A fresh vote set signed by the key at its index is valid. */
  lemma NewVoteSetValid(cfg: Config, nonce: int, fnID: string, resp: Individual, vals: Validators, k: nat,
                        signature: Bytes)
    requires WellFormed(vals) && k < |vals| && fnID in cfg.registry
    requires cfg.codec.addressOf(vals[k].pubKey) == vals[k].address
    requires cfg.codec.verify(vals[k].pubKey,
               SignBytes(cfg.codec, Unsigned(cfg, nonce, fnID, resp, vals, k), k), signature)
    ensures var r := NewVoteSet(cfg, nonce, fnID, resp, vals, k, Some(signature));
            && (r.Some? <==> resp.hash.Some? && resp.oracleSignature.Some?)
            && (r.Some? ==> IsValid(cfg, r.value, vals))
  {
    var u := Unsigned(cfg, nonce, fnID, resp, vals, k);
    assert u.response.bits[k];
    assert ResponseValid(u.response, vals) <==> resp.hash.Some? && resp.oracleSignature.Some?;
    SinglePower(vals, u.bits, k, |vals|);
    if resp.hash.Some? && resp.oracleSignature.Some? {
      var v := u.(signatures := u.signatures[k := Some(signature)]);
      assert SignBytes(cfg.codec, v, k) == SignBytes(cfg.codec, u, k);
      assert forall i :: 0 <= i < |vals| ==> EntryValid(cfg.codec, v, vals, i);
    }
  }

  /** One voter holds exactly its own power. */
  lemma {:induction false} SinglePower(vals: Validators, bits: seq<bool>, k: nat, n: nat)
    requires n <= |vals| && n <= |bits|
    requires forall i :: 0 <= i < n ==> bits[i] == (i == k)
    ensures Power(vals, bits, n) == if k < n then vals[k].power else 0
  {
    if n > 0 { SinglePower(vals, bits, k, n - 1); }
  }

  // ---- what a vote binds, and what the acceptance test refuses ----

  /** The four parts of the sign bytes. */
  function PrefixPart(codec: Codec, v: VoteSet, i: nat): Bytes
    requires i < |v.addresses|
  { codec.signPrefix(v.nonce, v.chainID, v.addresses[i]) }

  function ResponsePart(codec: Codec, v: VoteSet, i: nat): Bytes
    requires i < |v.response.hashes| && i < |v.response.oracleSignatures|
  { codec.marshalResponse(Raw(v.response.hashes[i]), Raw(v.response.oracleSignatures[i])) }

  lemma MiddleDiffers(a: Bytes, x: Bytes, y: Bytes, b: Bytes)
    ensures a + x + b == a + y + b <==> x == y
  {
    var p, q := a + x + b, a + y + b;
    if p == q {
      assert |x| == |y|;
      assert p[|a|..|a| + |x|] == x && q[|a|..|a| + |y|] == y;
    }
  }

  /** A signature binds the nonce, the chain, the address, the validator set, the function and the
      response: vote sets whose encodings differ in one of these have different sign bytes. */
  lemma SignBytesBind(codec: Codec, v: VoteSet, w: VoteSet, n: nat, i: nat)
    requires Shaped(v, n) && Shaped(w, n) && i < n
    ensures v.validatorsHash == w.validatorsHash && v.fnID == w.fnID
            && ResponsePart(codec, v, i) == ResponsePart(codec, w, i) ==>
      (SignBytes(codec, v, i) == SignBytes(codec, w, i) <==>
         codec.signPrefix(v.nonce, v.chainID, v.addresses[i]) == codec.signPrefix(w.nonce, w.chainID, w.addresses[i]))
    ensures PrefixPart(codec, v, i) == PrefixPart(codec, w, i) && v.fnID == w.fnID
            && ResponsePart(codec, v, i) == ResponsePart(codec, w, i) ==>
      (SignBytes(codec, v, i) == SignBytes(codec, w, i) <==> v.validatorsHash == w.validatorsHash)
    ensures PrefixPart(codec, v, i) == PrefixPart(codec, w, i) && v.validatorsHash == w.validatorsHash
            && ResponsePart(codec, v, i) == ResponsePart(codec, w, i) ==>
      (SignBytes(codec, v, i) == SignBytes(codec, w, i) <==>
         codec.marshalRequest(v.fnID) == codec.marshalRequest(w.fnID))
    ensures PrefixPart(codec, v, i) == PrefixPart(codec, w, i) && v.validatorsHash == w.validatorsHash
            && v.fnID == w.fnID ==>
      (SignBytes(codec, v, i) == SignBytes(codec, w, i) <==>
         codec.marshalResponse(Raw(v.response.hashes[i]), Raw(v.response.oracleSignatures[i])) ==
         codec.marshalResponse(Raw(w.response.hashes[i]), Raw(w.response.oracleSignatures[i])))
  {
    var p, q := PrefixPart(codec, v, i), PrefixPart(codec, w, i);
    var h, k := v.validatorsHash, w.validatorsHash;
    var f, g := codec.marshalRequest(v.fnID), codec.marshalRequest(w.fnID);
    var a, b := ResponsePart(codec, v, i), ResponsePart(codec, w, i);
    SignBytesParts(codec, v, n, i);
    SignBytesParts(codec, w, n, i);
    var t := SEPARATOR + h + SEPARATOR + f + [0x50] + a;
    MiddleDiffers([], p, q, t);
    MiddleDiffers(p + SEPARATOR, h, k, SEPARATOR + f + [0x50] + a);
    MiddleDiffers(p + SEPARATOR + h + SEPARATOR, f, g, [0x50] + a);
    MiddleDiffers(p + SEPARATOR + h + SEPARATOR + f + [0x50], a, b, []);
  }

  lemma SignBytesParts(codec: Codec, v: VoteSet, n: nat, i: nat)
    requires Shaped(v, n) && i < n
    ensures var p, h := PrefixPart(codec, v, i), v.validatorsHash;
      var f, a := codec.marshalRequest(v.fnID), ResponsePart(codec, v, i);
      && SignBytes(codec, v, i) == [] + p + (SEPARATOR + h + SEPARATOR + f + [0x50] + a)
      && SignBytes(codec, v, i) == (p + SEPARATOR) + h + (SEPARATOR + f + [0x50] + a)
      && SignBytes(codec, v, i) == (p + SEPARATOR + h + SEPARATOR) + f + ([0x50] + a)
      && SignBytes(codec, v, i) == (p + SEPARATOR + h + SEPARATOR + f + [0x50]) + a + []
  {
    var p, h := PrefixPart(codec, v, i), v.validatorsHash;
    var f, a := codec.marshalRequest(v.fnID), ResponsePart(codec, v, i);
    assert SignBytes(codec, v, i) == p + SEPARATOR + h + SEPARATOR + (f + [0x50] + a);
  }

  function WithAddress(v: VoteSet, i: nat, a: Bytes): VoteSet
    requires i < |v.addresses|
  { v.(addresses := v.addresses[i := a]) }

  /** The acceptance test is tight: changing any one field of an accepted vote set that it speaks about
      makes it refuse the set. */
  lemma TamperingIsRefused(cfg: Config, v: VoteSet, vals: Validators, i: nat)
    requires IsValid(cfg, v, vals) && i < |vals|
    ensures forall c :: c != v.chainID ==> !IsValid(cfg, v.(chainID := c), vals)
    ensures forall f :: f !in cfg.registry ==> !IsValid(cfg, v.(fnID := f), vals)
    ensures forall h :: h != v.validatorsHash ==> !IsValid(cfg, v.(validatorsHash := h), vals)
    ensures forall p :: p != v.totalVotingPower ==> !IsValid(cfg, v.(totalVotingPower := p), vals)
    ensures !IsValid(cfg, v.(bits := v.bits[i := !v.bits[i]]), vals)
    ensures forall a :: a != v.addresses[i] ==> !IsValid(cfg, WithAddress(v, i, a), vals)
    ensures v.bits[i] ==> cfg.codec.addressOf(vals[i].pubKey) == vals[i].address
    ensures v.bits[i] ==> forall g ::
      !cfg.codec.verify(vals[i].pubKey, SignBytes(cfg.codec, v, i), Raw(g)) ==>
        !IsValid(cfg, v.(signatures := v.signatures[i := g]), vals)
  {
    assert EntryValid(cfg.codec, v, vals, i);
    var w := v.(bits := v.bits[i := !v.bits[i]]);
    assert !(Shaped(w, |vals|) && EntryValid(cfg.codec, w, vals, i));
    forall a | a != v.addresses[i] ensures !IsValid(cfg, WithAddress(v, i, a), vals) {
      var x := WithAddress(v, i, a);
      assert !(Shaped(x, |vals|) && EntryValid(cfg.codec, x, vals, i));
    }
    forall g | v.bits[i] && !cfg.codec.verify(vals[i].pubKey, SignBytes(cfg.codec, v, i), Raw(g))
      ensures !IsValid(cfg, v.(signatures := v.signatures[i := g]), vals)
    {
      var x := v.(signatures := v.signatures[i := g]);
      assert SignBytes(cfg.codec, x, i) == SignBytes(cfg.codec, v, i);
      assert !(Shaped(x, |vals|) && EntryValid(cfg.codec, x, vals, i));
    }
  }

  /** So does removing a voter's hash or oracle signature, or clearing its response bit. */
  lemma PartialResponseIsRefused(cfg: Config, v: VoteSet, vals: Validators, i: nat)
    requires IsValid(cfg, v, vals) && i < |vals| && v.bits[i]
    ensures var r := v.response;
      && !IsValid(cfg, v.(response := r.(hashes := r.hashes[i := None])), vals)
      && !IsValid(cfg, v.(response := r.(oracleSignatures := r.oracleSignatures[i := None])), vals)
      && !IsValid(cfg, v.(response := r.(bits := r.bits[i := false])), vals)
  {
    assert EntryValid(cfg.codec, v, vals, i);
    var r := v.response;
    assert r.oracleSignatures[i].Some? == r.bits[i] && r.oracleSignatures[i].Some? == r.hashes[i].Some?;
    var x, y, z := r.(hashes := r.hashes[i := None]), r.(oracleSignatures := r.oracleSignatures[i := None]),
                   r.(bits := r.bits[i := false]);
    assert x.hashes[i].None? && y.oracleSignatures[i].None? && !z.bits[i];
    assert !ResponseValid(x, vals) && !ResponseValid(y, vals) && !ResponseValid(z, vals);
  }

  /** A recorded vote is what the validator answered: its hash, its oracle signature and its signature at
      its own index, and nothing else changes. */
  lemma VoteIsRecorded(v: VoteSet, nonce: int, resp: Individual, vals: Validators, k: nat, signature: Option<Bytes>)
    requires Shaped(v, |v.bits|) && k < |v.bits| && AddVote(v, nonce, resp, vals, k, signature).1
    ensures var w := AddVote(v, nonce, resp, vals, k, signature).0;
      && v.nonce == nonce && signature.Some? && w.bits[k] && w.response.bits[k] && w.signatures[k] == signature
      && w.response.hashes[k] == resp.hash && w.response.oracleSignatures[k] == resp.oracleSignature
      && w.totalVotingPower == v.totalVotingPower + vals[k].power
      && w.addresses == v.addresses && w.nonce == v.nonce && w.fnID == v.fnID
      && w.chainID == v.chainID && w.validatorsHash == v.validatorsHash
      && forall i :: 0 <= i < |v.bits| && i != k ==>
           && w.bits[i] == v.bits[i] && w.response.bits[i] == v.response.bits[i]
           && w.signatures[i] == v.signatures[i] && w.response.hashes[i] == v.response.hashes[i]
           && w.response.oracleSignatures[i] == v.response.oracleSignatures[i]
  {
  }

  /** A fresh vote set holds exactly one vote, which is what the validator answered. */
  lemma FreshVoteIsRecorded(cfg: Config, nonce: int, fnID: string, resp: Individual, vals: Validators, k: nat,
                            signature: Option<Bytes>)
    requires k < |vals| && NewVoteSet(cfg, nonce, fnID, resp, vals, k, signature).Some?
    ensures var v := NewVoteSet(cfg, nonce, fnID, resp, vals, k, signature).value;
      && v.nonce == nonce && v.fnID == fnID && v.chainID == cfg.chainID
      && v.validatorsHash == cfg.codec.validatorsHash(vals) && v.totalVotingPower == vals[k].power
      && signature.Some? && v.signatures[k] == signature
      && v.response.hashes[k] == resp.hash && v.response.oracleSignatures[k] == resp.oracleSignature
      && resp.hash.Some? && resp.oracleSignature.Some?
      && forall i :: 0 <= i < |vals| ==>
           && v.bits[i] == v.response.bits[i] == (i == k) && v.addresses[i] == vals[i].address
           && (i != k ==> v.response.hashes[i].None? && v.response.oracleSignatures[i].None? && v.signatures[i].None?)
  {
    var u := Unsigned(cfg, nonce, fnID, resp, vals, k);
    assert u.response.bits[k] && u.response.hashes[k] == resp.hash;
    assert u.response.oracleSignatures[k] == resp.oracleSignature;
  }

  // ---- a configuration under which concrete vote sets are easy to write down ----

  /** Every signature verifies and a key is its own address. */
  function LaxConfig(): Config {
    Config(Codec((n, c, a) => [], f => [], (h, o) => [], (k, b, g) => true, k => k, v => []), "", {""}, Maj23, [])
  }

  /** A vote set of this configuration: one signature for every vote, all other fields fixed. */
  function LaxVoteSet(nonce: int, r: Response, vals: Validators): VoteSet
    requires ResponseShaped(r, |vals|)
  {
    VoteSet(nonce, [], "", Power(vals, r.bits, |vals|), r.bits, "", r,
            seq(|vals|, i requires 0 <= i < |vals| => if r.bits[i] then Some([1]) else None),
            seq(|vals|, i requires 0 <= i < |vals| => vals[i].address))
  }

  lemma LaxVoteSetValid(nonce: int, r: Response, vals: Validators)
    requires ResponseValid(r, vals) && forall i :: 0 <= i < |vals| ==> vals[i].address == vals[i].pubKey
    ensures IsValid(LaxConfig(), LaxVoteSet(nonce, r, vals), vals)
  {
    var v := LaxVoteSet(nonce, r, vals);
    forall i | 0 <= i < |vals| ensures EntryValid(LaxConfig().codec, v, vals, i) {
      assert r.oracleSignatures[i].Some? == r.bits[i];
    }
  }
}

/** Gossip delivers vote sets in any order and more than once: what a node ends up with. */
module Gossip {
  import opened Basics
  import opened Tally
  import opened VoteSets

  /** Valid vote sets with equal headers. */
  ghost predicate Family(cfg: Config, vals: Validators, s: seq<VoteSet>) {
    && |s| > 0
    && (forall j :: 0 <= j < |s| ==> IsValid(cfg, s[j], vals))
    && (forall j :: 0 <= j < |s| ==> CanonicalCompare(s[0], s[j]))
  }

  /** Merging a sequence of vote sets, one after the other, into the first. */
  function Fold(vals: Validators, s: seq<VoteSet>): (f: VoteSet)
    requires |s| > 0 && forall j :: 0 <= j < |s| ==> Shaped(s[j], |vals|)
    ensures Shaped(f, |vals|)
  {
    if |s| == 1 then s[0] else Merge(vals, Fold(vals, s[..|s| - 1]), s[|s| - 1])
  }

  ghost predicate Voted(s: seq<VoteSet>, i: nat) {
    exists j :: 0 <= j < |s| && i < |s[j].bits| && s[j].bits[i]
  }

  /** f's entry for validator i is the one vote set v has. */
  predicate SameEntry(f: VoteSet, v: VoteSet, i: nat, n: nat)
    requires Shaped(f, n) && Shaped(v, n) && i < n
  {
    f.signatures[i] == v.signatures[i] && f.response.hashes[i] == v.response.hashes[i]
    && f.response.oracleSignatures[i] == v.response.oracleSignatures[i]
  }

  /** Where f's entry for validator i comes from: a voter, or the first set when nobody voted. */
  ghost predicate EntryFrom(f: VoteSet, s: seq<VoteSet>, i: nat, n: nat)
    requires Shaped(f, n) && i < n && |s| > 0 && forall j :: 0 <= j < |s| ==> Shaped(s[j], n)
  {
    && (f.bits[i] <==> Voted(s, i))
    && (!f.bits[i] ==> SameEntry(f, s[0], i, n))
    && (f.bits[i] ==> exists j :: 0 <= j < |s| && Shaped(s[j], n) && s[j].bits[i] && SameEntry(f, s[j], i, n))
  }

  lemma {:induction false} FoldFacts(cfg: Config, vals: Validators, s: seq<VoteSet>)
    requires Family(cfg, vals, s)
    ensures IsValid(cfg, Fold(vals, s), vals) && CanonicalCompare(s[0], Fold(vals, s))
    ensures forall i :: 0 <= i < |vals| ==> EntryFrom(Fold(vals, s), s, i, |vals|)
    decreases |s|
  {
    var f := Fold(vals, s);
    if |s| == 1 {
      forall i | 0 <= i < |vals| ensures EntryFrom(f, s, i, |vals|) {
        assert SameEntry(f, s[0], i, |vals|);
      }
    } else {
      var t, last := s[..|s| - 1], s[|s| - 1];
      FoldFacts(cfg, vals, t);
      MergeKeepsValid(cfg, vals, Fold(vals, t), last);
      forall i | 0 <= i < |vals| ensures EntryFrom(f, s, i, |vals|) {
        FoldStep(cfg, vals, t, last, i);
        assert s == t + [last];
      }
    }
  }

  lemma FoldStep(cfg: Config, vals: Validators, t: seq<VoteSet>, last: VoteSet, i: nat)
    requires Family(cfg, vals, t) && IsValid(cfg, last, vals) && i < |vals|
    requires IsValid(cfg, Fold(vals, t), vals) && CanonicalCompare(Fold(vals, t), last)
    requires EntryFrom(Fold(vals, t), t, i, |vals|)
    ensures EntryFrom(Merge(vals, Fold(vals, t), last), t + [last], i, |vals|)
  {
    var g, s := Fold(vals, t), t + [last];
    var f := Merge(vals, g, last);
    MergedEntry(cfg, vals, g, last, i);
    if g.bits[i] {
      var j :| 0 <= j < |t| && t[j].bits[i] && SameEntry(g, t[j], i, |vals|);
      assert s[j] == t[j] && s[j].bits[i] && SameEntry(f, s[j], i, |vals|);
    } else {
      assert forall j :: 0 <= j < |t| ==> !t[j].bits[i];
      if last.bits[i] {
        assert s[|t|] == last && SameEntry(f, s[|t|], i, |vals|);
      } else {
        assert SameEntry(f, s[0], i, |vals|);
      }
    }
  }

  /** Merging takes the second set's entry where only it has a vote and keeps the first set's elsewhere. */
  lemma MergedEntry(cfg: Config, vals: Validators, g: VoteSet, last: VoteSet, i: nat)
    requires IsValid(cfg, g, vals) && IsValid(cfg, last, vals) && CanonicalCompare(g, last) && i < |vals|
    ensures var f := Merge(vals, g, last);
      && (f.bits[i] <==> g.bits[i] || last.bits[i])
      && SameEntry(f, if !g.bits[i] && last.bits[i] then last else g, i, |vals|)
  {
    assert EntryValid(cfg.codec, g, vals, i) && EntryValid(cfg.codec, last, vals, i);
  }

  ghost predicate SameMembers(s: seq<VoteSet>, t: seq<VoteSet>) { forall v :: v in s <==> v in t }

  /** Wherever two of the sets both have a vote, it is the same vote. */
  ghost predicate Consistent(s: seq<VoteSet>, n: nat)
    requires forall j :: 0 <= j < |s| ==> Shaped(s[j], n)
  {
    forall i, j, k :: 0 <= i < n && 0 <= j < |s| && 0 <= k < |s| && Shaped(s[j], n) && Shaped(s[k], n)
                      && s[j].bits[i] && s[k].bits[i] ==>
      SameEntry(s[j], s[k], i, n)
  }

  /** The signatures kept beside absent votes; the acceptance test does not look at them. */
  ghost predicate SameLeftovers(s: seq<VoteSet>, t: seq<VoteSet>, n: nat)
    requires |s| > 0 && |t| > 0 && Shaped(s[0], n) && Shaped(t[0], n)
  {
    forall i :: 0 <= i < n && !Voted(s, i) ==> s[0].signatures[i] == t[0].signatures[i]
  }

  lemma VotedBySameMembers(s: seq<VoteSet>, t: seq<VoteSet>, i: nat)
    requires SameMembers(s, t)
    ensures Voted(s, i) <==> Voted(t, i)
  {
    if Voted(s, i) {
      var j :| 0 <= j < |s| && i < |s[j].bits| && s[j].bits[i];
      assert s[j] in t;
    }
    if Voted(t, i) {
      var j :| 0 <= j < |t| && i < |t[j].bits| && t[j].bits[i];
      assert t[j] in s;
    }
  }

  lemma SameVoters(cfg: Config, vals: Validators, s: seq<VoteSet>, t: seq<VoteSet>)
    requires Family(cfg, vals, s) && Family(cfg, vals, t) && SameMembers(s, t)
    ensures Fold(vals, s).bits == Fold(vals, t).bits
    ensures Fold(vals, s).response.bits == Fold(vals, t).response.bits
    ensures Fold(vals, s).totalVotingPower == Fold(vals, t).totalVotingPower
  {
    var f, g := Fold(vals, s), Fold(vals, t);
    FoldFacts(cfg, vals, s);
    FoldFacts(cfg, vals, t);
    forall i | 0 <= i < |vals| ensures f.bits[i] == g.bits[i] && f.response.bits[i] == g.response.bits[i] {
      assert EntryFrom(f, s, i, |vals|) && EntryFrom(g, t, i, |vals|);
      assert EntryValid(cfg.codec, f, vals, i) && EntryValid(cfg.codec, g, vals, i);
      VotedBySameMembers(s, t, i);
    }
    assert f.bits == g.bits && f.response.bits == g.response.bits;
  }

  ghost predicate AllShaped(s: seq<VoteSet>, n: nat) { forall j :: 0 <= j < |s| ==> Shaped(s[j], n) }

  lemma SameContents(f: VoteSet, g: VoteSet, s: seq<VoteSet>, t: seq<VoteSet>, n: nat)
    requires |s| > 0 && |t| > 0 && Shaped(f, n) && Shaped(g, n) && AllShaped(s, n) && AllShaped(t, n)
    requires SameMembers(s, t) && Consistent(s, n)
    requires forall i :: 0 <= i < n ==> EntryFrom(f, s, i, n) && EntryFrom(g, t, i, n)
    requires forall i :: 0 <= i < n && !f.bits[i] ==>
      && f.response.hashes[i] == g.response.hashes[i] == None
      && f.response.oracleSignatures[i] == g.response.oracleSignatures[i] == None
    ensures f.response.hashes == g.response.hashes
    ensures f.response.oracleSignatures == g.response.oracleSignatures
    ensures f.signatures == g.signatures <==> SameLeftovers(s, t, n)
  {
    forall i | 0 <= i < n
      ensures f.response.hashes[i] == g.response.hashes[i]
      ensures f.response.oracleSignatures[i] == g.response.oracleSignatures[i]
      ensures f.signatures[i] == g.signatures[i] <==> Voted(s, i) || s[0].signatures[i] == t[0].signatures[i]
    {
      SameAt(f, g, s, t, i, n);
    }
  }

  /** Any order and any repetition of the same vote sets gives the same voters and the same power. If
      the sets never disagree on a vote, the whole result is the same if and only if the two first sets
      carry the same leftover signatures. */
  lemma OrderInsensitive(cfg: Config, vals: Validators, s: seq<VoteSet>, t: seq<VoteSet>)
    requires Family(cfg, vals, s) && Family(cfg, vals, t) && SameMembers(s, t)
    ensures Fold(vals, s).bits == Fold(vals, t).bits
    ensures Fold(vals, s).totalVotingPower == Fold(vals, t).totalVotingPower
    ensures Consistent(s, |vals|) ==> (Fold(vals, s) == Fold(vals, t) <==> SameLeftovers(s, t, |vals|))
  {
    var f, g := Fold(vals, s), Fold(vals, t);
    SameVoters(cfg, vals, s, t);
    FoldFacts(cfg, vals, s);
    FoldFacts(cfg, vals, t);
    assert t[0] in s;
    if Consistent(s, |vals|) {
      forall i | 0 <= i < |vals| && !f.bits[i]
        ensures f.response.hashes[i] == g.response.hashes[i] == None
        ensures f.response.oracleSignatures[i] == g.response.oracleSignatures[i] == None
      {
        assert EntryValid(cfg.codec, f, vals, i) && EntryValid(cfg.codec, g, vals, i);
      }
      SameContents(f, g, s, t, |vals|);
    }
  }

  lemma SameAt(f: VoteSet, g: VoteSet, s: seq<VoteSet>, t: seq<VoteSet>, i: nat, n: nat)
    requires |s| > 0 && |t| > 0 && i < n && Shaped(f, n) && Shaped(g, n)
    requires forall j :: 0 <= j < |s| ==> Shaped(s[j], n)
    requires forall j :: 0 <= j < |t| ==> Shaped(t[j], n)
    requires SameMembers(s, t) && Consistent(s, n) && EntryFrom(f, s, i, n) && EntryFrom(g, t, i, n)
    requires !f.bits[i] ==> f.response.hashes[i] == g.response.hashes[i] == None
    requires !f.bits[i] ==> f.response.oracleSignatures[i] == g.response.oracleSignatures[i] == None
    ensures f.response.hashes[i] == g.response.hashes[i]
    ensures f.response.oracleSignatures[i] == g.response.oracleSignatures[i]
    ensures f.signatures[i] == g.signatures[i] <==> Voted(s, i) || s[0].signatures[i] == t[0].signatures[i]
  {
    VotedBySameMembers(s, t, i);
    if Voted(s, i) {
      var j :| 0 <= j < |s| && Shaped(s[j], n) && s[j].bits[i] && SameEntry(f, s[j], i, n);
      var k :| 0 <= k < |t| && Shaped(t[k], n) && t[k].bits[i] && SameEntry(g, t[k], i, n);
      assert t[k] in s;
      var l :| 0 <= l < |s| && s[l] == t[k];
      assert SameEntry(s[j], s[l], i, n);
    }
  }

  lemma JunkIsAccepted(cfg: Config, vals: Validators, v: VoteSet, i: nat, junk: Bytes)
    requires IsValid(cfg, v, vals) && i < |vals| && !v.bits[i]
    ensures IsValid(cfg, v.(signatures := v.signatures[i := Some(junk)]), vals)
  {
    var w := v.(signatures := v.signatures[i := Some(junk)]);
    forall j | 0 <= j < |vals| ensures EntryValid(cfg.codec, w, vals, j) {
      assert EntryValid(cfg.codec, v, vals, j);
      if j != i { EntryTransfers(cfg.codec, v, w, vals, j); }
    }
  }

  /** The leftovers do matter: two valid vote sets can differ in one, and then the order of merging
      shows in the result. */
  lemma LeftoversShow(cfg: Config, vals: Validators, v: VoteSet, i: nat, junk: Bytes)
    requires IsValid(cfg, v, vals) && i < |vals| && !v.bits[i] && v.signatures[i] != Some(junk)
    ensures var w := v.(signatures := v.signatures[i := Some(junk)]);
      && IsValid(cfg, w, vals) && CanonicalCompare(v, w)
      && Merge(vals, v, w) != Merge(vals, w, v)
  {
    var w := v.(signatures := v.signatures[i := Some(junk)]);
    JunkIsAccepted(cfg, vals, v, i, junk);
    assert Merge(vals, v, w).signatures[i] == v.signatures[i];
    assert Merge(vals, w, v).signatures[i] == w.signatures[i];
  }
}

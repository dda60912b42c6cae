/** Voting power of a selection of validators. A selection is a bit array, one bit a validator. */
module Tally {
  import opened Basics

  datatype Validator = Validator(address: Bytes, pubKey: Bytes, power: int)
  type Validators = seq<Validator>

  /** Power held by the selected validators among the first n. */
  function Power(vals: Validators, sel: seq<bool>, n: nat): int
    requires n <= |vals| && n <= |sel|
  {
    if n == 0 then 0 else Power(vals, sel, n - 1) + if sel[n - 1] then vals[n - 1].power else 0
  }

  function Everyone(n: nat): seq<bool> { seq(n, i => true) }

  function Total(vals: Validators): int { Power(vals, Everyone(|vals|), |vals|) }

  /** What Tendermint guarantees of a validator set: it has a member, every power is positive and
      twice the total fits an int64. */
  predicate WellFormed(vals: Validators) {
    && |vals| > 0
    && (forall i :: 0 <= i < |vals| ==> vals[i].power > 0)
    && 2 * Total(vals) <= MAX_INT64
  }

  function Both(a: seq<bool>, b: seq<bool>): seq<bool>
    requires |a| == |b|
  { seq(|a|, i requires 0 <= i < |a| => a[i] && b[i]) }

  function Union(a: seq<bool>, b: seq<bool>): seq<bool>
    requires |a| == |b|
  { seq(|a|, i requires 0 <= i < |a| => a[i] || b[i]) }

  /** The bits set in b and not in a. */
  function Gain(a: seq<bool>, b: seq<bool>): seq<bool>
    requires |a| == |b|
  { seq(|a|, i requires 0 <= i < |a| => !a[i] && b[i]) }

  ghost predicate Within(a: seq<bool>, b: seq<bool>) {
    |a| == |b| && forall i :: 0 <= i < |a| ==> a[i] ==> b[i]
  }

  lemma {:induction false} PowerMonotone(vals: Validators, a: seq<bool>, b: seq<bool>, n: nat)
    requires n <= |vals| && n <= |a| && Within(a, b)
    requires forall i :: 0 <= i < |vals| ==> vals[i].power > 0
    ensures 0 <= Power(vals, a, n) <= Power(vals, b, n)
  {
    if n > 0 { PowerMonotone(vals, a, b, n - 1); }
  }

  lemma PowerAtMostTotal(vals: Validators, a: seq<bool>)
    requires WellFormed(vals) && |a| == |vals|
    ensures 0 <= Power(vals, a, |a|) <= Total(vals)
  {
    PowerMonotone(vals, a, Everyone(|vals|), |vals|);
  }

  /** Two voters' power is counted once in the union and once in the overlap. */
  lemma {:induction false} InclusionExclusion(vals: Validators, a: seq<bool>, b: seq<bool>, n: nat)
    requires |a| == |b| && n <= |vals| && n <= |a|
    ensures Power(vals, a, n) + Power(vals, b, n)
         == Power(vals, Union(a, b), n) + Power(vals, Both(a, b), n)
    ensures Power(vals, Union(a, b), n) == Power(vals, a, n) + Power(vals, Gain(a, b), n)
  {
    if n > 0 { InclusionExclusion(vals, a, b, n - 1); }
  }

  /** Only the first n bits of a selection matter. */
  lemma {:induction false} PowerExtensional(vals: Validators, a: seq<bool>, b: seq<bool>, n: nat)
    requires n <= |vals| && n <= |a| && n <= |b|
    requires forall i :: 0 <= i < n ==> a[i] == b[i]
    ensures Power(vals, a, n) == Power(vals, b, n)
  {
    if n > 0 { PowerExtensional(vals, a, b, n - 1); }
  }

  /** Setting one clear bit adds exactly that validator's power. */
  lemma {:induction false} PowerSetBit(vals: Validators, a: seq<bool>, k: nat, n: nat)
    requires k < |a| && !a[k] && n <= |vals| && n <= |a|
    ensures Power(vals, a[k := true], n) == Power(vals, a, n) + if k < n then vals[k].power else 0
  {
    if n > 0 { PowerSetBit(vals, a, k, n - 1); }
  }

  /** Number of bits set among the first n. */
  function Count(bits: seq<bool>, n: nat): (c: nat)
    requires n <= |bits|
    ensures c <= n
  {
    if n == 0 then 0 else Count(bits, n - 1) + if bits[n - 1] then 1 else 0
  }

  lemma {:induction false} CountMonotone(a: seq<bool>, b: seq<bool>, n: nat)
    requires n <= |a| && Within(a, b)
    ensures Count(a, n) <= Count(b, n)
    ensures forall i :: 0 <= i < n && !a[i] && b[i] ==> Count(a, n) < Count(b, n)
  {
    if n > 0 { CountMonotone(a, b, n - 1); }
  }
}

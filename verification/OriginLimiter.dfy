/** The call limiter: a ring buffer of the calls accepted in the last `period` blocks. */
module OriginLimiter {
  import opened Basics

  datatype Address = Address(chainID: string, local: Bytes)
  datatype CallTx = CallTx(origin: Address, nonce: int)

  const EMPTY_CALL := CallTx(Address("", []), 0)

  type Ring = seq<seq<CallTx>>

  /** The ring holds a call of this origin with another nonce. */
  ghost predicate Blocked(ring: Ring, caller: Address, nonce: int) {
    exists i, j :: 0 <= i < |ring| && 0 <= j < |ring[i]| && ring[i][j].origin == caller && ring[i][j].nonce != nonce
  }

  function Recorded(ring: Ring, caller: Address, nonce: int, height: nat): Ring
    requires |ring| > 0
  {
    ring[height % |ring| := ring[height % |ring|] + [CallTx(caller, nonce)]]
  }

  function Cleared(ring: Ring, height: nat): Ring
    requires |ring| > 0
  {
    ring[height % |ring| := [EMPTY_CALL]]
  }

  class OriginValidator {
    const period: nat
    const callValidation: bool
    var alreadyCalled: Ring

    constructor (period: nat, callValidation: bool)
      ensures this.period == period && this.callValidation == callValidation
      ensures alreadyCalled == seq(period, i => [])
    {
      this.period, this.callValidation := period, callValidation;
      alreadyCalled := seq(period, i => []);
    }

    /** Accepts a call unless its origin already placed one with another nonce; accepted calls are
        recorded in the slot of the current block. */
    method ValidateCaller(caller: Address, nonce: int, height: nat) returns (ok: bool)
      requires period > 0 && |alreadyCalled| == period
      modifies this
      ensures ok <==> !callValidation || !Blocked(old(alreadyCalled), caller, nonce)
      ensures alreadyCalled == if callValidation && ok then Recorded(old(alreadyCalled), caller, nonce, height)
                               else old(alreadyCalled)
    {
      if !callValidation { return true; }
      for i := 0 to |alreadyCalled|
        invariant alreadyCalled == old(alreadyCalled)
        invariant forall k, j :: 0 <= k < i && 0 <= j < |alreadyCalled[k]| ==>
          !(alreadyCalled[k][j].origin == caller && alreadyCalled[k][j].nonce != nonce)
      {
        var callersBlock := alreadyCalled[i];
        for j := 0 to |callersBlock|
          invariant alreadyCalled == old(alreadyCalled)
          invariant forall l :: 0 <= l < j ==> !(callersBlock[l].origin == caller && callersBlock[l].nonce != nonce)
        {
          if caller == callersBlock[j].origin && nonce != callersBlock[j].nonce { return false; }
        }
      }
      var slot := height % period;
      alreadyCalled := alreadyCalled[slot := alreadyCalled[slot] + [CallTx(caller, nonce)]];
      return true;
    }

    /** Starts a block: its slot forgets the calls of `period` blocks ago. */
    method Reset(height: nat)
      requires period > 0 && |alreadyCalled| == period
      modifies this
      ensures alreadyCalled == Cleared(old(alreadyCalled), height)
    {
      alreadyCalled := alreadyCalled[height % period := [EMPTY_CALL]];
    }
  }

  // ---- whole runs ----

  datatype Event = Call(origin: Address, nonce: int) | NextBlock

  /** An accepted call and the height of its block. */
  datatype Accepted = Accepted(height: nat, call: CallTx)

  datatype World = World(ring: Ring, height: nat, log: seq<Accepted>)

  /** The limiter after BeginBlock of the first block it sees. */
  function Start(period: nat, height: nat): World
    requires period > 0
  {
    World(Cleared(seq(period, i => []), height), height, [])
  }

  ghost function Apply(w: World, e: Event): World
    requires |w.ring| > 0
  {
    match e
    case NextBlock => w.(height := w.height + 1, ring := Cleared(w.ring, w.height + 1))
    case Call(origin, nonce) =>
      if Blocked(w.ring, origin, nonce) then w
      else w.(ring := Recorded(w.ring, origin, nonce, w.height),
              log := w.log + [Accepted(w.height, CallTx(origin, nonce))])
  }

  ghost function RunFrom(period: nat, height: nat, es: seq<Event>): (w: World)
    requires period > 0
    ensures |w.ring| == period
  {
    if es == [] then Start(period, height) else Apply(RunFrom(period, height, es[..|es| - 1]), es[|es| - 1])
  }

  /** The log has this call in a block of slot j that is still in the window. */
  ghost predicate InWindow(w: World, j: nat, c: CallTx)
    requires |w.ring| > 0
  {
    exists i :: 0 <= i < |w.log| && w.log[i].call == c && w.log[i].height > w.height - |w.ring|
                && w.log[i].height % |w.ring| == j
  }

  ghost predicate SlotOk(w: World, j: nat)
    requires j < |w.ring|
  {
    forall c: CallTx :: c.origin != EMPTY_CALL.origin ==> (c in w.ring[j] <==> InWindow(w, j, c))
  }

  /** Two accepted calls of one origin fewer than `period` blocks apart have the same nonce. */
  ghost predicate Spaced(w: World, i: nat, j: nat)
    requires i < |w.log| && j < |w.log|
  {
    var a, b := w.log[i], w.log[j];
    a.call.origin == b.call.origin != EMPTY_CALL.origin && b.height - a.height < |w.ring| ==>
      a.call.nonce == b.call.nonce
  }

  ghost predicate Inv(w: World) {
    && |w.ring| > 0
    && (forall j :: 0 <= j < |w.ring| ==> SlotOk(w, j))
    && (forall i :: 0 <= i < |w.log| ==> w.log[i].height <= w.height)
    && (forall i, j :: 0 <= i < j < |w.log| ==> Spaced(w, i, j))
  }

  lemma MultipleSize(p: int, d: int)
    requires p > 0
    ensures if d > 0 then p * d >= p else if d < 0 then p * d <= -p else p * d == 0
  {
  }

  lemma DivMod(n: int, p: int)
    requires p > 0
    ensures n == p * (n / p) + n % p && 0 <= n % p < p
  {
  }

  /** Two different numbers in one residue class are at least p apart. */
  lemma SameSlotApart(a: int, b: int, p: int)
    requires p > 0 && b < a && a % p == b % p
    ensures a - b >= p
  {
    DivMod(a, p);
    DivMod(b, p);
    var x, y := a / p, b / p;
    assert a - b == p * x - p * y == p * (x - y);
    MultipleSize(p, x - y);
  }

  lemma SlotRepeats(a: int, p: int)
    requires p > 0
    ensures (a + p) % p == a % p
  {
    DivMod(a, p);
    DivMod(a + p, p);
    var x, y := a / p, (a + p) / p;
    assert p * (y - x - 1) == p * y - p * x - p == a % p - (a + p) % p;
    MultipleSize(p, y - x - 1);
  }

  /** The window test over the log says the same as the search of the ring. */
  lemma BlockedExactlyWhen(w: World, caller: Address, nonce: int)
    requires Inv(w) && caller != EMPTY_CALL.origin
    ensures Blocked(w.ring, caller, nonce) <==>
      exists i :: 0 <= i < |w.log| && w.log[i].height > w.height - |w.ring|
                  && w.log[i].call.origin == caller && w.log[i].call.nonce != nonce
  {
    if Blocked(w.ring, caller, nonce) {
      var i, j :| 0 <= i < |w.ring| && 0 <= j < |w.ring[i]|
        && w.ring[i][j].origin == caller && w.ring[i][j].nonce != nonce;
      assert SlotOk(w, i) && w.ring[i][j] in w.ring[i];
      assert InWindow(w, i, w.ring[i][j]);
    }
    if i :| 0 <= i < |w.log| && w.log[i].height > w.height - |w.ring|
            && w.log[i].call.origin == caller && w.log[i].call.nonce != nonce {
      var j := w.log[i].height % |w.ring|;
      assert SlotOk(w, j) && InWindow(w, j, w.log[i].call);
      var k :| 0 <= k < |w.ring[j]| && w.ring[j][k] == w.log[i].call;
    }
  }

  lemma CallKeepsInv(w: World, origin: Address, nonce: int)
    requires Inv(w)
    ensures Inv(Apply(w, Call(origin, nonce)))
  {
    if !Blocked(w.ring, origin, nonce) {
      var v, c := Apply(w, Call(origin, nonce)), CallTx(origin, nonce);
      forall j | 0 <= j < |v.ring| ensures SlotOk(v, j) { RecordedSlot(w, origin, nonce, j); }
      forall i, j | 0 <= i < j < |v.log| ensures Spaced(v, i, j) {
        if j < |w.log| {
          assert Spaced(w, i, j);
        } else if origin != EMPTY_CALL.origin {
          BlockedExactlyWhen(w, origin, nonce);
        }
      }
    }
  }

  lemma RecordedSlot(w: World, origin: Address, nonce: int, j: nat)
    requires Inv(w) && j < |w.ring| && !Blocked(w.ring, origin, nonce)
    ensures SlotOk(Apply(w, Call(origin, nonce)), j)
  {
    var v, c := Apply(w, Call(origin, nonce)), CallTx(origin, nonce);
    forall d: CallTx | d.origin != EMPTY_CALL.origin ensures d in v.ring[j] <==> InWindow(v, j, d) {
      assert SlotOk(w, j);
      if InWindow(w, j, d) {
        var i :| 0 <= i < |w.log| && w.log[i].call == d && w.log[i].height > w.height - |w.ring|
                 && w.log[i].height % |w.ring| == j;
        assert v.log[i] == w.log[i];
      }
      if j == w.height % |w.ring| { assert v.log[|w.log|] == Accepted(w.height, c); }
    }
  }

  lemma ClearedSlot(w: World, j: nat)
    requires Inv(w) && j < |w.ring|
    ensures SlotOk(Apply(w, NextBlock), j)
  {
    var v, p := Apply(w, NextBlock), |w.ring|;
    forall c: CallTx | c.origin != EMPTY_CALL.origin ensures c in v.ring[j] <==> InWindow(v, j, c) {
      assert SlotOk(w, j);
      if InWindow(w, j, c) && j != v.height % p {
        var i :| 0 <= i < |w.log| && w.log[i].call == c && w.log[i].height > w.height - p
                 && w.log[i].height % p == j;
        if w.log[i].height == v.height - p { SlotRepeats(w.log[i].height, p); }
        assert v.log[i].height > v.height - p;
      }
      if InWindow(v, j, c) {
        var i :| 0 <= i < |v.log| && v.log[i].call == c && v.log[i].height > v.height - p
                 && v.log[i].height % p == j;
        if j == v.height % p {
          SameSlotApart(v.height, v.log[i].height, p);
        } else {
          assert w.log[i] == v.log[i];
        }
      }
    }
  }

  lemma {:induction false} RunKeepsInv(period: nat, height: nat, es: seq<Event>)
    requires period > 0
    ensures Inv(RunFrom(period, height, es))
    decreases |es|
  {
    if es == [] {
      var w := Start(period, height);
      forall j | 0 <= j < period ensures SlotOk(w, j) { }
    } else {
      RunKeepsInv(period, height, es[..|es| - 1]);
      var w, e := RunFrom(period, height, es[..|es| - 1]), es[|es| - 1];
      if e.NextBlock? {
        var v := Apply(w, e);
        forall j | 0 <= j < |w.ring| ensures SlotOk(v, j) { ClearedSlot(w, j); }
        forall i, j | 0 <= i < j < |v.log| ensures Spaced(v, i, j) { assert Spaced(w, i, j); }
      } else {
        CallKeepsInv(w, e.origin, e.nonce);
      }
    }
  }

  /** In every run, two accepted calls of one origin fewer than `period` blocks apart carry the same
      nonce, and a call is rejected exactly when its origin had a call with another nonce accepted in the
      last `period` blocks. */
  lemma SlidingWindow(period: nat, height: nat, es: seq<Event>, caller: Address, nonce: int)
    requires period > 0 && caller != EMPTY_CALL.origin
    ensures var w := RunFrom(period, height, es);
      && (forall i, j :: 0 <= i < j < |w.log| ==> Spaced(w, i, j))
      && (Blocked(w.ring, caller, nonce) <==>
            exists i :: 0 <= i < |w.log| && w.log[i].height > w.height - period
                        && w.log[i].call.origin == caller && w.log[i].call.nonce != nonce)
  {
    RunKeepsInv(period, height, es);
    BlockedExactlyWhen(RunFrom(period, height, es), caller, nonce);
  }
}

/** The reactor's state and its image on disk: maps flattened to lists in an arbitrary order and rebuilt
    by the function ID each vote set carries. */
module Persistence {
  import opened Basics
  import opened Tally
  import opened VoteSets

  datatype State = State(current: map<string, VoteSet>, nonces: map<string, int>,
                         timedOut: map<string, VoteSet>, prevMaj: map<string, VoteSet>,
                         prevVals: Option<Validators>)

  datatype Image = Image(current: seq<VoteSet>, nonces: seq<(string, int)>, timedOut: seq<VoteSet>,
                         prevMaj: seq<VoteSet>, prevVals: Option<Validators>)

  const EMPTY_STATE: State := State(map[], map[], map[], map[], None)

  predicate Distinct<V>(ps: seq<(string, V)>) {
    forall i, j :: 0 <= i < j < |ps| ==> ps[i].0 != ps[j].0
  }

  /** ps lists the entries of m, each once. */
  ghost predicate Lists<V>(m: map<string, V>, ps: seq<(string, V)>) {
    && Distinct(ps)
    && (forall i :: 0 <= i < |ps| ==> ps[i].0 in m && m[ps[i].0] == ps[i].1)
    && (forall k :: k in m ==> (k, m[k]) in ps)
  }

  /** vs lists the values of m in some iteration order. */
  ghost predicate ListsValues(m: map<string, VoteSet>, vs: seq<VoteSet>) {
    exists ps: seq<(string, VoteSet)> ::
      Lists(m, ps) && |ps| == |vs| && forall i :: 0 <= i < |ps| ==> ps[i].1 == vs[i]
  }

  ghost predicate Flattens(s: State, m: Image) {
    && ListsValues(s.current, m.current) && Lists(s.nonces, m.nonces)
    && ListsValues(s.timedOut, m.timedOut) && ListsValues(s.prevMaj, m.prevMaj)
    && s.prevVals == m.prevVals
  }

  /** Inserting the entries one by one, later ones replacing earlier ones. */
  function FromPairs<V>(ps: seq<(string, V)>): map<string, V> {
    if ps == [] then map[] else FromPairs(ps[..|ps| - 1])[ps[|ps| - 1].0 := ps[|ps| - 1].1]
  }

  function ByFnID(vs: seq<VoteSet>): seq<(string, VoteSet)> {
    seq(|vs|, i requires 0 <= i < |vs| => (vs[i].fnID, vs[i]))
  }

  function Rebuild(m: Image): State {
    State(FromPairs(ByFnID(m.current)), FromPairs(m.nonces), FromPairs(ByFnID(m.timedOut)),
          FromPairs(ByFnID(m.prevMaj)), m.prevVals)
  }

  predicate Keyed(m: map<string, VoteSet>) { forall k :: k in m ==> m[k].fnID == k }

  lemma {:induction false} FromPairsContents<V>(ps: seq<(string, V)>)
    requires Distinct(ps)
    ensures forall k :: k in FromPairs(ps) ==> (k, FromPairs(ps)[k]) in ps
    ensures forall i :: 0 <= i < |ps| ==> ps[i].0 in FromPairs(ps) && FromPairs(ps)[ps[i].0] == ps[i].1
    decreases |ps|
  {
    if ps != [] {
      FromPairsContents(ps[..|ps| - 1]);
    }
  }

  lemma ListedMapRebuilds<V>(m: map<string, V>, ps: seq<(string, V)>)
    requires Lists(m, ps)
    ensures FromPairs(ps) == m
  {
    FromPairsContents(ps);
    forall k | k in m ensures k in FromPairs(ps) && FromPairs(ps)[k] == m[k] {
      assert (k, m[k]) in ps;
    }
  }

  lemma {:induction false} RebuiltIsKeyed(vs: seq<VoteSet>)
    ensures Keyed(FromPairs(ByFnID(vs)))
    decreases |vs|
  {
    if vs != [] {
      RebuiltIsKeyed(vs[..|vs| - 1]);
      assert ByFnID(vs)[..|vs| - 1] == ByFnID(vs[..|vs| - 1]);
    }
  }

  /** A map of vote sets survives flattening in any order if and only if every vote set is stored under
      its own function ID. */
  lemma ValuesRoundTrip(m: map<string, VoteSet>, vs: seq<VoteSet>)
    requires ListsValues(m, vs)
    ensures FromPairs(ByFnID(vs)) == m <==> Keyed(m)
  {
    RebuiltIsKeyed(vs);
    if Keyed(m) {
      var ps: seq<(string, VoteSet)> :|
        Lists(m, ps) && |ps| == |vs| && forall i :: 0 <= i < |ps| ==> ps[i].1 == vs[i];
      forall i | 0 <= i < |ps| ensures ps[i] == ByFnID(vs)[i] {
        assert ps[i].0 in m && m[ps[i].0] == ps[i].1;
      }
      assert ps == ByFnID(vs);
      ListedMapRebuilds(m, ps);
    }
  }

  /** Save, then load: the same state, whatever order the maps were iterated in, if and only if every
      vote set is stored under its own function ID. */
  lemma RoundTrip(s: State, m: Image)
    requires Flattens(s, m)
    ensures Rebuild(m) == s <==> Keyed(s.current) && Keyed(s.timedOut) && Keyed(s.prevMaj)
  {
    ValuesRoundTrip(s.current, m.current);
    ValuesRoundTrip(s.timedOut, m.timedOut);
    ValuesRoundTrip(s.prevMaj, m.prevMaj);
    ListedMapRebuilds(s.nonces, m.nonces);
  }

  /** Iterates a map in an arbitrary order. */
  method Entries<V>(m: map<string, V>) returns (ps: seq<(string, V)>)
    ensures Lists(m, ps)
  {
    ps := [];
    var rest := m.Keys;
    while rest != {}
      invariant rest <= m.Keys && Distinct(ps)
      invariant forall i :: 0 <= i < |ps| ==> ps[i].0 in m && m[ps[i].0] == ps[i].1 && ps[i].0 !in rest
      invariant forall k :: k in m && k !in rest ==> (k, m[k]) in ps
      decreases |rest|
    {
      var k :| k in rest;
      ghost var before := ps;
      ps := ps + [(k, m[k])];
      rest := rest - {k};
      forall k' | k' in m && k' !in rest ensures (k', m[k']) in ps {
        if k' != k { assert (k', m[k']) in before; }
      }
    }
  }

  method Values(m: map<string, VoteSet>) returns (vs: seq<VoteSet>)
    ensures ListsValues(m, vs)
  {
    var ps := Entries(m);
    vs := seq(|ps|, i requires 0 <= i < |ps| => ps[i].1);
  }

  /** Flattens the state to what is written to disk. */
  method Marshal(s: State) returns (m: Image)
    ensures Flattens(s, m)
  {
    var current := Values(s.current);
    var nonces := Entries(s.nonces);
    var timedOut := Values(s.timedOut);
    var prevMaj := Values(s.prevMaj);
    m := Image(current, nonces, timedOut, prevMaj, s.prevVals);
  }

  /** Inserts vote sets one by one under the function ID each carries. */
  method IndexByFnID(vs: seq<VoteSet>) returns (m: map<string, VoteSet>)
    ensures m == FromPairs(ByFnID(vs))
  {
    m := map[];
    for i := 0 to |vs|
      invariant m == FromPairs(ByFnID(vs[..i]))
    {
      assert ByFnID(vs[..i + 1])[..i] == ByFnID(vs[..i]);
      m := m[vs[i].fnID := vs[i]];
    }
    assert vs[..|vs|] == vs;
  }

  /** Rebuilds the state from disk. */
  method Unmarshal(m: Image) returns (s: State)
    ensures s == Rebuild(m)
  {
    var current := IndexByFnID(m.current);
    var timedOut := IndexByFnID(m.timedOut);
    var prevMaj := IndexByFnID(m.prevMaj);
    var nonces := map[];
    for i := 0 to |m.nonces|
      invariant nonces == FromPairs(m.nonces[..i])
    {
      assert m.nonces[..i + 1][..i] == m.nonces[..i];
      nonces := nonces[m.nonces[i].0 := m.nonces[i].1];
    }
    assert m.nonces[..|m.nonces|] == m.nonces;
    s := State(current, nonces, timedOut, prevMaj, m.prevVals);
  }
}

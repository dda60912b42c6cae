/** The byte order of store keys: lexicographic comparison, big-endian numbers, ordered iteration and the
    key range of a prefix. */
module KeyOrder {
  import opened Basics

  /** a comes before b in lexicographic byte order. */
  predicate Less(a: Bytes, b: Bytes) {
    if b == [] then false
    else if a == [] then true
    else a[0] < b[0] || (a[0] == b[0] && Less(a[1..], b[1..]))
  }

  predicate InRange(k: Bytes, start: Bytes, end: Option<Bytes>) {
    !Less(k, start) && (end.Some? ==> Less(k, end.value))
  }

  lemma {:induction false} LessTotal(a: Bytes, b: Bytes)
    ensures Less(a, b) || a == b || Less(b, a)
    ensures !(Less(a, b) && Less(b, a)) && !Less(a, a)
    decreases |a|
  {
    if a != [] { LessTotal(a[1..], a[1..]); }
    if a != [] && b != [] {
      LessTotal(a[1..], b[1..]);
      if a[0] == b[0] && a[1..] == b[1..] { assert a == [a[0]] + a[1..] == b; }
    }
  }

  lemma {:induction false} LessTransitive(a: Bytes, b: Bytes, c: Bytes)
    requires Less(a, b) && Less(b, c)
    ensures Less(a, c)
    decreases |a|
  {
    if a != [] && a[0] == b[0] == c[0] { LessTransitive(a[1..], b[1..], c[1..]); }
  }

  /** Keys with heads of one length compare by their heads first, then by their tails. */
  lemma {:induction false} LessByParts(x: Bytes, u: Bytes, y: Bytes, v: Bytes)
    requires |x| == |y|
    ensures Less(x + u, y + v) <==> Less(x, y) || (x == y && Less(u, v))
    decreases |x|
  {
    if x == [] {
      assert x + u == u && y + v == v;
    } else {
      LessByParts(x[1..], u, y[1..], v);
      assert (x + u)[1..] == x[1..] + u && (y + v)[1..] == y[1..] + v;
      assert x == y <==> x[0] == y[0] && x[1..] == y[1..] by {
        assert x == [x[0]] + x[1..] && y == [y[0]] + y[1..];
      }
    }
  }

  // ---- big-endian numbers ----

  function Pow256(w: nat): nat { if w == 0 then 1 else 256 * Pow256(w - 1) }

  /** n as w big-endian bytes. */
  function Encode(n: nat, w: nat): (b: Bytes)
    ensures |b| == w
  {
    if w == 0 then [] else Encode(n / 256, w - 1) + [n % 256]
  }

  function Decode(b: Bytes): nat {
    if b == [] then 0 else 256 * Decode(b[..|b| - 1]) + b[|b| - 1]
  }

  lemma {:induction false} EncodeRoundTrip(n: nat, w: nat)
    requires n < Pow256(w)
    ensures Decode(Encode(n, w)) == n
    decreases w
  {
    if w > 0 {
      EncodeRoundTrip(n / 256, w - 1);
      assert Encode(n, w)[..w - 1] == Encode(n / 256, w - 1);
    }
  }

  /** Byte order on the encodings is numeric order, so encodings are distinct. */
  lemma {:induction false} EncodeOrder(a: nat, b: nat, w: nat)
    requires a < Pow256(w) && b < Pow256(w)
    ensures Less(Encode(a, w), Encode(b, w)) <==> a < b
    ensures Encode(a, w) == Encode(b, w) <==> a == b
    decreases w
  {
    EncodeRoundTrip(a, w);
    EncodeRoundTrip(b, w);
    if w > 0 {
      EncodeOrder(a / 256, b / 256, w - 1);
      LessByParts(Encode(a / 256, w - 1), [a % 256], Encode(b / 256, w - 1), [b % 256]);
    }
  }

  lemma Widths()
    ensures Pow256(8) == TWO_64 && Pow256(2) == TWO_16
  {
    assert Pow256(1) == 256;
    assert Pow256(2) == 65536;
    assert Pow256(3) == 16777216;
    assert Pow256(4) == 4294967296;
    assert Pow256(5) == 1099511627776;
    assert Pow256(6) == 281474976710656;
    assert Pow256(7) == 72057594037927936;
  }

  // ---- ordered iteration ----

  ghost predicate Ascending(ks: seq<Bytes>) { forall i, j :: 0 <= i < j < |ks| ==> Less(ks[i], ks[j]) }

  /** ks is what a database iterator over [start, end) yields: the keys in the range, ascending. */
  ghost predicate Iteration(keys: set<Bytes>, start: Bytes, end: Option<Bytes>, ks: seq<Bytes>) {
    && Ascending(ks)
    && forall k :: k in ks <==> k in keys && InRange(k, start, end)
  }

  // ---- prefix ranges ----

  predicate HasPrefix(p: Bytes, k: Bytes) { p <= k }

  /** The smallest key after every key with prefix p; None when there is no such key. */
  function RangeEnd(p: Bytes): Option<Bytes> {
    if p == [] then None
    else if p[|p| - 1] != 255 then Some(p[..|p| - 1] + [p[|p| - 1] + 1])
    else RangeEnd(p[..|p| - 1])
  }

  /** Increments the last byte, dropping trailing 0xFF bytes first. An empty prefix that is not nil
      indexes out of range in the program, so it is excluded here. */
  method PrefixRangeEnd(prefix: Option<Bytes>) returns (r: Option<Bytes>)
    requires prefix != Some([])
    ensures r == if prefix.None? then None else RangeEnd(prefix.value)
  {
    if prefix.None? { return None; }
    var end := prefix.value;
    while true
      invariant end != [] && RangeEnd(end) == RangeEnd(prefix.value)
      decreases |end|
    {
      if end[|end| - 1] != 255 {
        return Some(end[..|end| - 1] + [end[|end| - 1] + 1]);
      } else if |end| == 1 {
        return None;
      }
      end := end[..|end| - 1];
    }
  }

  lemma {:induction false} Band(q: Bytes, c: byte, k: Bytes)
    requires c < 255
    ensures HasPrefix(q + [c], k) <==> !Less(k, q + [c]) && Less(k, q + [c + 1])
    decreases |q|
  {
    if q == [] {
      assert q + [c] == [c] && q + [c + 1] == [c + 1];
      assert [c][1..] == [] && [c + 1][1..] == [];
      assert k != [] ==> !Less(k[1..], []);
    } else {
      assert (q + [c])[1..] == q[1..] + [c] && (q + [c + 1])[1..] == q[1..] + [c + 1];
      if k != [] {
        Band(q[1..], c, k[1..]);
        assert HasPrefix(q + [c], k) <==> q[0] == k[0] && HasPrefix(q[1..] + [c], k[1..]) by {
          assert q + [c] == [q[0]] + (q[1..] + [c]) && k == [k[0]] + k[1..];
        }
      }
    }
  }

  /** Appending 0xFF: among the keys with prefix q, those not before q + [255] are those with it. */
  lemma TopOfBand(q: Bytes, k: Bytes)
    requires HasPrefix(q, k)
    ensures HasPrefix(q + [255], k) <==> !Less(k, q + [255])
  {
    var r := k[|q|..];
    assert k == q + r;
    LessByParts(q, r, q, [255]);
    LessTotal(q, q);
    if r != [] {
      assert r == [r[0]] + r[1..];
      assert [255][1..] == [] && !Less(r[1..], []);
    }
  }

  /** A key starts with p exactly when it is not before p and before the computed end. */
  lemma {:induction false} PrefixIsRange(p: Bytes, k: Bytes)
    ensures HasPrefix(p, k) <==> InRange(k, p, RangeEnd(p))
    decreases |p|
  {
    if p != [] {
      var q, c := p[..|p| - 1], p[|p| - 1];
      assert p == q + [c];
      if c != 255 {
        Band(q, c, k);
      } else {
        PrefixIsRange(q, k);
        if HasPrefix(q, k) {
          TopOfBand(q, k);
        } else if Less(k, q) {
          LessByParts(q, [], q, [255]);
          assert q + [] == q;
          LessTransitive(k, q, p);
        }
      }
    }
  }

  /** A prefix scan returns exactly the keys with that prefix, in order. */
  lemma PrefixScan(keys: set<Bytes>, p: Bytes, ks: seq<Bytes>)
    requires Iteration(keys, p, RangeEnd(p), ks)
    ensures Ascending(ks) && forall k :: k in ks <==> k in keys && HasPrefix(p, k)
  {
    forall k ensures k in ks <==> k in keys && HasPrefix(p, k) { PrefixIsRange(p, k); }
  }
}

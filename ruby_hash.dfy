/**
  Ruby's Hash, as far as the PLCBus script uses it: a hash literal, lookup
  with `[]` (nil for a missing key) and `Hash#invert`.

  A Ruby hash remembers insertion order, and that order decides which entry
  survives when two entries collide, so a hash is modelled as the ordered
  list of its entries, keys pairwise distinct.
 */
module RubyHash {

  datatype Option<T> = None | Some(value: T)

  /** The entries of a hash, in insertion order. */
  type Entries<K, V> = seq<(K, V)>

  predicate DistinctKeys<K(==), V>(h: Entries<K, V>)
  {
    forall i, j :: 0 <= i < j < |h| ==> h[i].0 != h[j].0
  }

  predicate DistinctValues<K, V(==)>(h: Entries<K, V>)
  {
    forall i, j :: 0 <= i < j < |h| ==> h[i].1 != h[j].1
  }

  /** `h[k]`: the value stored under k, or nil. */
  function Lookup<K(==), V>(h: Entries<K, V>, k: K): (r: Option<V>)
    ensures r.Some? <==> exists i :: 0 <= i < |h| && h[i].0 == k
    ensures r.Some? ==> exists i :: 0 <= i < |h| && h[i] == (k, r.value)
  {
    if h == [] then None
    else if h[0].0 == k then Some(h[0].1)
    else
      var r := Lookup(h[1..], k);
      assert forall i :: 0 <= i < |h[1..]| ==> h[1..][i] == h[i + 1];
      assert r.Some? ==> (exists i :: 0 <= i < |h[1..]| && h[1..][i] == (k, r.value));
      r
  }

  /** `h[k] = v`: an existing key keeps its place and takes the new value;
      a new key is appended. */
  function Store<K(==), V>(h: Entries<K, V>, k: K, v: V): (r: Entries<K, V>)
  {
    if h == [] then [(k, v)]
    else if h[0].0 == k then [(k, v)] + h[1..]
    else [h[0]] + Store(h[1..], k, v)
  }

  /** Stores each pair of ps into h, first to last. A hash literal is
      `Insert([], pairs)`; a later duplicate key overwrites an earlier one. */
  function Insert<K(==), V>(h: Entries<K, V>, ps: seq<(K, V)>): (r: Entries<K, V>)
    decreases |ps|
  {
    if ps == [] then h else Insert(Store(h, ps[0].0, ps[0].1), ps[1..])
  }

  /** The entries with key and value exchanged, in the same order. */
  function Swapped<K, V>(h: Entries<K, V>): (r: Entries<V, K>)
    ensures |r| == |h|
    ensures forall i :: 0 <= i < |h| ==> r[i] == (h[i].1, h[i].0)
  {
    seq(|h|, i requires 0 <= i < |h| => (h[i].1, h[i].0))
  }

  /** `Hash#invert`: walks the entries in order and stores value => key, so
      when two keys share a value the later key wins. */
  function Invert<K, V(==)>(h: Entries<K, V>): (r: Entries<V, K>)
  {
    Insert([], Swapped(h))
  }

  /** Storing a key not yet present appends it. */
  lemma {:induction false} StoreFresh<K, V>(h: Entries<K, V>, k: K, v: V)
    requires forall i :: 0 <= i < |h| ==> h[i].0 != k
    ensures Store(h, k, v) == h + [(k, v)]
  {
    if h != [] {
      StoreFresh(h[1..], k, v);
      assert [h[0]] + (h[1..] + [(k, v)]) == h + [(k, v)];
    }
  }

  /** Inserting pairs whose keys are distinct, and distinct from those already
      in h, appends them in order: nothing is overwritten. */
  lemma {:induction false} InsertDistinct<K, V>(h: Entries<K, V>, ps: seq<(K, V)>)
    requires DistinctKeys(h + ps)
    ensures Insert(h, ps) == h + ps
    decreases |ps|
  {
    if ps != [] {
      var hp := h + ps;
      forall i | 0 <= i < |h|
        ensures h[i].0 != ps[0].0
      {
        assert h[i] == hp[i] && ps[0] == hp[|h|];
      }
      StoreFresh(h, ps[0].0, ps[0].1);
      assert (h + [ps[0]]) + ps[1..] == hp;
      InsertDistinct(h + [ps[0]], ps[1..]);
    }
  }

  /** In a hash with distinct keys, looking up the key of entry i yields the
      value of entry i. */
  lemma {:induction false} LookupAt<K, V>(h: Entries<K, V>, i: nat)
    requires DistinctKeys(h)
    requires i < |h|
    ensures Lookup(h, h[i].0) == Some(h[i].1)
  {
    if i > 0 {
      assert h[0].0 != h[i].0;
      assert h[1..][i - 1] == h[i];
      LookupAt(h[1..], i - 1);
    }
  }

  /** A literal whose keys are distinct builds exactly its own entry list. */
  lemma LiteralDistinct<K, V>(ps: seq<(K, V)>)
    requires DistinctKeys(ps)
    ensures Insert([], ps) == ps
  {
    assert [] + ps == ps;
    InsertDistinct([], ps);
  }

  /** With distinct values, inverting loses nothing: the inverted hash is the
      swapped entry list, and it maps each value back to its own key. */
  lemma InvertExact<K, V>(h: Entries<K, V>)
    requires DistinctValues(h)
    ensures Invert(h) == Swapped(h)
    ensures DistinctKeys(Invert(h))
    ensures |Invert(h)| == |h|
  {
    LiteralDistinct(Swapped(h));
  }

  /** Round trip through `invert`: for a hash with distinct keys and distinct
      values, `h.invert[h[k]] == k` for every key k, and conversely every entry
      of the inverse points at a key of h that maps back to it. */
  lemma InvertRoundTrip<K, V>(h: Entries<K, V>, k: K)
    requires DistinctKeys(h) && DistinctValues(h)
    ensures Lookup(h, k).Some? ==> Lookup(Invert(h), Lookup(h, k).value) == Some(k)
  {
    if Lookup(h, k).Some? {
      var i :| 0 <= i < |h| && h[i] == (k, Lookup(h, k).value);
      LookupAt(h, i);
      InvertExact(h);
      LookupAt(Swapped(h), i);
    }
  }

  lemma InvertRoundTripBack<K, V>(h: Entries<K, V>, v: V)
    requires DistinctKeys(h) && DistinctValues(h)
    ensures Lookup(Invert(h), v).Some? ==> Lookup(h, Lookup(Invert(h), v).value) == Some(v)
  {
    InvertExact(h);
    if Lookup(Invert(h), v).Some? {
      var s := Swapped(h);
      var i :| 0 <= i < |s| && s[i] == (v, Lookup(s, v).value);
      LookupAt(h, i);
    }
  }
}

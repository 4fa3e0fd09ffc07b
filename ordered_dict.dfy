/** A Python `dict` as the store uses it: a finite map that remembers the order in which its
    keys were first inserted (iteration over `.items()` follows that order). */
module OrderedDict {

  datatype Dict<K, V> = Dict(keys: seq<K>, values: map<K, V>)

  /** Positions `i < j` of `s` hold different elements. */
  ghost predicate DistinctAt<K>(s: seq<K>, i: int, j: int) {
    0 <= i < j < |s| ==> s[i] != s[j]
  }

  /** No element occurs twice in `s`. The quantifier is instantiated only where a proof names
      `DistinctAt`, which keeps it out of unrelated proofs. */
  ghost predicate Distinct<K>(s: seq<K>) {
    forall i, j :: DistinctAt(s, i, j)
  }

  /** The keys are distinct and are exactly the keys of the map. */
  ghost predicate Valid<K(!new), V>(d: Dict<K, V>) {
    && Distinct(d.keys)
    && (forall k :: k in d.values <==> k in d.keys)
  }

  /** `{}` */
  function Empty<K(!new), V>(): (d: Dict<K, V>)
    ensures Valid(d) && |d.keys| == 0
  {
    Dict([], map[])
  }

  /** `d[k] = v`: a new key goes last, a key already present keeps its place. */
  function Put<K(!new), V>(d: Dict<K, V>, k: K, v: V): (r: Dict<K, V>)
    requires Valid(d)
    ensures Valid(r)
    ensures r.values == d.values[k := v]
    ensures k in d.values ==> r.keys == d.keys
    ensures k !in d.values ==> r.keys == d.keys + [k]
  {
    if k in d.values then
      Dict(d.keys, d.values[k := v])
    else
      AppendFresh(d.keys, k);
      Dict(d.keys + [k], d.values[k := v])
  }

  /** Appending an element that does not occur keeps a sequence distinct. */
  lemma AppendFresh<K>(s: seq<K>, k: K)
    requires Distinct(s) && k !in s
    ensures Distinct(s + [k])
  {
    var t := s + [k];
    forall a, b ensures DistinctAt(t, a, b) {
      if 0 <= a < b < |t| {
        assert DistinctAt(s, a, b);
        assert t[a] == s[a];
      }
    }
  }

  /** Position of `k` in `s`. */
  function IndexOf<K(==)>(s: seq<K>, k: K): (i: nat)
    requires k in s
    ensures i < |s| && s[i] == k
    ensures k !in s[..i]
  {
    if s[0] == k then 0 else 1 + IndexOf(s[1..], k)
  }

  /** `del d[k]` (a missing key raises `KeyError`, so callers ensure it is present). */
  function Remove<K(!new), V>(d: Dict<K, V>, k: K): (r: Dict<K, V>)
    requires Valid(d) && k in d.values
    ensures Valid(r)
    ensures r.values == d.values - {k}
    ensures |r.keys| == |d.keys| - 1
  {
    var i := IndexOf(d.keys, k);
    DropAt(d.keys, i);
    Dict(d.keys[..i] + d.keys[i + 1..], d.values - {k})
  }

  /** Dropping position `i` from a sequence without repetitions removes exactly `s[i]`. */
  lemma DropAt<K>(s: seq<K>, i: nat)
    requires i < |s|
    requires Distinct(s)
    ensures var t := s[..i] + s[i + 1..];
      && Distinct(t)
      && (forall x :: x in t <==> x in s && x != s[i])
  {
    var t := s[..i] + s[i + 1..];
    assert forall j :: 0 <= j < |t| ==> t[j] == s[if j < i then j else j + 1];
    forall a, b ensures DistinctAt(t, a, b) {
      if 0 <= a < b < |t| {
        assert DistinctAt(s, if a < i then a else a + 1, if b < i then b else b + 1);
      }
    }
    forall x | x in t ensures x != s[i] {
      var j :| 0 <= j < |t| && t[j] == x;
      var j' := if j < i then j else j + 1;
      assert DistinctAt(s, if j' < i then j' else i, if j' < i then i else j');
    }
    forall x | x in s && x != s[i] ensures x in t {
      var j :| 0 <= j < |s| && s[j] == x;
      assert t[if j < i then j else j - 1] == x;
    }
  }

  /** Putting `s[i]` back into the sequence without it, at position `i`, restores `s`. */
  lemma SpliceBack<K>(s: seq<K>, i: nat)
    requires i < |s|
    ensures var t := s[..i] + s[i + 1..];
      i <= |t| && s == t[..i] + [s[i]] + t[i..]
  {
    var t := s[..i] + s[i + 1..];
    assert t[..i] == s[..i];
    assert t[i..] == s[i + 1..];
  }

  /** Removing a key leaves the other keys in their original relative order: putting `k` back
      at its old position restores the original sequence. */
  lemma RemoveKeepsOrder<K(!new), V>(d: Dict<K, V>, k: K)
    requires Valid(d) && k in d.values
    ensures var ks := Remove(d, k).keys;
      exists i :: 0 <= i <= |ks| && d.keys == ks[..i] + [k] + ks[i..]
  {
    var i := IndexOf(d.keys, k);
    SpliceBack(d.keys, i);
    var ks := Remove(d, k).keys;
    assert d.keys == ks[..i] + [k] + ks[i..];
  }

  /** `d.clear()` */
  function Clear<K(!new), V>(d: Dict<K, V>): (r: Dict<K, V>)
    ensures Valid(r) && |r.keys| == 0 && |r.values| == 0
  {
    Empty()
  }

  /** `d.items()` in iteration order. */
  function Items<K(!new), V>(d: Dict<K, V>): (r: seq<(K, V)>)
    requires Valid(d)
    ensures |r| == |d.keys|
    ensures forall i :: 0 <= i < |r| ==> r[i].0 == d.keys[i] && r[i].0 in d.values && r[i].1 == d.values[r[i].0]
  {
    seq(|d.keys|, i requires 0 <= i < |d.keys| => (d.keys[i], d.values[d.keys[i]]))
  }
}

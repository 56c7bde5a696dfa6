/** Ruby's Hash: keys mapped to values, iterated in the order in which each key was
    first inserted. Keys are held by name (a Symbol key :resolution is "resolution"). */
module RubyHash {
  import opened Wrappers

  datatype Hash<V> = Hash(keys: seq<string>, vals: map<string, V>) {

    /** The keys are distinct and are exactly the domain of the map. */
    ghost predicate Valid() {
      && Distinct(keys)
      && (forall k :: k in vals <==> k in keys)
    }

    /** h[k], with None for a missing key. */
    function Fetch(k: string): Option<V> {
      if k in vals then Some(vals[k]) else None
    }

    /** h[k] = v: a new key goes last, an existing key keeps its place. */
    function Put(k: string, v: V): Hash<V> {
      Hash(if k in vals then keys else keys + [k], vals[k := v])
    }

    /** h.delete(k) */
    function Delete(k: string): Hash<V> {
      Hash(Without(keys, k), vals - {k})
    }
  }

  ghost predicate Distinct(s: seq<string>) {
    forall a, b :: 0 <= a < b < |s| ==> s[a] != s[b]
  }

  function Empty<V>(): Hash<V> {
    Hash([], map[])
  }

  function Without(s: seq<string>, k: string): (r: seq<string>)
    ensures forall x :: x in r <==> x in s && x != k
  {
    if s == [] then [] else (if s[0] == k then [] else [s[0]]) + Without(s[1..], k)
  }

  /** h.merge!(o): o's pairs stored into h one by one, in o's order. */
  function Merge<V>(h: Hash<V>, o: Hash<V>): Hash<V>
    requires forall k :: k in o.keys ==> k in o.vals
  {
    MergeKeys(h, o.keys, o.vals)
  }

  function MergeKeys<V>(h: Hash<V>, ks: seq<string>, vals: map<string, V>): Hash<V>
    requires forall k :: k in ks ==> k in vals
    decreases |ks|
  {
    if ks == [] then h else MergeKeys(h.Put(ks[0], vals[ks[0]]), ks[1..], vals)
  }

  /** Storing keeps a hash well formed, binds k to v and leaves every other key alone. */
  lemma PutSpec<V>(h: Hash<V>, k: string, v: V)
    requires h.Valid()
    ensures h.Put(k, v).Valid()
    ensures h.Put(k, v).Fetch(k) == Some(v)
    ensures forall k' :: k' != k ==> h.Put(k, v).Fetch(k') == h.Fetch(k')
    ensures k in h.keys ==> h.Put(k, v).keys == h.keys
    ensures k !in h.keys ==> h.Put(k, v).keys == h.keys + [k]
  {
  }

  /** Removing one key of a list of distinct keys keeps the others in order. */
  lemma {:induction false} WithoutAt(s: seq<string>, i: nat)
    requires i < |s|
    requires Distinct(s)
    ensures Without(s, s[i]) == s[..i] + s[i + 1..]
  {
    if i == 0 {
      assert s[0] !in s[1..];
      WithoutAbsent(s[1..], s[0]);
    } else {
      WithoutAt(s[1..], i - 1);
      assert s[1..][..i - 1] + s[1..][i..] == s[1..i] + s[i + 1..];
      assert s[..i] == [s[0]] + s[1..i];
    }
  }

  lemma {:induction false} WithoutAbsent(s: seq<string>, k: string)
    requires k !in s
    ensures Without(s, k) == s
  {
    if s != [] {
      WithoutAbsent(s[1..], k);
    }
  }

  lemma {:induction false} WithoutDistinct(s: seq<string>, k: string)
    requires Distinct(s)
    ensures Distinct(Without(s, k))
  {
    if s != [] {
      WithoutDistinct(s[1..], k);
      var t := Without(s[1..], k);
      assert s[0] !in s[1..];
      assert s[0] !in t;
      var r := Without(s, k);
      if s[0] != k {
        assert r == [s[0]] + t;
        forall a, b | 0 <= a < b < |r| ensures r[a] != r[b] {
          if a == 0 {
            assert r[b] == t[b - 1];
          } else {
            assert r[a] == t[a - 1] && r[b] == t[b - 1];
          }
        }
      } else {
        assert r == t;
      }
    }
  }

  /** Deleting keeps a hash well formed, drops exactly k and keeps the order of the rest. */
  lemma DeleteSpec<V>(h: Hash<V>, k: string)
    requires h.Valid()
    ensures h.Delete(k).Valid()
    ensures h.Delete(k).Fetch(k) == None
    ensures forall k' :: k' != k ==> h.Delete(k).Fetch(k') == h.Fetch(k')
    ensures k !in h.keys ==> h.Delete(k) == h
    ensures forall i :: 0 <= i < |h.keys| && h.keys[i] == k ==>
      h.Delete(k).keys == h.keys[..i] + h.keys[i + 1..]
  {
    WithoutDistinct(h.keys, k);
    if k !in h.keys {
      WithoutAbsent(h.keys, k);
      assert h.vals - {k} == h.vals;
    }
    forall i | 0 <= i < |h.keys| && h.keys[i] == k
      ensures h.Delete(k).keys == h.keys[..i] + h.keys[i + 1..]
    {
      WithoutAt(h.keys, i);
    }
  }

  /** The first i pairs of o, as a hash. */
  ghost function Prefix<V>(o: Hash<V>, i: nat): Hash<V>
    requires o.Valid() && i <= |o.keys|
  {
    Hash(o.keys[..i], map k | k in o.keys[..i] :: o.vals[k])
  }

  lemma PrefixStep<V>(o: Hash<V>, i: nat)
    requires o.Valid() && i < |o.keys|
    ensures Prefix(o, i).Put(o.keys[i], o.vals[o.keys[i]]) == Prefix(o, i + 1)
  {
    var k := o.keys[i];
    assert k !in o.keys[..i];
    assert o.keys[..i + 1] == o.keys[..i] + [k];
    var m := Prefix(o, i).vals[k := o.vals[k]];
    assert m.Keys == Prefix(o, i + 1).vals.Keys;
    assert m == Prefix(o, i + 1).vals;
  }

  lemma {:induction false} MergeSuffix<V>(o: Hash<V>, i: nat)
    requires o.Valid() && i <= |o.keys|
    ensures MergeKeys(Prefix(o, i), o.keys[i..], o.vals) == o
    decreases |o.keys| - i
  {
    if i == |o.keys| {
      assert o.keys[..i] == o.keys;
      assert Prefix(o, i).vals == o.vals;
    } else {
      var ks := o.keys[i..];
      assert ks[0] == o.keys[i] && ks[1..] == o.keys[i + 1..];
      PrefixStep(o, i);
      MergeSuffix(o, i + 1);
    }
  }

  /** Merging a hash into an empty one reproduces it, order included. */
  lemma MergeIntoEmpty<V>(o: Hash<V>)
    requires o.Valid()
    ensures Merge(Empty(), o) == o
  {
    MergeSuffix(o, 0);
    assert o.keys[..0] == [];
    assert Prefix(o, 0) == Empty();
    assert o.keys[0..] == o.keys;
  }
}

/**
 * Ruby's Hash as the architecture cache uses it, with the insertion order that
 * Ruby 1.9 and later guarantee: a finite map that also remembers the order in
 * which its keys were first inserted.  `each` visits
 * the keys in that order; assigning to a present key keeps its place, a new
 * key goes last, and `delete` drops the key from the order.
 */
module OrderedHash {

  /** No element occurs twice. */
  ghost predicate Distinct<K>(s: seq<K>) {
    forall i, j :: 0 <= i < j < |s| ==> s[i] != s[j]
  }

  /** `s` with every occurrence of `k` taken out, the others in their order. */
  function Without<K(==,!new)>(s: seq<K>, k: K): (r: seq<K>)
    ensures forall x :: x in r <==> x in s && x != k
    ensures Distinct(s) ==> Distinct(r)
    ensures k !in s ==> r == s
  {
    if s == [] then []
    else if s[0] == k then Without(s[1..], k)
    else
      var rest := Without(s[1..], k);
      assert Distinct(s) ==> Distinct(s[1..]) && s[0] !in rest;
      assert forall i :: 0 < i <= |rest| ==> ([s[0]] + rest)[i] == rest[i - 1];
      [s[0]] + rest
  }

  /** In a sequence without repetitions, removing `k` closes the gap where it stood. */
  lemma {:induction false} WithoutAt<K(!new)>(s: seq<K>, i: nat)
    requires Distinct(s) && i < |s|
    ensures Without(s, s[i]) == s[..i] + s[i + 1..]
    decreases |s|
  {
    if i == 0 {
      assert s[0] !in s[1..];
    } else {
      assert s[0] != s[i];
      assert s[1..][i - 1] == s[i];
      WithoutAt(s[1..], i - 1);
      calc {
        Without(s, s[i]);
        [s[0]] + Without(s[1..], s[i]);
        [s[0]] + (s[1..][..i - 1] + s[1..][i..]);
        { assert [s[0]] + s[1..][..i - 1] == s[..i]; assert s[1..][i..] == s[i + 1..]; }
        s[..i] + s[i + 1..];
      }
    }
  }

  /** A hash: its keys in insertion order and what each key maps to. */
  datatype Hash<K(==,!new), V> = Hash(keys: seq<K>, values: map<K, V>) {

    /** The key order lists every key of the map exactly once. */
    ghost predicate Wf() {
      Distinct(keys) && forall k :: k in keys <==> k in values
    }

    /** `hash[k] = v`. */
    function Put(k: K, v: V): (r: Hash<K, V>)
      requires Wf()
      ensures r.Wf()
      ensures k in r.values && r.values[k] == v
      ensures forall x :: x != k ==> (x in r.values <==> x in values)
      ensures forall x :: x != k && x in values ==> r.values[x] == values[x]
      ensures k in values ==> r.keys == keys
      ensures k !in values ==> r.keys == keys + [k]
    {
      assert forall i :: 0 <= i < |keys| ==> keys[i] in values;
      Hash(if k in values then keys else keys + [k], values[k := v])
    }

    /** `hash.delete(k)`. */
    function Delete(k: K): (r: Hash<K, V>)
      requires Wf()
      ensures r.Wf()
      ensures k !in r.values
      ensures forall x :: x != k ==> (x in r.values <==> x in values)
      ensures forall x :: x in r.values ==> r.values[x] == values[x]
      ensures k !in values ==> r == this
      ensures forall i :: 0 <= i < |keys| && keys[i] == k ==> r.keys == keys[..i] + keys[i + 1..]
    {
      forall i | 0 <= i < |keys| && keys[i] == k
        ensures Without(keys, k) == keys[..i] + keys[i + 1..]
      {
        WithoutAt(keys, i);
      }
      Hash(Without(keys, k), values - {k})
    }
  }

  /** `Hash.new`. */
  function Empty<K(==,!new), V>(): (h: Hash<K, V>)
    ensures h.Wf() && h.keys == [] && h.values == map[]
  {
    Hash([], map[])
  }
}

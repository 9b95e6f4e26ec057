/**
 * Ruby's insertion-ordered `Hash`, restricted to what `Spark::Component::Attr`
 * relies on: `keys`, `key?`, lookup (`[]`), store (`[]=`), `delete` and `merge!`.
 *
 * A hash is an ordered sequence of entries whose keys are pairwise distinct.
 * Storing under an existing key overwrites that entry where it stands;
 * storing under a new key appends it.
 */
module RubyHash {

  datatype Option<+T> = None | Some(value: T)

  /** `hash.keys`: the keys in insertion order. */
  function KeysOf<K, V>(es: seq<(K, V)>): (ks: seq<K>)
    ensures |ks| == |es|
  {
    if es == [] then [] else [es[0].0] + KeysOf(es[1..])
  }

  lemma {:induction false} KeysOfAt<K, V>(es: seq<(K, V)>, i: nat)
    requires i < |es|
    ensures KeysOf(es)[i] == es[i].0
  {
    if i > 0 {
      KeysOfAt(es[1..], i - 1);
    }
  }

  /** `hash.key?(k)` */
  predicate HasKey<K(==), V>(es: seq<(K, V)>, k: K) {
    es != [] && (es[0].0 == k || HasKey(es[1..], k))
  }

  /** The invariant of every Ruby hash: no key occurs twice. */
  ghost predicate UniqueKeys<K, V>(es: seq<(K, V)>) {
    es == [] || (!HasKey(es[1..], es[0].0) && UniqueKeys(es[1..]))
  }

  lemma {:induction false} HasKeyAppend<K, V>(a: seq<(K, V)>, b: seq<(K, V)>, k: K)
    ensures HasKey(a + b, k) <==> HasKey(a, k) || HasKey(b, k)
  {
    if a == [] {
      assert a + b == b;
    } else {
      assert (a + b)[1..] == a[1..] + b;
      HasKeyAppend(a[1..], b, k);
    }
  }

  /** A key occurs in a hash exactly when some entry carries it. */
  lemma {:induction false} HasKeyIndex<K, V>(es: seq<(K, V)>, k: K)
    ensures HasKey(es, k) <==> exists i :: 0 <= i < |es| && es[i].0 == k
  {
    if es != [] {
      HasKeyIndex(es[1..], k);
      if HasKey(es[1..], k) {
        var i :| 0 <= i < |es| - 1 && es[1..][i].0 == k;
        assert es[i + 1].0 == k;
      }
      if exists i :: 0 <= i < |es| && es[i].0 == k {
        var i :| 0 <= i < |es| && es[i].0 == k;
        if i > 0 {
          assert es[1..][i - 1].0 == k;
        }
      }
    }
  }

  /** Two hashes glued together form a hash when each is one and they share no key. */
  lemma {:induction false} UniqueKeysAppend<K, V>(a: seq<(K, V)>, b: seq<(K, V)>)
    ensures UniqueKeys(a + b) <==>
      UniqueKeys(a) && UniqueKeys(b) && forall k :: HasKey(a, k) ==> !HasKey(b, k)
  {
    if a == [] {
      assert a + b == b;
    } else {
      assert (a + b)[1..] == a[1..] + b;
      assert (a + b)[0] == a[0];
      UniqueKeysAppend(a[1..], b);
      HasKeyAppend(a[1..], b, a[0].0);
      forall k {
        HasKeyAppend(a[1..], b, k);
      }
    }
  }

  /** The entries before a position of a hash form a hash. */
  lemma PrefixUnique<K, V>(es: seq<(K, V)>, i: nat)
    requires UniqueKeys(es) && i <= |es|
    ensures UniqueKeys(es[..i])
  {
    assert es == es[..i] + es[i..];
    UniqueKeysAppend(es[..i], es[i..]);
  }

  /** `hash[k]`, with `None` for a missing key. */
  function Lookup<K(==), V>(es: seq<(K, V)>, k: K): (r: Option<V>)
    ensures r.None? <==> !HasKey(es, k)
  {
    if es == [] then None
    else if es[0].0 == k then Some(es[0].1)
    else Lookup(es[1..], k)
  }

  /** In a hash with distinct keys every entry is what a lookup of its key finds. */
  lemma {:induction false} LookupAt<K, V>(es: seq<(K, V)>, i: nat)
    requires UniqueKeys(es) && i < |es|
    ensures Lookup(es, es[i].0) == Some(es[i].1)
  {
    if i > 0 {
      HasKeyIndex(es[1..], es[0].0);
      assert es[1..][i - 1] == es[i];
      LookupAt(es[1..], i - 1);
    }
  }

  /** What a lookup finds is an entry of the hash. */
  lemma {:induction false} LookupFound<K, V>(es: seq<(K, V)>, k: K)
    requires Lookup(es, k).Some?
    ensures (k, Lookup(es, k).value) in es
  {
    if es[0].0 != k {
      LookupFound(es[1..], k);
    }
  }

  /** A lookup in a concatenation tries the left part first. */
  lemma {:induction false} LookupAppend<K, V>(a: seq<(K, V)>, b: seq<(K, V)>, k: K)
    ensures Lookup(a + b, k) == if HasKey(a, k) then Lookup(a, k) else Lookup(b, k)
  {
    if a != [] {
      assert (a + b)[1..] == a[1..] + b;
      LookupAppend(a[1..], b, k);
    } else {
      assert a + b == b;
    }
  }

  /** `hash[k] = v`: overwrite the entry of `k` where it stands, or append a new one. */
  function Store<K(==,!new), V>(es: seq<(K, V)>, k: K, v: V): (r: seq<(K, V)>)
    ensures Lookup(r, k) == Some(v)
    ensures forall k' :: k' != k ==> Lookup(r, k') == Lookup(es, k')
    ensures KeysOf(r) == if HasKey(es, k) then KeysOf(es) else KeysOf(es) + [k]
  {
    if es == [] then [(k, v)]
    else if es[0].0 == k then [(k, v)] + es[1..]
    else
      var tail := Store(es[1..], k, v);
      var r := [es[0]] + tail;
      assert r[0] == es[0] && r[1..] == tail;
      r
  }

  lemma {:induction false} StoreUnique<K(!new), V>(es: seq<(K, V)>, k: K, v: V)
    requires UniqueKeys(es)
    ensures UniqueKeys(Store(es, k, v))
  {
    if es != [] && es[0].0 != k {
      var r := Store(es, k, v);
      StoreUnique(es[1..], k, v);
      assert r[1..] == Store(es[1..], k, v);
      // the head key is neither in the old tail nor the stored key
      assert !HasKey(r[1..], es[0].0) by {
        assert Lookup(r[1..], es[0].0) == Lookup(es[1..], es[0].0);
      }
    }
  }

  /** `hash.delete(k)`, as far as the remaining entries go. */
  function Delete<K(==), V>(es: seq<(K, V)>, k: K): (r: seq<(K, V)>)
    ensures !HasKey(es, k) ==> r == es
  {
    if es == [] then []
    else if es[0].0 == k then es[1..]
    else
      var tail := Delete(es[1..], k);
      assert ([es[0]] + tail)[1..] == tail;
      [es[0]] + tail
  }

  /** Deleting a key removes exactly its entry and keeps the others in order. */
  lemma {:induction false} DeleteAt<K, V>(a: seq<(K, V)>, e: (K, V), b: seq<(K, V)>)
    requires !HasKey(a, e.0)
    ensures Delete(a + [e] + b, e.0) == a + b
  {
    if a == [] {
      assert a + [e] + b == [e] + b;
    } else {
      assert (a + [e] + b)[1..] == a[1..] + [e] + b;
      DeleteAt(a[1..], e, b);
      assert [a[0]] + (a[1..] + b) == a + b;
    }
  }

  /** `hash.delete(k)` on a key that sits between two parts: it returns the key's
      value and leaves the two parts joined. */
  lemma DeleteBetween<K, V>(a: seq<(K, V)>, e: (K, V), b: seq<(K, V)>)
    requires !HasKey(a, e.0)
    ensures Lookup(a + ([e] + b), e.0) == Some(e.1)
    ensures Delete(a + ([e] + b), e.0) == a + b
  {
    LookupAppend(a, [e] + b, e.0);
    DeleteAt(a, e, b);
    assert a + [e] + b == a + ([e] + b);
  }

  /** `self.merge!(other)`: store every entry of `other`, in order, into `self`.
      Keys of `other` win; every other entry of `self` is left as it was,
      and the entries of `self` keep their positions. */
  function Merge<K(==,!new), V>(a: seq<(K, V)>, b: seq<(K, V)>): (r: seq<(K, V)>)
    ensures UniqueKeys(b) ==>
      forall k :: Lookup(r, k) == if HasKey(b, k) then Lookup(b, k) else Lookup(a, k)
    ensures |a| <= |r| && KeysOf(r)[..|a|] == KeysOf(a)
    decreases |b|
  {
    if b == [] then a
    else
      var s := Store(a, b[0].0, b[0].1);
      var r := Merge(s, b[1..]);
      assert KeysOf(s)[..|a|] == KeysOf(a);
      r
  }

  lemma {:induction false} MergeUnique<K(!new), V>(a: seq<(K, V)>, b: seq<(K, V)>)
    requires UniqueKeys(a)
    ensures UniqueKeys(Merge(a, b))
    decreases |b|
  {
    if b != [] {
      StoreUnique(a, b[0].0, b[0].1);
      MergeUnique(Store(a, b[0].0, b[0].1), b[1..]);
    }
  }
}

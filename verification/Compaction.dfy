/**
 * `Attr#deep_compact`: drop every entry whose value is nil or empty, where a
 * nested hash counts as empty when compacting it leaves nothing. The compacted
 * nested hash is only used for that test: an entry that survives keeps its
 * original value, inner nils included.
 */
module Compaction {
  import opened RubyHash
  import opened Values

  /** The block of `deep_compact`'s `reject`: `val.nil? || val.respond_to?(:empty?) && val.empty?`,
      where a nested hash (a plain `Hash` or an `Attr`) is first compacted itself.
      Strings, symbols, arrays and hashes respond to `empty?`; booleans and integers do not. */
  predicate Rejected(v: Value) {
    match v
    case Nil => true
    case Bool(_) => false
    case Int(_) => false
    case Str(s) => s == []
    case Sym(name) => name == []
    case Array(items) => items == []
    case Hash(es) => forall i | 0 <= i < |es| :: Rejected(es[i].1)
    case NestedAttr(_, es) => forall i | 0 <= i < |es| :: Rejected(es[i].1)
  }

  /** `deep_compact(hash)`: the entries whose value is not rejected, in their order. */
  function DeepCompact(es: seq<Entry>): (r: seq<Entry>)
    ensures forall i :: 0 <= i < |r| ==> !Rejected(r[i].1)
    ensures forall e :: e in r ==> e in es
    ensures forall e :: e in es && !Rejected(e.1) ==> e in r
  {
    if es == [] then []
    else
      var tail := DeepCompact(es[1..]);
      assert forall e :: e in es ==> e == es[0] || e in es[1..];
      if Rejected(es[0].1) then tail else [es[0]] + tail
  }

  /** Compaction leaves nothing exactly when every value is rejected. */
  lemma {:induction false} DeepCompactEmptyIff(es: seq<Entry>)
    ensures DeepCompact(es) == [] <==> forall i | 0 <= i < |es| :: Rejected(es[i].1)
  {
    if es != [] {
      DeepCompactEmptyIff(es[1..]);
      assert forall i :: 0 < i < |es| ==> es[1..][i - 1] == es[i];
    }
  }

  /** Compaction keeps the survivors in their order: it works entry by entry. */
  lemma {:induction false} DeepCompactAppend(a: seq<Entry>, b: seq<Entry>)
    ensures DeepCompact(a + b) == DeepCompact(a) + DeepCompact(b)
  {
    if a == [] {
      assert a + b == b;
    } else {
      assert (a + b)[0] == a[0] && (a + b)[1..] == a[1..] + b;
      DeepCompactAppend(a[1..], b);
      if !Rejected(a[0].1) {
        assert [a[0]] + (DeepCompact(a[1..]) + DeepCompact(b)) ==
          ([a[0]] + DeepCompact(a[1..])) + DeepCompact(b);
      }
    }
  }

  /** A nested hash, plain or an `Attr` with any prefix, is rejected exactly when
      its own deep compaction is empty. */
  lemma RejectedHashIff(es: seq<Entry>, prefix: Option<string>)
    ensures Rejected(Hash(es)) <==> DeepCompact(es) == []
    ensures Rejected(NestedAttr(prefix, es)) <==> DeepCompact(es) == []
  {
    DeepCompactEmptyIff(es);
  }

  /** A lookup after compaction finds the original value exactly when it was not rejected. */
  lemma {:induction false} DeepCompactLookup(es: seq<Entry>, k: Key)
    requires UniqueKeys(es)
    ensures UniqueKeys(DeepCompact(es))
    ensures Lookup(DeepCompact(es), k) ==
      match Lookup(es, k)
      case Some(v) => if Rejected(v) then None else Some(v)
      case None => None
  {
    if es != [] {
      DeepCompactLookup(es[1..], k);
      var tail := DeepCompact(es[1..]);
      if !Rejected(es[0].1) {
        assert !HasKey(tail, es[0].0) by {
          DeepCompactLookup(es[1..], es[0].0);
        }
        assert ([es[0]] + tail)[1..] == tail;
      }
    }
  }

  /** Compaction leaves a surviving nested hash as it was: its inner nil stays,
      and `false` is kept where nil and `""` are dropped. */
  lemma CompactKeepsNestedContents()
    ensures
      var inner := Hash([(SymbolKey("foo"), Nil), (SymbolKey("bar"), Bool(true))]);
      DeepCompact([(SymbolKey("data"), inner), (SymbolKey("id"), Str("")), (SymbolKey("hidden"), Bool(false))])
        == [(SymbolKey("data"), inner), (SymbolKey("hidden"), Bool(false))]
  {
    var inner := Hash([(SymbolKey("foo"), Nil), (SymbolKey("bar"), Bool(true))]);
    assert !Rejected(inner) by {
      assert inner.entries[1].1 == Bool(true);
    }
    var es := [(SymbolKey("data"), inner), (SymbolKey("id"), Str("")), (SymbolKey("hidden"), Bool(false))];
    assert es[1..][1..] == [(SymbolKey("hidden"), Bool(false))];
    assert DeepCompact(es[1..][1..]) == [(SymbolKey("hidden"), Bool(false))];
    assert DeepCompact(es[1..]) == [(SymbolKey("hidden"), Bool(false))];
  }
}

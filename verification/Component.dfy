/**
 * `Spark::Component::Attr`: a hash of HTML attributes with an optional name
 * prefix. `add` cleans the hash it is given in place (dropping nil and empty
 * values, renaming underscored keys) and merges it in; `to_s` renders the
 * attributes as `name="value"` pairs.
 */
module Component {
  import opened RubyHash
  import opened Values
  import opened Compaction
  import opened KeyRenaming
  import opened Rendering

  /** The hash `add` merges in: no value is nil or empty, no key holds an
      underscore, and no key occurs twice. */
  lemma {:induction false} CleanedArgument(es: seq<Entry>, k: Key)
    requires UniqueKeys(es)
    ensures UniqueKeys(DasherizeKeys(DeepCompact(es)))
    ensures var r := Lookup(DasherizeKeys(DeepCompact(es)), k);
      r.Some? ==> !Rejected(r.value) && !Underscored(k)
  {
    var compacted := DeepCompact(es);
    DeepCompactLookup(es, k);
    DasherizeKeysLookup(compacted, k);
    var r := Lookup(DasherizeKeys(compacted), k);
    if r.Some? {
      DasherizeKeysValueFrom(compacted, k);
      if Underscored(k) {
        DasherizeKeysRemovesUnderscores(compacted, k);
      }
    }
  }

  class Attr {
    var entries: seq<Entry>
    const prefix: Option<string>

    ghost predicate Valid()
      reads this
    {
      UniqueKeys(entries)
    }

    /** `Attr.new(prefix: prefix)`: an empty attribute map. */
    constructor (prefix: Option<string>)
      ensures Valid() && entries == [] && this.prefix == prefix
    {
      entries := [];
      this.prefix := prefix;
    }

    /** `add(hash)`: a nil or empty argument changes nothing; otherwise the
        argument is cleaned in place and merged in, its keys winning. */
    method Add(hash: Table?) returns (r: Attr)
      requires Valid() && (hash != null ==> hash.Valid())
      modifies this, hash
      ensures r == this && Valid()
      ensures hash == null ==> entries == old(entries)
      ensures hash != null && old(hash.entries) == [] ==>
        entries == old(entries) && hash.entries == []
      ensures hash != null && old(hash.entries) != [] ==>
        && hash.entries == DasherizeKeys(DeepCompact(old(hash.entries)))
        && hash.Valid()
        && entries == Merge(old(entries), hash.entries)
      ensures hash != null ==>
        && (forall k :: Lookup(hash.entries, k).Some? ==>
              !Rejected(Lookup(hash.entries, k).value) && !Underscored(k))
        && (forall k :: Lookup(entries, k) ==
              if HasKey(hash.entries, k) then Lookup(hash.entries, k) else Lookup(old(entries), k))
        && KeysOf(entries)[..|old(entries)|] == KeysOf(old(entries))
    {
      if hash == null || hash.entries == [] {
        return this;
      }
      ghost var arg := hash.entries;
      DeepCompactInPlace(hash);
      DasherizeKeysInPlace(hash);
      forall k | Lookup(hash.entries, k).Some?
        ensures !Rejected(Lookup(hash.entries, k).value) && !Underscored(k)
      {
        CleanedArgument(arg, k);
      }
      MergeUnique(entries, hash.entries);
      entries := Merge(entries, hash.entries);
      return this;
    }

    /** `deep_compact!(hash)`: replace the contents of `hash` with its deep compaction. */
    method DeepCompactInPlace(hash: Table)
      requires hash.Valid()
      modifies hash
      ensures hash.entries == DeepCompact(old(hash.entries)) && hash.Valid()
    {
      DeepCompactLookup(hash.entries, SymbolKey(""));
      hash.entries := DeepCompact(hash.entries);
    }

    /** `dasherize_keys(hash)`: walk a snapshot of the keys, move the value of
        every underscored key into `obj` under its dashed String key, then merge
        `obj` back into `hash`. */
    method DasherizeKeysInPlace(hash: Table)
      requires hash.Valid()
      modifies hash
      ensures hash.entries == DasherizeKeys(old(hash.entries)) && hash.Valid()
    {
      ghost var es := hash.entries;
      var keys := KeysOf(hash.entries);
      var obj: seq<Entry> := [];
      var i := 0;
      while i < |keys|
        invariant 0 <= i <= |keys| == |es|
        invariant hash.entries == Kept(es[..i]) + es[i..]
        invariant obj == Renamed(es[..i])
      {
        var key := keys[i];
        KeysOfAt(es, i);
        GrowPrefix(es, i);
        if Underscored(key) {
          DeleteStep(es, i);
          var value := Lookup(hash.entries, key);
          assert key == es[i].0 && value == Some(es[i].1);
          hash.entries := Delete(hash.entries, key);
          obj := Store(obj, DashedKey(key), value.value);
          assert hash.entries == Kept(es[..i + 1]) + es[i + 1..];
          assert obj == Renamed(es[..i + 1]);
        }
        i := i + 1;
      }
      LoopDone(es);
      assert hash.entries == Kept(es) && obj == Renamed(es);
      hash.entries := Merge(hash.entries, obj);
      assert hash.entries == DasherizeKeys(es);
    }

    /** `to_s`: the sorted fragments joined by spaces. It is empty exactly when
        every value is nil or an empty nested `Attr`, and it holds the fragment
        of every other entry. */
    function ToS(show: Value -> string): (s: string)
      reads this
      ensures s == "" <==> forall i :: 0 <= i < |entries| ==> Silent(show, entries[i].1)
      ensures forall i :: 0 <= i < |entries| && !Silent(show, entries[i].1) ==>
        Occurs(FragmentOf(show, prefix, entries[i])[0], s)
    {
      RenderEmptyIff(show, prefix, entries);
      assert forall i :: 0 <= i < |entries| && !Silent(show, entries[i].1) ==>
        Occurs(FragmentOf(show, prefix, entries[i])[0], Render(show, prefix, entries)) by {
        forall i | 0 <= i < |entries| && !Silent(show, entries[i].1)
          ensures Occurs(FragmentOf(show, prefix, entries[i])[0], Render(show, prefix, entries))
        {
          FragmentOfEmptyIff(show, prefix, entries[i]);
          RenderContainsFragment(show, prefix, entries, i);
        }
      }
      Render(show, prefix, entries)
    }
  }
}

/**
 * `Attr#dasherize_keys`: every key whose `to_s` contains `_` is deleted and
 * its value stored, in a fresh hash, under the String key obtained by
 * dasherizing its name; that hash is then merged back. Keys without `_` stay
 * as they are, even when they hold other non-word characters.
 *
 * The functions here describe the loop step by step (`Kept`, `Renamed`) and
 * give an independent account of the outcome (`LastRenamedTo`); the loop
 * itself is `Component.Attr.DasherizeKeysInPlace`.
 */
module KeyRenaming {
  import opened RubyHash
  import opened Values
  import opened Names

  /** `key.to_s.include?("_")` */
  predicate Underscored(k: Key) {
    '_' in k.name
  }

  /** The String key an underscored key is re-inserted under. */
  function DashedKey(k: Key): (d: Key)
    ensures d.StringKey? && !Underscored(d)
  {
    NoUnderscore(k.name);
    StringKey(Dasherize(k.name))
  }

  /** What the loop leaves in the hash: the entries whose key has no underscore, in order. */
  function Kept(es: seq<Entry>): seq<Entry>
  {
    if es == [] then []
    else
      var last := es[|es| - 1];
      Kept(es[..|es| - 1]) + if Underscored(last.0) then [] else [last]
  }

  /** The hash `obj` the loop builds: each deleted value stored under its dashed key. */
  function Renamed(es: seq<Entry>): seq<Entry>
  {
    if es == [] then []
    else
      var last := es[|es| - 1];
      var init := Renamed(es[..|es| - 1]);
      if Underscored(last.0) then Store(init, DashedKey(last.0), last.1) else init
  }

  /** `dasherize_keys(hash)`: the new content of the hash. */
  function DasherizeKeys(es: seq<Entry>): seq<Entry> {
    Merge(Kept(es), Renamed(es))
  }

  /** The value of the last underscored entry whose dashed key is `d`, if any. */
  function LastRenamedTo(es: seq<Entry>, d: Key): Option<Value>
  {
    if es == [] then None
    else
      var last := es[|es| - 1];
      if Underscored(last.0) && DashedKey(last.0) == d then Some(last.1)
      else LastRenamedTo(es[..|es| - 1], d)
  }

  lemma SplitLast(es: seq<Entry>)
    requires es != []
    ensures es == es[..|es| - 1] + [es[|es| - 1]]
  {
  }

  /** Nothing is renamed onto `d` exactly when no underscored entry dashes to `d`. */
  lemma {:induction false} LastRenamedToNone(es: seq<Entry>, d: Key)
    ensures LastRenamedTo(es, d).None? <==>
      forall j :: 0 <= j < |es| ==> !(Underscored(es[j].0) && DashedKey(es[j].0) == d)
  {
    if es != [] {
      var init := es[..|es| - 1];
      LastRenamedToNone(init, d);
      assert forall j :: 0 <= j < |init| ==> init[j] == es[j];
    }
  }

  /** Nothing is ever renamed onto an underscored key. */
  lemma NothingRenamedOntoUnderscored(es: seq<Entry>, d: Key)
    requires Underscored(d)
    ensures LastRenamedTo(es, d).None?
  {
    LastRenamedToNone(es, d);
  }

  /** A renamed value is the value of an underscored entry renamed onto that key. */
  lemma {:induction false} LastRenamedToFrom(es: seq<Entry>, d: Key)
    requires LastRenamedTo(es, d).Some?
    ensures exists j ::
              && 0 <= j < |es| && Underscored(es[j].0) && DashedKey(es[j].0) == d
              && es[j].1 == LastRenamedTo(es, d).value
  {
    var init, last := es[..|es| - 1], es[|es| - 1];
    if !(Underscored(last.0) && DashedKey(last.0) == d) {
      LastRenamedToFrom(init, d);
      var j :|
        && 0 <= j < |init| && Underscored(init[j].0) && DashedKey(init[j].0) == d
        && init[j].1 == LastRenamedTo(init, d).value;
      assert es[j] == init[j];
    }
  }

  /** The last underscored entry renamed onto `d` provides the value of `d`. */
  lemma {:induction false} LastRenamedToAt(es: seq<Entry>, i: nat)
    requires i < |es| && Underscored(es[i].0)
    requires forall j :: i < j < |es| ==> !(Underscored(es[j].0) && DashedKey(es[j].0) == DashedKey(es[i].0))
    ensures LastRenamedTo(es, DashedKey(es[i].0)) == Some(es[i].1)
  {
    if i < |es| - 1 {
      var init := es[..|es| - 1];
      assert init[i] == es[i];
      LastRenamedToAt(init, i);
    }
  }

  /** The loop's `delete`s leave exactly the entries without underscore, still a hash. */
  lemma {:induction false} KeptLookup(es: seq<Entry>, k: Key)
    requires UniqueKeys(es)
    ensures UniqueKeys(Kept(es))
    ensures Lookup(Kept(es), k) == if Underscored(k) then None else Lookup(es, k)
  {
    if es != [] {
      var init, last := es[..|es| - 1], es[|es| - 1];
      SplitLast(es);
      UniqueKeysAppend(init, [last]);
      KeptLookup(init, k);
      KeptLookup(init, last.0);
      var tail: seq<Entry> := if Underscored(last.0) then [] else [last];
      assert Kept(es) == Kept(init) + tail;
      UniqueKeysAppend(Kept(init), tail);
      LookupAppend(Kept(init), tail, k);
      LookupAppend(init, [last], k);
    }
  }

  lemma GrowPrefix(es: seq<Entry>, i: nat)
    requires i < |es|
    ensures Underscored(es[i].0) ==>
      && Kept(es[..i + 1]) == Kept(es[..i])
      && Renamed(es[..i + 1]) == Store(Renamed(es[..i]), DashedKey(es[i].0), es[i].1)
    ensures !Underscored(es[i].0) ==>
      && Kept(es[..i + 1]) + es[i + 1..] == Kept(es[..i]) + es[i..]
      && Renamed(es[..i + 1]) == Renamed(es[..i])
  {
    assert es[..i + 1][..i] == es[..i];
    assert es[i..] == [es[i]] + es[i + 1..];
  }

  /** After the last turn the hash holds the kept entries and `obj` every renamed one. */
  lemma LoopDone(es: seq<Entry>)
    requires UniqueKeys(es)
    ensures Kept(es[..|es|]) + es[|es|..] == Kept(es) && Renamed(es[..|es|]) == Renamed(es)
    ensures UniqueKeys(DasherizeKeys(es))
  {
    assert es[..|es|] == es && es[|es|..] == [];
    DasherizeKeysLookup(es, SymbolKey(""));
  }

  /** An underscored key is never among the kept entries of a hash. */
  lemma {:induction false} NotKept(es: seq<Entry>, k: Key)
    requires Underscored(k)
    ensures !HasKey(Kept(es), k)
  {
    if es != [] {
      var init, last := es[..|es| - 1], es[|es| - 1];
      NotKept(init, k);
      HasKeyAppend(Kept(init), if Underscored(last.0) then [] else [last], k);
    }
  }

  /** One turn of the loop over the key snapshot, for an underscored key: the key
      still holds its original value, and deleting it leaves the hash the next
      turn expects. */
  lemma DeleteStep(es: seq<Entry>, i: nat)
    requires UniqueKeys(es) && i < |es| && Underscored(es[i].0)
    ensures Lookup(Kept(es[..i]) + es[i..], es[i].0) == Some(es[i].1)
    ensures Delete(Kept(es[..i]) + es[i..], es[i].0) == Kept(es[..i]) + es[i + 1..]
  {
    var kept, e, rest := Kept(es[..i]), es[i], es[i + 1..];
    assert es[i..] == [e] + rest;
    PrefixUnique(es, i);
    NotKept(es[..i], e.0);
    DeleteBetween(kept, e, rest);
  }

  /** `obj` is a hash that maps each dashed key to the last value renamed onto it. */
  lemma {:induction false} RenamedLookup(es: seq<Entry>, d: Key)
    ensures UniqueKeys(Renamed(es))
    ensures Lookup(Renamed(es), d) == LastRenamedTo(es, d)
  {
    if es != [] {
      var init, last := es[..|es| - 1], es[|es| - 1];
      RenamedLookup(init, d);
      if Underscored(last.0) {
        StoreUnique(Renamed(init), DashedKey(last.0), last.1);
      }
    }
  }

  /** After `dasherize_keys`, a key's value is the one last renamed onto it, or else
      its own value when it has no underscore; an underscored key is gone. */
  lemma DasherizeKeysLookup(es: seq<Entry>, d: Key)
    requires UniqueKeys(es)
    ensures UniqueKeys(DasherizeKeys(es))
    ensures Lookup(DasherizeKeys(es), d) ==
      if LastRenamedTo(es, d).Some? then LastRenamedTo(es, d)
      else if Underscored(d) then None
      else Lookup(es, d)
  {
    KeptLookup(es, d);
    RenamedLookup(es, d);
    MergeUnique(Kept(es), Renamed(es));
  }

  /** No key of the result contains an underscore. */
  lemma DasherizeKeysRemovesUnderscores(es: seq<Entry>, k: Key)
    requires UniqueKeys(es) && Underscored(k)
    ensures !HasKey(DasherizeKeys(es), k)
  {
    DasherizeKeysLookup(es, k);
    NothingRenamedOntoUnderscored(es, k);
  }

  /** An underscored entry's value sits under its dashed String key, unless a later
      underscored entry is renamed onto the same key. */
  lemma DasherizeKeysMovesValue(es: seq<Entry>, i: nat)
    requires UniqueKeys(es) && i < |es| && Underscored(es[i].0)
    requires forall j :: i < j < |es| ==> !(Underscored(es[j].0) && DashedKey(es[j].0) == DashedKey(es[i].0))
    ensures Lookup(DasherizeKeys(es), DashedKey(es[i].0)) == Some(es[i].1)
  {
    DasherizeKeysLookup(es, DashedKey(es[i].0));
    LastRenamedToAt(es, i);
  }

  /** A key without underscore keeps its value, unless some underscored key is renamed onto it. */
  lemma DasherizeKeysKeepsPlainKey(es: seq<Entry>, i: nat)
    requires UniqueKeys(es) && i < |es| && !Underscored(es[i].0)
    requires forall j :: 0 <= j < |es| ==> !(Underscored(es[j].0) && DashedKey(es[j].0) == es[i].0)
    ensures Lookup(DasherizeKeys(es), es[i].0) == Some(es[i].1)
  {
    DasherizeKeysLookup(es, es[i].0);
    LastRenamedToNone(es, es[i].0);
    LookupAt(es, i);
  }

  /** Every value after `dasherize_keys` is the value of some original entry. */
  lemma DasherizeKeysValueFrom(es: seq<Entry>, d: Key)
    requires UniqueKeys(es) && Lookup(DasherizeKeys(es), d).Some?
    ensures exists j :: 0 <= j < |es| && es[j].1 == Lookup(DasherizeKeys(es), d).value
  {
    DasherizeKeysLookup(es, d);
    if LastRenamedTo(es, d).Some? {
      LastRenamedToFrom(es, d);
    } else {
      LookupFound(es, d);
      var j :| 0 <= j < |es| && es[j] == (d, Lookup(es, d).value);
    }
  }
}

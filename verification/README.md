# Spark::Component::Attr in Dafny

`Spark::Component::Attr` (lib/spark/component/attr.rb) is the attribute map of the
spark-component view library: a Ruby `Hash` subclass with an optional name prefix.
It does two jobs.

- **`add(hash)`** accumulates attributes. It removes every nil or empty value from the
  caller's hash, recursing into nested hashes (`deep_compact!`). It then moves every
  key whose name contains `_` to a String key in which each run of non-alphanumeric
  characters is one `-` (`dasherize_keys`). Finally it merges the result into itself
  and returns itself.
- **`to_s`** renders the map as the attribute part of an HTML start tag. Each entry
  gives at most one fragment:
  - a nested `Attr` gives its own output;
  - any other non-nil value gives `name="value"`, with the name prefixed and
    dasherized;
  - nil gives nothing.

  The fragments are sorted and joined by single spaces.

The model has six modules.

- `RubyHash` models an insertion-ordered Ruby hash as a sequence of key/value pairs
  with distinct keys. It provides `keys`, `key?`, `[]`, `[]=`, `delete` and `merge!`.
  Storing under an existing key overwrites that entry in place; a new key is appended.
- `Values` holds the keys (Symbol or String), the values, and the class `Table`. A
  `Table` is the plain hash that `add` receives and changes in place.
- `Names` models `gsub(/[\W_]+/, "-")`. Ruby's `\w` is `[a-zA-Z0-9_]`, so every other
  character is a separator, non-ASCII letters included. The model uses the same sets.
  `Dasherize` works one character at a time. The lemmas fix where the hyphens go:
  a letter or digit is copied, a run of separators becomes one `-`, and dasherizing
  distributes over concatenation wherever the two parts do not meet inside a run.
- `Compaction` models `deep_compact`.
- `KeyRenaming` models `dasherize_keys`. It states the loop step by step (`Kept`,
  `Renamed`) and separately gives the final value of each key (`LastRenamedTo`).
- `Rendering` models `to_s`: Ruby's string order, sorting, `join(" ")`, and the
  fragment of one entry.

`Component.Attr` is the class itself. Its `entries` field changes in `Add`. `Add`,
`DeepCompactInPlace` and `DasherizeKeysInPlace` change the caller's `Table`, as the
Ruby methods do. `DasherizeKeysInPlace` is the loop over the snapshot of the keys,
proved against `KeyRenaming.DasherizeKeys`.

`dasherize_keys` deletes each underscored key when it copies the value
(`hash.delete(key)`, lib/spark/component/attr.rb:49), so the original key does not
survive next to the renamed one. In `deep_compact` the compacted nested hash is only
the argument of the emptiness test (lib/spark/component/attr.rb:42-43); `reject`
keeps the original value, so a nested hash that survives keeps its inner nils.

## Model

| member | source | states |
|---|---|---|
| RubyHash.KeysOf | lib/spark/component/attr.rb:48 | `hash.keys` has one key per entry, in entry order (with `RubyHash.KeysOfAt`) |
| RubyHash.KeysOfAt | lib/spark/component/attr.rb:48 | the i-th key of the snapshot is the key of the i-th entry |
| RubyHash.HasKey | lib/spark/component/attr.rb:49 | `hash.key?(k)`; `HasKeyIndex` ties it to the entries |
| RubyHash.HasKeyIndex | lib/spark/component/attr.rb:49 | a key is present exactly when some entry holds it |
| RubyHash.Lookup | lib/spark/component/attr.rb:49 | a lookup finds nothing exactly when the key is absent |
| RubyHash.LookupAt | lib/spark/component/attr.rb:49 | in a hash with distinct keys, looking up an entry's key gives that entry's value |
| RubyHash.Store | lib/spark/component/attr.rb:49 | after `obj[k] = v` the key holds `v`, every other key is unchanged, and a new key is appended after the old ones |
| RubyHash.StoreUnique | lib/spark/component/attr.rb:49 | storing keeps keys distinct |
| RubyHash.Delete | lib/spark/component/attr.rb:49 | deleting an absent key changes nothing |
| RubyHash.DeleteAt | lib/spark/component/attr.rb:49 | deleting a present key removes exactly its entry and keeps the others in order |
| RubyHash.DeleteBetween | lib/spark/component/attr.rb:49 | `hash.delete(key)` returns the key's value and leaves the entries around it joined |
| RubyHash.Merge | lib/spark/component/attr.rb:16 | `merge!` is right-biased: keys of the argument get the argument's value, other keys keep theirs, and existing keys keep their positions |
| RubyHash.MergeUnique | lib/spark/component/attr.rb:16 | merging keeps keys distinct |
| Names.IsSeparator | lib/spark/component/attr.rb:28 | the character class `[\W_]`: anything but an ASCII letter or digit, since Ruby's `\w` is `[a-zA-Z0-9_]`; `DasherizeSeparatorRun` and `DasherizeAppend` state how it drives the rewrite |
| Names.SkipSeparators | lib/spark/component/attr.rb:28 | the result is the suffix of the input after its leading separators, and starts with a letter or digit when not empty |
| Names.TrimTrailingSeparators | lib/spark/component/attr.rb:28 | the result is the prefix of the input before its trailing separators, and ends with a letter or digit when not empty |
| Names.Dasherize | lib/spark/component/attr.rb:28 | the result is empty exactly for empty input; it starts with `-` when the input starts with a separator, and otherwise with the input's first character |
| Names.DasherizeShape | lib/spark/component/attr.rb:28 | the result has `-` as its only separator, never two separators side by side, and keeps exactly the letters and digits of the input in order |
| Names.DasherizeSeparatorRun | lib/spark/component/attr.rb:28 | any non-empty run of separators becomes exactly one `-` |
| Names.DasherizeAppend | lib/spark/component/attr.rb:28 | dasherizing two strings joined together equals dasherizing each and joining the results, unless the first ends and the second starts with a separator |
| Names.DasherizeHyphenJoin | lib/spark/component/attr.rb:28 | in `x + "-" + y` the hyphen and the separators around it become one `-` between the dasherized parts of `x` and `y` |
| Names.DasherizeSnakeJoin | lib/spark/component/attr.rb:49 | two dasherized words joined by `_` come out joined by `-` |
| Names.DasherizeExample | test/spark/attribute_test.rb:92-98 | on an example, `some_data` is renamed to `some-data` |
| Names.NoUnderscore | lib/spark/component/attr.rb:49 | a dasherized name contains no `_` |
| Names.DasherizeFixes | lib/spark/component/attr.rb:28 | a string already in dasherized form is left unchanged |
| Names.DasherizeIdentityIff | lib/spark/component/attr.rb:28 | dasherizing leaves a string unchanged exactly when it is in dasherized form |
| Names.DasherizeIdempotent | lib/spark/component/attr.rb:28 | dasherizing twice equals dasherizing once |
| Compaction.Rejected | lib/spark/component/attr.rb:42-43 | the block of `reject`: nil, an empty string, symbol or array, or a nested hash whose values are all rejected; booleans and integers never |
| Compaction.DeepCompact | lib/spark/component/attr.rb:40-45 | every surviving entry is an unchanged entry of the input with a value that is not rejected, and every such entry of the input survives |
| Compaction.DeepCompactAppend | lib/spark/component/attr.rb:41 | compaction works entry by entry, so the survivors stay in their original order |
| Compaction.DeepCompactEmptyIff | lib/spark/component/attr.rb:41-44 | compaction leaves nothing exactly when every value is rejected |
| Compaction.RejectedHashIff | lib/spark/component/attr.rb:42-43 | a nested plain hash, or a nested `Attr` with any prefix, is rejected exactly when its own deep compaction is empty |
| Compaction.DeepCompactLookup | lib/spark/component/attr.rb:40-45 | after compaction a key keeps its original value when that value is not rejected; otherwise the key is gone. Keys stay distinct |
| Compaction.CompactKeepsNestedContents | lib/spark/component/attr.rb:41-44 | on an example, a surviving nested hash keeps its inner nil, `false` survives, and `""` is dropped |
| KeyRenaming.Underscored | lib/spark/component/attr.rb:49 | `key.to_s.include?("_")`; used by the lemmas below |
| KeyRenaming.Kept | lib/spark/component/attr.rb:49 | the hash after the deletes of the first turns; `KeptLookup` states what it holds |
| KeyRenaming.Renamed | lib/spark/component/attr.rb:48-49 | the hash `obj` after the first turns; `RenamedLookup` states what it holds |
| KeyRenaming.DasherizeKeys | lib/spark/component/attr.rb:47-51 | the new content of the hash, `Kept` merged with `Renamed`; `DasherizeKeysLookup` states what it holds |
| KeyRenaming.DashedKey | lib/spark/component/attr.rb:49 | a renamed key is a String key without `_` |
| KeyRenaming.KeptLookup | lib/spark/component/attr.rb:49 | the deletes leave exactly the keys without `_`, with their values |
| KeyRenaming.RenamedLookup | lib/spark/component/attr.rb:48-49 | `obj` maps each dashed key to the value of the last underscored key renamed onto it |
| KeyRenaming.LastRenamedToNone | lib/spark/component/attr.rb:49 | nothing is renamed onto a key exactly when no underscored key dashes to it |
| KeyRenaming.NothingRenamedOntoUnderscored | lib/spark/component/attr.rb:49 | nothing is renamed onto a key containing `_` |
| KeyRenaming.LastRenamedToAt | lib/spark/component/attr.rb:48-49 | the last underscored key that dashes to a name provides that name's value |
| KeyRenaming.LastRenamedToFrom | lib/spark/component/attr.rb:49 | a renamed value comes from an underscored key that dashes to that name |
| KeyRenaming.GrowPrefix | lib/spark/component/attr.rb:48-49 | one turn of the loop: an underscored key moves into `obj`; any other key stays in the hash |
| KeyRenaming.DeleteStep | lib/spark/component/attr.rb:49 | when the loop reaches an underscored key, the key still holds its original value, and deleting it leaves the hash the next turn expects |
| KeyRenaming.DasherizeKeysLookup | lib/spark/component/attr.rb:47-51 | after `dasherize_keys` a key holds the value last renamed onto it; otherwise it keeps its own value if it has no `_`; otherwise it is gone |
| KeyRenaming.DasherizeKeysRemovesUnderscores | lib/spark/component/attr.rb:49 | no key containing `_` survives |
| KeyRenaming.DasherizeKeysMovesValue | lib/spark/component/attr.rb:49 | an underscored key's value ends up under its dashed String key, unless a later underscored key is renamed onto the same name |
| KeyRenaming.DasherizeKeysKeepsPlainKey | lib/spark/component/attr.rb:49 | a key without `_` keeps its identity and value, even with other non-word characters, unless an underscored key is renamed onto it |
| KeyRenaming.DasherizeKeysValueFrom | lib/spark/component/attr.rb:48-49 | every value after renaming is the value of some original entry |
| Rendering.LexLe | lib/spark/component/attr.rb:31 | `String#<=>` as `sort` uses it: character by character, a proper prefix first. Ruby compares UTF-8 bytes and the model compares code points; the orders agree because UTF-8 preserves code-point order. `LexLeTotal`, `LexLeAntisymmetric` and `LexLeTransitive` make it a total order |
| Rendering.LexLeTotal | lib/spark/component/attr.rb:31 | Ruby's string order compares any two strings |
| Rendering.LexLeAntisymmetric | lib/spark/component/attr.rb:31 | two strings that are each at most the other are equal |
| Rendering.LexLeTransitive | lib/spark/component/attr.rb:31 | the string order is transitive |
| Rendering.Insert | lib/spark/component/attr.rb:31 | inserting into a sorted list gives a sorted list with one more copy of the element |
| Rendering.Sort | lib/spark/component/attr.rb:31 | `sort` returns a sorted permutation of its input |
| Rendering.SortedUnique | lib/spark/component/attr.rb:31 | two sorted lists with the same elements are equal |
| Rendering.Join | lib/spark/component/attr.rb:31 | `join(" ")`; `JoinEmptyIff` and `JoinContains` state its properties |
| Rendering.JoinEmptyIff | lib/spark/component/attr.rb:31 | `join(" ")` of non-empty fragments is empty exactly when there are no fragments |
| Rendering.JoinContains | lib/spark/component/attr.rb:31 | every fragment occurs in the joined string |
| Rendering.AttrName | lib/spark/component/attr.rb:28 | a rendered attribute name has no `_`, uses only `-` as separator, and never has two separators side by side |
| Rendering.AttrNameSeam | lib/spark/component/attr.rb:28 | exactly one `-` separates the dasherized prefix from the dasherized key, whatever separators either has at the seam |
| Rendering.AttrNameAlnums | lib/spark/component/attr.rb:28 | the name holds exactly the letters and digits of the prefix and then of the key |
| Rendering.Interpolate | lib/spark/component/attr.rb:29 | `"#{value}"`: a string as itself, a symbol as its name, booleans as `true`/`false`, anything else by `show` |
| Rendering.Pair | lib/spark/component/attr.rb:29 | `%(#{name}="#{value}")` |
| Rendering.Render | lib/spark/component/attr.rb:21-32 | the sorted fragments joined by spaces; the lemmas below state its properties |
| Rendering.FragmentsFrom | lib/spark/component/attr.rb:22 | the `each_with_object([])` fold: the fragments of the entries in map order; `FragmentsFromSuffix` equates it with `Fragments`, over which `FragmentsPermutation` is proved |
| Rendering.FragmentOf | lib/spark/component/attr.rb:23-29 | an entry contributes at most one fragment, and that fragment is not empty |
| Rendering.PlainFragments | lib/spark/component/attr.rb:29 | a nil value contributes nothing; `""` still contributes `name=""` |
| Rendering.NestedFragment | lib/spark/component/attr.rb:23-26 | a nested `Attr` contributes its own output whatever the parent's key and prefix, and nothing if that output is empty |
| Rendering.FragmentOfEmptyIff | lib/spark/component/attr.rb:23-29 | an entry contributes nothing exactly when its value is nil or a nested `Attr` that renders empty |
| Rendering.FragmentsPermutation | lib/spark/component/attr.rb:22 | reordering the entries only reorders the fragments |
| Rendering.RenderIsSortedJoin | lib/spark/component/attr.rb:21-31 | the output is any sorted arrangement of the fragments, joined by spaces |
| Rendering.RenderOrderIndependent | lib/spark/component/attr.rb:21-31 | two maps with the same entries in different order render the same |
| Rendering.RenderEmptyIff | lib/spark/component/attr.rb:21-31 | the output is `""` exactly when every value is nil or an empty nested `Attr` (so an empty map renders as `""`) |
| Rendering.RenderContainsFragment | lib/spark/component/attr.rb:21-31 | every entry's fragment occurs verbatim in the output |
| Values.Table.constructor | lib/spark/component/attr.rb:11 | the plain hash passed to `add` holds the given entries, with distinct keys |
| Component.CleanedArgument | lib/spark/component/attr.rb:14-15 | the cleaned argument has distinct keys, no nil or empty value and no key containing `_` |
| Component.Attr.constructor | lib/spark/component/attr.rb:6-9 | a new map is empty and has the given prefix |
| Component.Attr.Add | lib/spark/component/attr.rb:11-18 | `add(nil)` and `add({})` return self and change nothing. Otherwise the argument becomes its compacted, renamed form, and self becomes self merged with it: its keys win, other keys keep their values and positions. The result is self |
| Component.Attr.DeepCompactInPlace | lib/spark/component/attr.rb:36-38 | the argument's contents are replaced by their deep compaction |
| Component.Attr.DasherizeKeysInPlace | lib/spark/component/attr.rb:47-51 | the loop over the key snapshot leaves the argument equal to `DasherizeKeys` of its old contents |
| Component.Attr.ToS | lib/spark/component/attr.rb:21-32 | `to_s` is empty exactly when every value is nil or an empty nested `Attr`, and it contains the fragment of every other entry |

## Left out

- Rendering.Interpolate: `"#{value}"` is given concretely only for strings, symbols and
  booleans. Integers, arrays and plain (non-`Attr`) hashes are rendered by a `show`
  parameter, because their `to_s`/`inspect` formats are Ruby's generic rendering and
  not part of this class.
- Component.Attr.constructor: `Attr.new(*args, prefix:)` also forwards `*args` to
  `Hash.new` (a default value or block); hash defaults are not modelled, and a new
  map is always empty.
- Component.Attr.Add: the argument is a plain hash (`Table`). Passing an `Attr`, or the
  receiver itself (`attr.add(attr)`), is not modelled, so aliasing between the
  argument and the receiver is not covered.
- Component.Attr.Add: a nested `Attr` value is stored by value (`NestedAttr`). In Ruby it
  is a shared mutable object that `to_s` reads at render time
  (lib/spark/component/attr.rb:23-25), so a change to the child after it was added shows
  in the parent's output. The model does not capture that sharing.
- Ruby's `Hash#reject` on an `Attr` returns a plain `Hash`. The compacted nested value is
  only tested for emptiness, so its class does not matter and is not tracked.
- All other `Hash` methods that `Attr` inherits are not modelled.
- The `Attribute` module that test/spark/attribute_test.rb exercises (registry, default
  groups, `attr_hash`, `tag_attrs`, validation) is not part of this model. Neither is
  test/test_helper.rb (environment setup and HTML parsing).

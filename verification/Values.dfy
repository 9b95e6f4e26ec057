/**
 * The keys and values that a `Spark::Component::Attr` map holds, and the
 * plain Ruby `Hash` object that `Attr#add` receives and cleans in place.
 */
module Values {
  import opened RubyHash

  /** A hash key: a Ruby Symbol (`:data`) or a Ruby String (`"some-data"`).
      The two kinds never compare equal, even with the same name;
      `name` is the key's `to_s`. */
  datatype Key = SymbolKey(name: string) | StringKey(name: string)

  /** The values an attribute map can hold. `NestedAttr` is a nested
      `Spark::Component::Attr` (a `Hash` subclass carrying its own prefix);
      `Hash` is any other hash. */
  datatype Value =
    | Nil
    | Bool(b: bool)
    | Int(i: int)
    | Str(s: string)
    | Sym(name: string)
    | Array(items: seq<Value>)
    | Hash(entries: seq<(Key, Value)>)
    | NestedAttr(prefix: Option<string>, entries: seq<(Key, Value)>)

  type Entry = (Key, Value)

  /** A plain Ruby `Hash` object, as passed to `Attr#add`. */
  class Table {
    var entries: seq<Entry>

    ghost predicate Valid()
      reads this
    {
      UniqueKeys(entries)
    }

    constructor (entries: seq<Entry>)
      requires UniqueKeys(entries)
      ensures Valid() && this.entries == entries
    {
      this.entries := entries;
    }
  }
}

/**
 * `Attr#to_s`: one pass over the map that collects a fragment per entry,
 * then `sort.join(" ")`.
 *
 * - A nested `Attr` value contributes its own `to_s`, unless that is empty;
 *   the parent's key and prefix play no part in it.
 * - Any other non-nil value contributes `name="value"`, where `name` is
 *   `[prefix, key].compact.join("-")` dasherized.
 * - A nil value contributes nothing.
 */
module Rendering {
  import opened RubyHash
  import opened Values
  import opened Names

  // ---------------------------------------------------------------------------
  // Ordering and joining of fragments
  // ---------------------------------------------------------------------------

  /** `a <= b` under Ruby's `String#<=>`: character by character, a proper prefix first.
      Ruby compares the UTF-8 bytes of the two strings; this compares code points.
      The two orders agree: UTF-8 encodes a larger code point with a larger first
      differing byte, and a string's bytes start with a character's full encoding. */
  predicate LexLe(a: string, b: string) {
    a == [] || (b != [] && (a[0] < b[0] || (a[0] == b[0] && LexLe(a[1..], b[1..]))))
  }

  lemma {:induction false} LexLeTotal(a: string, b: string)
    ensures LexLe(a, b) || LexLe(b, a)
  {
    if a != [] && b != [] && a[0] == b[0] {
      LexLeTotal(a[1..], b[1..]);
    }
  }

  lemma {:induction false} LexLeAntisymmetric(a: string, b: string)
    requires LexLe(a, b) && LexLe(b, a)
    ensures a == b
  {
    if a != [] {
      LexLeAntisymmetric(a[1..], b[1..]);
      assert a == [a[0]] + a[1..] && b == [b[0]] + b[1..];
    }
  }

  lemma {:induction false} LexLeTransitive(a: string, b: string, c: string)
    requires LexLe(a, b) && LexLe(b, c)
    ensures LexLe(a, c)
  {
    if a != [] && a[0] == b[0] && b[0] == c[0] {
      LexLeTransitive(a[1..], b[1..], c[1..]);
    }
  }

  ghost predicate Sorted(fs: seq<string>) {
    forall i, j :: 0 <= i < j < |fs| ==> LexLe(fs[i], fs[j])
  }

  lemma SortedTail(a: seq<string>)
    requires Sorted(a) && a != []
    ensures Sorted(a[1..])
  {
    assert forall i :: 0 <= i < |a| - 1 ==> a[1..][i] == a[i + 1];
  }

  lemma SortedHeadBelowTail(a: seq<string>)
    requires Sorted(a) && a != []
    ensures forall i :: 0 <= i < |a| - 1 ==> LexLe(a[0], a[1..][i])
  {
    assert forall i :: 0 <= i < |a| - 1 ==> a[1..][i] == a[i + 1];
  }

  /** Putting a lower bound of a sorted list in front keeps it sorted. */
  lemma ConsSorted(y: string, t: seq<string>)
    requires Sorted(t) && forall j :: 0 <= j < |t| ==> LexLe(y, t[j])
    ensures Sorted([y] + t)
  {
    assert forall j :: 0 < j <= |t| ==> ([y] + t)[j] == t[j - 1];
  }

  /** A lower bound of the first element of a sorted list bounds all of it. */
  lemma BelowFirst(x: string, fs: seq<string>)
    requires Sorted(fs) && fs != [] && LexLe(x, fs[0])
    ensures forall j :: 0 <= j < |fs| ==> LexLe(x, fs[j])
  {
    forall j | 0 < j < |fs| ensures LexLe(x, fs[j]) {
      LexLeTransitive(x, fs[0], fs[j]);
    }
  }

  /** A lower bound of `x` and of every element of `rest` bounds any permutation of both. */
  lemma BelowAll(y: string, x: string, rest: seq<string>, t: seq<string>)
    requires LexLe(y, x) && forall j :: 0 <= j < |rest| ==> LexLe(y, rest[j])
    requires multiset(t) == multiset(rest) + multiset{x}
    ensures forall j :: 0 <= j < |t| ==> LexLe(y, t[j])
  {
    forall j | 0 <= j < |t| ensures LexLe(y, t[j]) {
      assert t[j] in multiset(t);
      if t[j] != x {
        assert t[j] in multiset(rest);
      }
    }
  }

  /** Insertion of one fragment into a sorted list. */
  function Insert(x: string, fs: seq<string>): (r: seq<string>)
    requires Sorted(fs)
    ensures Sorted(r)
    ensures multiset(r) == multiset(fs) + multiset{x}
  {
    if fs == [] then [x]
    else if LexLe(x, fs[0]) then
      BelowFirst(x, fs);
      ConsSorted(x, fs);
      [x] + fs
    else
      LexLeTotal(x, fs[0]);
      SortedTail(fs);
      SortedHeadBelowTail(fs);
      var t := Insert(x, fs[1..]);
      BelowAll(fs[0], x, fs[1..], t);
      ConsSorted(fs[0], t);
      assert fs == [fs[0]] + fs[1..];
      [fs[0]] + t
  }

  /** `array.sort`: a sorted permutation of the fragments. */
  function Sort(fs: seq<string>): (r: seq<string>)
    ensures Sorted(r)
    ensures multiset(r) == multiset(fs)
  {
    if fs == [] then []
    else
      assert fs == [fs[0]] + fs[1..];
      Insert(fs[0], Sort(fs[1..]))
  }

  /** Removing the same element from two permutations of each other leaves permutations. */
  lemma MultisetRemove<T>(a: seq<T>, b: seq<T>, j: nat)
    requires multiset(a) == multiset(b) && a != [] && j < |b| && b[j] == a[0]
    ensures multiset(a[1..]) == multiset(b[..j] + b[j + 1..])
  {
    assert a == [a[0]] + a[1..];
    assert b == b[..j] + [b[j]] + b[j + 1..];
    calc {
      multiset(a[1..]);
      multiset(a) - multiset{a[0]};
      multiset(b) - multiset{b[j]};
      multiset(b[..j] + b[j + 1..]);
    }
  }


  lemma SameHeadTail<T>(a: seq<T>, b: seq<T>)
    requires a != [] && b != [] && a[0] == b[0] && a[1..] == b[1..]
    ensures a == b
  {
    assert a == [a[0]] + a[1..] && b == [b[0]] + b[1..];
  }

  /** The first element of a sorted list is the least. */
  lemma SortedFirstLeast(a: seq<string>, x: string)
    requires Sorted(a) && x in multiset(a)
    ensures LexLe(a[0], x)
  {
    var k :| 0 <= k < |a| && a[k] == x;
    if k == 0 {
      LexLeTotal(x, x);
    }
  }

  /** Two sorted permutations of each other start alike. */
  lemma SortedSameHead(a: seq<string>, b: seq<string>)
    requires Sorted(a) && Sorted(b) && multiset(a) == multiset(b) && a != []
    ensures b != [] && a[0] == b[0]
  {
    assert a[0] in multiset(a);
    assert b != [];
    assert b[0] in multiset(b);
    SortedFirstLeast(a, b[0]);
    SortedFirstLeast(b, a[0]);
    LexLeAntisymmetric(a[0], b[0]);
  }

  /** There is only one sorted arrangement of a multiset of fragments. */
  lemma {:induction false} SortedUnique(a: seq<string>, b: seq<string>)
    requires Sorted(a) && Sorted(b) && multiset(a) == multiset(b)
    ensures a == b
  {
    if a != [] {
      SortedSameHead(a, b);
      MultisetRemove(a, b, 0);
      assert b[..0] + b[1..] == b[1..];
      SortedTail(a);
      SortedTail(b);
      SortedUnique(a[1..], b[1..]);
      SameHeadTail(a, b);
    }
  }

  /** `array.join(" ")` */
  function Join(fs: seq<string>): string {
    if fs == [] then ""
    else if |fs| == 1 then fs[0]
    else fs[0] + " " + Join(fs[1..])
  }

  /** Joining non-empty fragments gives the empty string only for no fragments at all. */
  lemma {:induction false} JoinEmptyIff(fs: seq<string>)
    requires forall j :: 0 <= j < |fs| ==> fs[j] != []
    ensures Join(fs) == [] <==> fs == []
  {
    if |fs| > 1 {
      assert (fs[0] + " " + Join(fs[1..]))[0] == fs[0][0];
    }
  }

  /** `f` occurs in `s` as a contiguous piece. */
  predicate Occurs(f: string, s: string) {
    f <= s || (s != [] && Occurs(f, s[1..]))
  }

  lemma {:induction false} OccursAppend(f: string, a: string, b: string)
    requires Occurs(f, b)
    ensures Occurs(f, a + b)
  {
    if a == [] {
      assert a + b == b;
    } else {
      OccursAppend(f, a[1..], b);
      assert (a + b)[1..] == a[1..] + b;
    }
  }

  /** Every fragment appears in the joined string. */
  lemma {:induction false} JoinContains(fs: seq<string>, j: nat)
    requires j < |fs|
    ensures Occurs(fs[j], Join(fs))
  {
    if |fs| > 1 {
      if j == 0 {
        assert fs[0] <= fs[0] + " " + Join(fs[1..]);
      } else {
        assert fs[1..][j - 1] == fs[j];
        JoinContains(fs[1..], j - 1);
        OccursAppend(fs[j], fs[0] + " ", Join(fs[1..]));
      }
    }
  }

  // ---------------------------------------------------------------------------
  // Fragments
  // ---------------------------------------------------------------------------

  /** `[@prefix, name].compact.join("-").gsub(/[\W_]+/, "-")` */
  function AttrName(prefix: Option<string>, k: Key): (r: string)
    ensures '_' !in r && Dasherized(r)
  {
    var joined := match prefix
      case None => k.name
      case Some(p) => p + "-" + k.name;
    NoUnderscore(joined);
    DasherizeShape(joined);
    Dasherize(joined)
  }

  /** Exactly one `-` separates the prefix part from the key part: separators at
      the end of the prefix and at the start of the key merge with it. */
  lemma AttrNameSeam(p: string, k: Key)
    ensures AttrName(Some(p), k) ==
      Dasherize(TrimTrailingSeparators(p)) + "-" + Dasherize(SkipSeparators(k.name))
  {
    DasherizeHyphenJoin(p, k.name);
  }

  lemma {:induction false} AlnumsAppend(a: string, b: string)
    ensures Alnums(a + b) == Alnums(a) + Alnums(b)
  {
    if a != [] {
      assert (a + b)[0] == a[0] && (a + b)[1..] == a[1..] + b;
      AlnumsAppend(a[1..], b);
    } else {
      assert a + b == b;
    }
  }

  /** A rendered name keeps exactly the letters and digits of the prefix and the key, in order. */
  lemma AttrNameAlnums(prefix: Option<string>, k: Key)
    ensures Alnums(AttrName(prefix, k)) ==
      match prefix
      case None => Alnums(k.name)
      case Some(p) => Alnums(p) + Alnums(k.name)
  {
    DasherizeShape(match prefix case None => k.name case Some(p) => p + "-" + k.name);
    if prefix.Some? {
      var p := prefix.value;
      AlnumsAppend(p + "-", k.name);
      AlnumsAppend(p, "-");
      assert Alnums("-") == [] by {
        assert IsSeparator('-');
      }
    }
  }

  /** `"#{value}"` for the values whose rendering the model fixes; every other
      value (integers, arrays, hashes) is rendered by `show`. */
  function Interpolate(show: Value -> string, v: Value): string {
    match v
    case Str(s) => s
    case Sym(name) => name
    case Bool(b) => if b then "true" else "false"
    case _ => show(v)
  }

  /** `name="value"` */
  function Pair(name: string, value: string): string {
    name + "=\"" + value + "\""
  }

  /** `Attr#to_s` of a map with the given prefix and entries. */
  function Render(show: Value -> string, prefix: Option<string>, es: seq<Entry>): string
    decreases NestedAttr(prefix, es), 1
  {
    Join(Sort(FragmentsFrom(show, prefix, es, 0)))
  }

  /** The fragments the fold collects from the entries at positions `i..`. */
  function FragmentsFrom(show: Value -> string, prefix: Option<string>, es: seq<Entry>, i: nat): seq<string>
    requires i <= |es|
    decreases NestedAttr(prefix, es), 0, |es| - i
  {
    if i == |es| then []
    else FragmentOf(show, prefix, es[i]) + FragmentsFrom(show, prefix, es, i + 1)
  }

  /** The block of the fold: what one entry adds to the array, at most one non-empty fragment. */
  function FragmentOf(show: Value -> string, prefix: Option<string>, e: Entry): (r: seq<string>)
    ensures |r| <= 1 && forall j :: 0 <= j < |r| ==> r[j] != []
    decreases e.1, 2
  {
    match e.1
    case NestedAttr(p, inner) =>
      var s := Render(show, p, inner);
      if s == [] then [] else [s]
    case Nil => []
    case _ => [Pair(AttrName(prefix, e.0), Interpolate(show, e.1))]
  }

  /** A nil value contributes no fragment, and an empty string still contributes `name=""`. */
  lemma PlainFragments(show: Value -> string, prefix: Option<string>, k: Key)
    ensures FragmentOf(show, prefix, (k, Nil)) == []
    ensures FragmentOf(show, prefix, (k, Str(""))) == [AttrName(prefix, k) + "=\"\""]
  {
    var name := AttrName(prefix, k);
    assert Pair(name, "") == name + "=\"\"";
  }

  /** A nested `Attr` contributes its own output, whatever the parent's key and prefix,
      and nothing when that output is empty. */
  lemma NestedFragment(show: Value -> string, prefix: Option<string>, k: Key,
                       otherPrefix: Option<string>, otherKey: Key, p: Option<string>, inner: seq<Entry>)
    ensures FragmentOf(show, prefix, (k, NestedAttr(p, inner))) ==
      FragmentOf(show, otherPrefix, (otherKey, NestedAttr(p, inner)))
    ensures FragmentOf(show, prefix, (k, NestedAttr(p, inner))) ==
      if Render(show, p, inner) == "" then [] else [Render(show, p, inner)]
  {
  }

  /** The fragments of all entries, in map order. */
  function Fragments(show: Value -> string, prefix: Option<string>, es: seq<Entry>): seq<string> {
    if es == [] then [] else FragmentOf(show, prefix, es[0]) + Fragments(show, prefix, es[1..])
  }

  lemma {:induction false} FragmentsFromSuffix(show: Value -> string, prefix: Option<string>, es: seq<Entry>, i: nat)
    requires i <= |es|
    ensures FragmentsFrom(show, prefix, es, i) == Fragments(show, prefix, es[i..])
    decreases |es| - i
  {
    if i < |es| {
      FragmentsFromSuffix(show, prefix, es, i + 1);
      assert es[i..][1..] == es[i + 1..];
    }
  }

  lemma {:induction false} FragmentsAppend(show: Value -> string, prefix: Option<string>, a: seq<Entry>, b: seq<Entry>)
    ensures Fragments(show, prefix, a + b) == Fragments(show, prefix, a) + Fragments(show, prefix, b)
  {
    if a == [] {
      assert a + b == b;
    } else {
      assert (a + b)[0] == a[0] && (a + b)[1..] == a[1..] + b;
      FragmentsAppend(show, prefix, a[1..], b);
    }
  }

  /** Taking one entry out of the map takes its fragment out of the fragments. */
  lemma FragmentsWithout(show: Value -> string, prefix: Option<string>, b: seq<Entry>, j: nat)
    requires j < |b|
    ensures multiset(Fragments(show, prefix, b)) ==
      multiset(Fragments(show, prefix, b[..j] + b[j + 1..])) + multiset(FragmentOf(show, prefix, b[j]))
  {
    assert b == b[..j] + [b[j]] + b[j + 1..];
    FragmentsAppend(show, prefix, b[..j] + [b[j]], b[j + 1..]);
    FragmentsAppend(show, prefix, b[..j], [b[j]]);
    FragmentsAppend(show, prefix, b[..j], b[j + 1..]);
    assert Fragments(show, prefix, [b[j]]) == FragmentOf(show, prefix, b[j]) by {
      assert [b[j]][1..] == [];
    }
  }

  /** The fragments depend only on the multiset of entries, not on their order. */
  lemma {:induction false} FragmentsPermutation(show: Value -> string, prefix: Option<string>, a: seq<Entry>, b: seq<Entry>)
    requires multiset(a) == multiset(b)
    ensures multiset(Fragments(show, prefix, a)) == multiset(Fragments(show, prefix, b))
  {
    if a != [] {
      assert a[0] in multiset(b) by {
        assert a[0] in multiset(a);
      }
      var j :| 0 <= j < |b| && b[j] == a[0];
      MultisetRemove(a, b, j);
      FragmentsPermutation(show, prefix, a[1..], b[..j] + b[j + 1..]);
      FragmentsWithout(show, prefix, b, j);
    }
  }

  /** The output is the sorted fragments joined by spaces: any sorted arrangement of
      the fragments, joined, is the output. */
  lemma RenderIsSortedJoin(show: Value -> string, prefix: Option<string>, es: seq<Entry>, fs: seq<string>)
    requires Sorted(fs) && multiset(fs) == multiset(Fragments(show, prefix, es))
    ensures Render(show, prefix, es) == Join(fs)
  {
    FragmentsFromSuffix(show, prefix, es, 0);
    assert es[0..] == es;
    SortedUnique(Sort(Fragments(show, prefix, es)), fs);
  }

  /** Insertion order never changes the output. */
  lemma RenderOrderIndependent(show: Value -> string, prefix: Option<string>, a: seq<Entry>, b: seq<Entry>)
    requires multiset(a) == multiset(b)
    ensures Render(show, prefix, a) == Render(show, prefix, b)
  {
    var fs := Sort(Fragments(show, prefix, b));
    FragmentsPermutation(show, prefix, a, b);
    RenderIsSortedJoin(show, prefix, a, fs);
    RenderIsSortedJoin(show, prefix, b, fs);
  }

  lemma {:induction false} FragmentsNonEmpty(show: Value -> string, prefix: Option<string>, es: seq<Entry>)
    ensures forall j :: 0 <= j < |Fragments(show, prefix, es)| ==> Fragments(show, prefix, es)[j] != []
    ensures Fragments(show, prefix, es) == [] <==>
      forall i :: 0 <= i < |es| ==> FragmentOf(show, prefix, es[i]) == []
  {
    if es != [] {
      FragmentsNonEmpty(show, prefix, es[1..]);
      assert forall i :: 0 < i < |es| ==> es[1..][i - 1] == es[i];
    }
  }

  /** An entry contributes nothing exactly when its value is nil or a nested `Attr` that renders empty. */
  predicate Silent(show: Value -> string, v: Value) {
    v == Nil || (v.NestedAttr? && Render(show, v.prefix, v.entries) == "")
  }

  lemma FragmentOfEmptyIff(show: Value -> string, prefix: Option<string>, e: Entry)
    ensures FragmentOf(show, prefix, e) == [] <==> Silent(show, e.1)
  {
  }

  /** The output is the fragments' sorted join. */
  lemma RenderFragments(show: Value -> string, prefix: Option<string>, es: seq<Entry>)
    ensures Render(show, prefix, es) == Join(Sort(Fragments(show, prefix, es)))
  {
    FragmentsFromSuffix(show, prefix, es, 0);
    assert es[0..] == es;
  }

  /** Sorting and joining non-empty fragments gives the empty string only for no fragments. */
  lemma JoinSortEmptyIff(frags: seq<string>)
    requires forall j :: 0 <= j < |frags| ==> frags[j] != []
    ensures Join(Sort(frags)) == [] <==> frags == []
  {
    var fs := Sort(frags);
    assert |fs| == |multiset(fs)| == |multiset(frags)| == |frags|;
    forall j | 0 <= j < |fs| ensures fs[j] != [] {
      assert fs[j] in multiset(frags);
    }
    JoinEmptyIff(fs);
  }

  /** Every fragment appears in the sorted join. */
  lemma JoinSortContains(frags: seq<string>, f: string)
    requires f in frags
    ensures Occurs(f, Join(Sort(frags)))
  {
    var fs := Sort(frags);
    assert f in multiset(fs) by {
      assert f in multiset(frags);
    }
    var j :| 0 <= j < |fs| && fs[j] == f;
    JoinContains(fs, j);
  }

  /** The output is empty exactly when every value is nil or a nested `Attr` that renders empty. */
  lemma RenderEmptyIff(show: Value -> string, prefix: Option<string>, es: seq<Entry>)
    ensures Render(show, prefix, es) == "" <==> forall i :: 0 <= i < |es| ==> Silent(show, es[i].1)
  {
    RenderFragments(show, prefix, es);
    FragmentsNonEmpty(show, prefix, es);
    JoinSortEmptyIff(Fragments(show, prefix, es));
    forall i | 0 <= i < |es| ensures FragmentOf(show, prefix, es[i]) == [] <==> Silent(show, es[i].1) {
      FragmentOfEmptyIff(show, prefix, es[i]);
    }
  }

  /** An entry's fragment is among the fragments of the whole map. */
  lemma FragmentsContain(show: Value -> string, prefix: Option<string>, es: seq<Entry>, i: nat)
    requires i < |es| && FragmentOf(show, prefix, es[i]) != []
    ensures FragmentOf(show, prefix, es[i])[0] in Fragments(show, prefix, es)
  {
    FragmentsWithout(show, prefix, es, i);
    assert FragmentOf(show, prefix, es[i])[0] in multiset(FragmentOf(show, prefix, es[i]));
    assert FragmentOf(show, prefix, es[i])[0] in multiset(Fragments(show, prefix, es));
  }

  /** Each entry's fragment appears verbatim in the output: `name="value"` for a
      non-nil plain value, the nested output for a non-empty nested `Attr`. */
  lemma RenderContainsFragment(show: Value -> string, prefix: Option<string>, es: seq<Entry>, i: nat)
    requires i < |es| && !Silent(show, es[i].1)
    ensures Occurs(FragmentOf(show, prefix, es[i])[0], Render(show, prefix, es))
  {
    FragmentOfEmptyIff(show, prefix, es[i]);
    FragmentsContain(show, prefix, es, i);
    RenderFragments(show, prefix, es);
    JoinSortContains(Fragments(show, prefix, es), FragmentOf(show, prefix, es[i])[0]);
  }
}

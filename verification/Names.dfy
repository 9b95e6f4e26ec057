/**
 * `s.gsub(/[\W_]+/, "-")`: every maximal run of characters that are not
 * ASCII letters or digits becomes one hyphen. `Attr` applies it to the keys
 * it renames and to every attribute name it renders.
 */
module Names {

  /** `\w`: an ASCII letter, digit or underscore. */
  predicate IsWordChar(c: char) {
    'a' <= c <= 'z' || 'A' <= c <= 'Z' || '0' <= c <= '9' || c == '_'
  }

  /** `[\W_]`: any character but an ASCII letter or digit. */
  predicate IsSeparator(c: char) {
    !IsWordChar(c) || c == '_'
  }

  /** The characters of `s` that survive dasherizing: its letters and digits, in order. */
  function Alnums(s: string): string {
    if s == [] then []
    else if IsSeparator(s[0]) then Alnums(s[1..])
    else [s[0]] + Alnums(s[1..])
  }

  /** What follows the leading run of separators of `s`. */
  function SkipSeparators(s: string): (r: string)
    ensures |r| <= |s| && r == s[|s| - |r|..]
    ensures forall i :: 0 <= i < |s| - |r| ==> IsSeparator(s[i])
    ensures r == [] || !IsSeparator(r[0])
  {
    if s != [] && IsSeparator(s[0]) then
      assert forall i :: 0 <= i < |s| - 1 ==> s[1..][i] == s[i + 1];
      SkipSeparators(s[1..])
    else s
  }

  /** What precedes the trailing run of separators of `s`. */
  function TrimTrailingSeparators(s: string): (r: string)
    ensures |r| <= |s| && r == s[..|r|]
    ensures forall i :: |r| <= i < |s| ==> IsSeparator(s[i])
    ensures r == [] || !IsSeparator(r[|r| - 1])
  {
    if s != [] && IsSeparator(s[|s| - 1]) then TrimTrailingSeparators(s[..|s| - 1]) else s
  }

  /** No separator other than `-`, and never two separators side by side. */
  ghost predicate Dasherized(r: string) {
    && (forall i :: 0 <= i < |r| && IsSeparator(r[i]) ==> r[i] == '-')
    && (forall i :: 0 <= i < |r| - 1 ==> !(IsSeparator(r[i]) && IsSeparator(r[i + 1])))
  }

  /** `s.gsub(/[\W_]+/, "-")`, one character at a time: a letter or digit is
      copied, and a separator gives a `-` when it ends its run. */
  function Dasherize(s: string): (r: string)
    ensures s == [] <==> r == []
    ensures s != [] && IsSeparator(s[0]) ==> r[0] == '-'
    ensures s != [] && !IsSeparator(s[0]) ==> r[0] == s[0]
  {
    if s == [] then []
    else
      var tail := Dasherize(s[1..]);
      if !IsSeparator(s[0]) then [s[0]] + tail
      else if s[1..] != [] && IsSeparator(s[1]) then tail
      else "-" + tail
  }

  /** The result of dasherizing is in dasherized form (no separator but `-`, never
      two side by side) and keeps exactly the letters and digits of the input, in order. */
  lemma {:induction false} DasherizeShape(s: string)
    ensures Dasherized(Dasherize(s))
    ensures Alnums(Dasherize(s)) == Alnums(s)
  {
    if s != [] {
      var tail := Dasherize(s[1..]);
      DasherizeShape(s[1..]);
      var r := Dasherize(s);
      if !IsSeparator(s[0]) {
        assert r == [s[0]] + tail && r[1..] == tail;
      } else if !(s[1..] != [] && IsSeparator(s[1])) {
        assert r == "-" + tail && r[1..] == tail;
        assert tail != [] ==> tail[0] == s[1..][0];
      }
    }
  }

  /** A dasherized string contains no underscore. */
  lemma NoUnderscore(s: string)
    ensures '_' !in Dasherize(s)
  {
    DasherizeShape(s);
    assert IsSeparator('_');
  }

  lemma DasherizedTail(r: string)
    requires r != [] && Dasherized(r)
    ensures Dasherized(r[1..])
    ensures IsSeparator(r[0]) ==> r[0] == '-' && (|r| == 1 || !IsSeparator(r[1]))
  {
    assert forall i :: 0 <= i < |r| - 1 ==> r[1..][i] == r[i + 1];
  }

  /** Strings that are already in dasherized form are left alone. */
  lemma {:induction false} DasherizeFixes(r: string)
    requires Dasherized(r)
    ensures Dasherize(r) == r
  {
    if r != [] {
      DasherizedTail(r);
      DasherizeFixes(r[1..]);
      if IsSeparator(r[0]) {
        assert Dasherize(r) == "-" + r[1..];
      }
      assert [r[0]] + r[1..] == r;
    }
  }

  /** Dasherizing changes a string exactly when it holds an underscore, another
      non-alphanumeric character than `-`, or two such characters side by side. */
  lemma DasherizeIdentityIff(s: string)
    ensures Dasherize(s) == s <==> Dasherized(s)
  {
    DasherizeShape(s);
    if Dasherized(s) {
      DasherizeFixes(s);
    }
  }

  /** Dasherizing twice is dasherizing once. */
  lemma DasherizeIdempotent(s: string)
    ensures Dasherize(Dasherize(s)) == Dasherize(s)
  {
    DasherizeShape(s);
    DasherizeFixes(Dasherize(s));
  }

  /** A separator in front joins the run that follows it, or starts a new one. */
  lemma DasherizeSeparatorCons(c: char, s: string)
    requires IsSeparator(c)
    ensures Dasherize([c] + s) == if s != [] && IsSeparator(s[0]) then Dasherize(s) else "-" + Dasherize(s)
  {
    var cs := [c] + s;
    assert cs[0] == c && cs[1..] == s;
  }

  /** A letter or digit in front is kept. */
  lemma DasherizeWordCons(c: char, s: string)
    requires !IsSeparator(c)
    ensures Dasherize([c] + s) == [c] + Dasherize(s)
  {
    var cs := [c] + s;
    assert cs[0] == c && cs[1..] == s;
  }

  /** Dasherizing works piecewise wherever the cut does not fall inside a run of
      separators: the pieces are dasherized separately and put side by side. */
  lemma {:induction false} DasherizeAppend(x: string, y: string)
    requires x == [] || y == [] || !IsSeparator(x[|x| - 1]) || !IsSeparator(y[0])
    ensures Dasherize(x + y) == Dasherize(x) + Dasherize(y)
    decreases |x|
  {
    if x == [] {
      assert x + y == y;
    } else if y == [] {
      assert x + y == x;
    } else {
      var c, x' := x[0], x[1..];
      assert x == [c] + x' && x + y == [c] + (x' + y);
      if x' == [] {
        assert x == [c] && x + y == [c] + y;
        DasherizeCharAppend(c, y);
      } else {
        assert x'[|x'| - 1] == x[|x| - 1];
        DasherizeAppend(x', y);
        DasherizeConsAppend(c, x', y);
      }
    }
  }

  /** The base case of `DasherizeAppend`: one character in front. */
  lemma DasherizeCharAppend(c: char, y: string)
    requires y != [] && (!IsSeparator(c) || !IsSeparator(y[0]))
    ensures Dasherize([c] + y) == Dasherize([c]) + Dasherize(y)
  {
    assert [c] + [] == [c];
    if IsSeparator(c) {
      DasherizeSeparatorCons(c, y);
      DasherizeSeparatorCons(c, []);
    } else {
      DasherizeWordCons(c, y);
      DasherizeWordCons(c, []);
    }
  }

  /** One step of `DasherizeAppend`: a character put in front of both sides. */
  lemma DasherizeConsAppend(c: char, x: string, y: string)
    requires x != [] && Dasherize(x + y) == Dasherize(x) + Dasherize(y)
    ensures Dasherize([c] + (x + y)) == Dasherize([c] + x) + Dasherize(y)
  {
    if IsSeparator(c) {
      DasherizeSeparatorConsAppend(c, x, y);
    } else {
      DasherizeWordConsAppend(c, x, y);
    }
  }

  lemma {:induction false} DasherizeSeparatorConsAppend(c: char, x: string, y: string)
    requires IsSeparator(c)
    requires x != [] && Dasherize(x + y) == Dasherize(x) + Dasherize(y)
    ensures Dasherize([c] + (x + y)) == Dasherize([c] + x) + Dasherize(y)
  {
    var xy := x + y;
    assert xy != [] && xy[0] == x[0];
    DasherizeSeparatorCons(c, xy);
    DasherizeSeparatorCons(c, x);
    if !IsSeparator(x[0]) {
      AppendAssoc("-", Dasherize(x), Dasherize(y));
    }
  }

  lemma AppendAssoc<T>(a: seq<T>, b: seq<T>, c: seq<T>)
    ensures a + (b + c) == (a + b) + c
  {
  }

  lemma {:induction false} DasherizeWordConsAppend(c: char, x: string, y: string)
    requires !IsSeparator(c)
    requires Dasherize(x + y) == Dasherize(x) + Dasherize(y)
    ensures Dasherize([c] + (x + y)) == Dasherize([c] + x) + Dasherize(y)
  {
    DasherizeWordCons(c, x + y);
    DasherizeWordCons(c, x);
    AppendAssoc([c], Dasherize(x), Dasherize(y));
  }

  /** A non-empty run of separators, whatever its length, becomes one hyphen. */
  lemma {:induction false} DasherizeSeparatorRun(s: string)
    requires s != [] && forall i :: 0 <= i < |s| ==> IsSeparator(s[i])
    ensures Dasherize(s) == "-"
  {
    if |s| > 1 {
      assert s[1..][0] == s[1];
      DasherizeSeparatorRun(s[1..]);
    }
  }

  /** A letter or digit is kept as it is. */
  lemma DasherizeWordChar(c: char)
    requires !IsSeparator(c)
    ensures Dasherize([c]) == [c]
  {
    assert [c][1..] == [];
  }

  /** Joining two strings with `-` and dasherizing gives exactly one hyphen at the
      seam: the separators that end `x`, the `-` and the separators that start `y`
      make one run. */
  lemma {:induction false} DasherizeHyphenJoin(x: string, y: string)
    ensures Dasherize(x + "-" + y) ==
      Dasherize(TrimTrailingSeparators(x)) + "-" + Dasherize(SkipSeparators(y))
  {
    var head, tail := TrimTrailingSeparators(x), SkipSeparators(y);
    var run := SeamRun(x, y);
    DasherizeAppend(head, run + tail);
    assert tail == [] || !IsSeparator(tail[0]);
    DasherizeAppend(run, tail);
    DasherizeSeparatorRun(run);
    AppendAssoc(Dasherize(head), "-", Dasherize(tail));
  }

  /** `x + "-" + y` cut around its seam: the run of separators made of the end of
      `x`, the `-` and the start of `y`. */
  lemma SeamRun(x: string, y: string) returns (run: string)
    ensures x + "-" + y == TrimTrailingSeparators(x) + (run + SkipSeparators(y))
    ensures run != [] && forall i :: 0 <= i < |run| ==> IsSeparator(run[i])
  {
    var head, tail := TrimTrailingSeparators(x), SkipSeparators(y);
    var before, after := x[|head|..], y[..|y| - |tail|];
    assert x == head + before && y == after + tail;
    run := before + "-" + after;
    Regroup(head, before, "-", after, tail);
    SeamIsSeparators(before, after);
  }

  lemma SeamIsSeparators(before: string, after: string)
    requires forall i :: 0 <= i < |before| ==> IsSeparator(before[i])
    requires forall i :: 0 <= i < |after| ==> IsSeparator(after[i])
    ensures forall i :: 0 <= i < |before + "-" + after| ==> IsSeparator((before + "-" + after)[i])
  {
    assert IsSeparator('-');
  }

  lemma Regroup<T>(h: seq<T>, b: seq<T>, m: seq<T>, a: seq<T>, t: seq<T>)
    ensures (h + b) + m + (a + t) == h + ((b + m + a) + t)
  {
  }

  /** Two dasherized words joined by `_` come out joined by `-`. */
  lemma {:induction false} DasherizeSnakeJoin(x: string, y: string)
    requires x != [] && !IsSeparator(x[|x| - 1]) && Dasherized(x)
    requires y != [] && !IsSeparator(y[0]) && Dasherized(y)
    ensures Dasherize(x + "_" + y) == x + "-" + y
  {
    assert x + "_" + y == x + (['_'] + y);
    DasherizeAppend(x, ['_'] + y);
    DasherizeSeparatorCons('_', y);
    DasherizeFixes(x);
    DasherizeFixes(y);
    AppendAssoc(x, "-", y);
  }

  /** `some_data` becomes `some-data`. The two words are parameters fixed by the
      requires so that the proof goes through `DasherizeSnakeJoin` rather than
      unfolding `Dasherize` on a nine-character literal. */
  lemma {:induction false} DasherizeExample(x: string, y: string)
    requires x == "some" && y == "data"
    ensures Dasherize(x + "_" + y) == "some-data"
  {
    assert Dasherized(x) && Dasherized(y);
    DasherizeSnakeJoin(x, y);
  }
}

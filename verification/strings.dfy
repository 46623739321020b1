/** String helpers standing in for the Ruby core methods and regular expressions the compiler
    applies to file names and symbol names. Strings are sequences of code points. */
module Strings {

  import opened Results

  /** Ruby's `\s` class: space, tab, line feed, carriage return, form feed, vertical tab. */
  predicate IsSpace(c: char) {
    c == ' ' || c == '\t' || c == '\n' || c == '\r' || c == '\U{000C}' || c == '\U{000B}'
  }

  predicate NoSpace(s: string) {
    forall i :: 0 <= i < |s| ==> !IsSpace(s[i])
  }

  predicate StartsWith(s: string, prefix: string) {
    |prefix| <= |s| && s[..|prefix|] == prefix
  }

  predicate EndsWith(s: string, suffix: string) {
    |suffix| <= |s| && s[|s| - |suffix|..] == suffix
  }

  /** `q` occurs in `s` starting at index `i`. */
  predicate OccursAt(s: string, i: nat, q: string) {
    i + |q| <= |s| && s[i..i + |q|] == q
  }

  /** Ruby `String#include?`: `q` is a substring of `s`. */
  predicate Contains(s: string, q: string) {
    exists i: nat :: i <= |s| && OccursAt(s, i, q)
  }

  // ---------------------------------------------------------------------------------------
  // Line-anchored matching: in a Ruby regular expression `^` matches at the start of the
  // string and right after every line feed.

  /** `/^AWS::/`-style test: some line of `s` starts with `prefix`. */
  predicate SomeLineStartsWith(s: string, prefix: string) {
    exists i: nat :: i <= |s| && (i == 0 || s[i - 1] == '\n') && OccursAt(s, i, prefix)
  }

  /** The pseudo-parameter namespace of CloudFormation (`AWS::Region`, `AWS::StackName`, ...). */
  const PseudoPrefix: string := "AWS::"

  /** The test `name =~ /^AWS::/` of the validators: a name starting `AWS::` passes, and a
      single-line name passes only then. */
  predicate IsPseudoParameter(name: string)
    ensures StartsWith(name, PseudoPrefix) ==> IsPseudoParameter(name)
    ensures '\n' !in name ==> (IsPseudoParameter(name) <==> StartsWith(name, PseudoPrefix))
  {
    LineStartOfOneLine(name, PseudoPrefix);
    SomeLineStartsWith(name, PseudoPrefix)
  }

  /** A line-anchored prefix test agrees with a plain one on a string without line feeds. */
  lemma LineStartOfOneLine(s: string, prefix: string)
    ensures StartsWith(s, prefix) ==> SomeLineStartsWith(s, prefix)
    ensures '\n' !in s ==> (SomeLineStartsWith(s, prefix) <==> StartsWith(s, prefix))
  {
    if StartsWith(s, prefix) {
      assert OccursAt(s, 0, prefix) by {
        assert s[0..|prefix|] == s[..|prefix|];
      }
    }
    if '\n' !in s && SomeLineStartsWith(s, prefix) {
      var i: nat :| i <= |s| && (i == 0 || s[i - 1] == '\n') && OccursAt(s, i, prefix);
      assert i == 0;
      assert s[..|prefix|] == s[0..|prefix|];
    }
  }

  /** Index of the first line feed of `s`, or `|s|` when there is none. */
  function LineEnd(s: string): (k: nat)
    ensures k <= |s|
    ensures forall i :: 0 <= i < k ==> s[i] != '\n'
    ensures k < |s| ==> s[k] == '\n'
  {
    if |s| == 0 || s[0] == '\n' then 0 else 1 + LineEnd(s[1..])
  }

  // ---------------------------------------------------------------------------------------
  // Ruby `File.basename(path)`.

  function StripTrailingSlashes(s: string): (r: string)
    ensures |r| <= |s| && r == s[..|r|]
    ensures |r| > 0 ==> r[|r| - 1] != '/'
    ensures forall i :: |r| <= i < |s| ==> s[i] == '/'
  {
    if |s| > 0 && s[|s| - 1] == '/' then StripTrailingSlashes(s[..|s| - 1]) else s
  }

  /** The text after the last `/` of `s` (all of `s` when it has none). */
  function AfterLastSlash(s: string): (r: string)
    ensures '/' !in r
    ensures |r| <= |s| && r == s[|s| - |r|..]
    ensures |r| < |s| ==> s[|s| - |r| - 1] == '/'
  {
    if |s| == 0 then ""
    else if s[|s| - 1] == '/' then ""
    else AfterLastSlash(s[..|s| - 1]) + [s[|s| - 1]]
  }

  /** Ruby `File.basename`: trailing slashes are ignored, a path made only of slashes is `/`,
      and a path without any slash is its own base name. */
  function Basename(path: string): (r: string)
    ensures r == "/" || '/' !in r
    ensures |path| > 0 ==> |r| > 0
    ensures '/' !in path ==> r == path
  {
    var t := StripTrailingSlashes(path);
    if |t| == 0 then (if |path| == 0 then "" else "/")
    else
      var a := AfterLastSlash(t);
      assert '/' !in t ==> a == t by {
        if '/' !in t && |a| < |t| {
          assert t[|t| - |a| - 1] in t;
        }
      }
      a
  }

  lemma {:induction false} AfterLastSlashOfJoin(dir: string, name: string)
    requires '/' !in name
    ensures AfterLastSlash(dir + "/" + name) == name
    decreases |name|
  {
    var s := dir + "/" + name;
    if |name| == 0 {
      assert s[|s| - 1] == '/';
    } else {
      var init := name[..|name| - 1];
      assert s[..|s| - 1] == dir + "/" + init;
      assert s[|s| - 1] == name[|name| - 1];
      AfterLastSlashOfJoin(dir, init);
      assert init + [name[|name| - 1]] == name;
    }
  }

  /** The directory part of a glob result never leaks into its base name. */
  lemma BasenameOfJoin(dir: string, name: string)
    requires |name| > 0 && '/' !in name
    ensures Basename(dir + "/" + name) == name
  {
    var s := dir + "/" + name;
    assert s[|s| - 1] == name[|name| - 1];
    assert StripTrailingSlashes(s) == s;
    AfterLastSlashOfJoin(dir, name);
  }

  // ---------------------------------------------------------------------------------------
  // Ruby `gsub(/\.(a|b)/, '')` with literal alternatives.

  /** Index of the first alternative in `pats` that starts `s` (regex alternation order). */
  function FirstPrefix(s: string, pats: seq<string>): (r: Option<nat>)
    ensures r.Some? ==> r.value < |pats| && StartsWith(s, pats[r.value])
    ensures r.Some? ==> forall j :: 0 <= j < r.value ==> !StartsWith(s, pats[j])
    ensures r.None? ==> forall j :: 0 <= j < |pats| ==> !StartsWith(s, pats[j])
  {
    if |pats| == 0 then None
    else if StartsWith(s, pats[0]) then Some(0)
    else
      match FirstPrefix(s, pats[1..])
      case None => None
      case Some(k) => Some(k + 1)
  }

  predicate NonEmptyAll(pats: seq<string>) {
    forall j :: 0 <= j < |pats| ==> |pats[j]| > 0
  }

  /** Ruby `gsub` removing every leftmost, non-overlapping occurrence of the alternatives. */
  function RemoveAll(s: string, pats: seq<string>): (r: string)
    requires NonEmptyAll(pats)
    ensures |r| <= |s|
    decreases |s|
  {
    if |s| == 0 then ""
    else
      match FirstPrefix(s, pats)
      case Some(k) => RemoveAll(s[|pats[k]|..], pats)
      case None => [s[0]] + RemoveAll(s[1..], pats)
  }

  /** A string free of every alternative is left as it is. */
  lemma {:induction false} RemoveAllOfFree(s: string, pats: seq<string>)
    requires NonEmptyAll(pats) && FreeOf(s, pats)
    ensures RemoveAll(s, pats) == s
    decreases |s|
  {
    if |s| > 0 {
      forall j | 0 <= j < |pats| ensures !StartsWith(s, pats[j]) {
        StartsAtZero(s, pats[j]);
      }
      FreeOfTail(s, pats);
      RemoveAllOfFree(s[1..], pats);
      assert [s[0]] + s[1..] == s;
    }
  }

  /** Extension-like alternatives: each starts with a dot, has no other dot, and none is a
      prefix of another. `.json|.yaml` and `.rb|.yaml` are such lists. */
  predicate DotSuffixes(pats: seq<string>) {
    && NonEmptyAll(pats)
    && (forall j :: 0 <= j < |pats| ==> pats[j][0] == '.' && '.' !in pats[j][1..])
    && (forall j, l :: 0 <= j < |pats| && 0 <= l < |pats| && StartsWith(pats[l], pats[j]) ==> pats[j] == pats[l])
  }

  predicate FreeOf(s: string, pats: seq<string>) {
    forall i, j :: 0 <= i < |s| && 0 <= j < |pats| ==> !OccursAt(s, i, pats[j])
  }

  lemma FreeOfTail(s: string, pats: seq<string>)
    requires |s| > 0 && FreeOf(s, pats)
    ensures FreeOf(s[1..], pats)
  {
    forall i, j | 0 <= i < |s[1..]| && 0 <= j < |pats|
      ensures !OccursAt(s[1..], i, pats[j])
    {
      var q := pats[j];
      if i + |q| <= |s[1..]| {
        assert s[1..][i..i + |q|] == s[i + 1..i + 1 + |q|];
      }
      assert OccursAt(s[1..], i, q) == OccursAt(s, i + 1, q);
    }
  }

  lemma DotOnlyFirst(q: string, i: nat)
    requires 0 < i < |q| && '.' !in q[1..]
    ensures q[i] != '.'
  {
    assert q[1..][i - 1] == q[i];
  }

  lemma StartsAtZero(s: string, q: string)
    ensures StartsWith(s, q) == OccursAt(s, 0, q)
  {
    if |q| <= |s| {
      assert s[0..|q|] == s[..|q|];
    }
  }

  /** A dot-led alternative cannot start inside `name` and run into the appended suffix. */
  lemma NoAlternativeStarts(name: string, pats: seq<string>, k: nat)
    requires DotSuffixes(pats) && k < |pats|
    requires |name| > 0 && FreeOf(name, pats)
    ensures FirstPrefix(name + pats[k], pats).None?
  {
    var p := pats[k];
    var s := name + p;
    forall j | 0 <= j < |pats|
      ensures !StartsWith(s, pats[j])
    {
      var q := pats[j];
      if |q| <= |name| {
        assert s[..|q|] == name[..|q|];
        StartsAtZero(name, q);
      } else {
        CrossingImpossible(name, p, q);
      }
    }
  }

  lemma CrossingImpossible(name: string, p: string, q: string)
    requires 0 < |name| < |q| && |p| > 0 && p[0] == '.' && '.' !in q[1..]
    ensures !StartsWith(name + p, q)
  {
    if StartsWith(name + p, q) {
      DotOnlyFirst(q, |name|);
      assert false;
    }
  }

  /** An alternative alone is removed entirely. */
  lemma RemoveAllOfAlternative(pats: seq<string>, k: nat)
    requires DotSuffixes(pats) && k < |pats|
    ensures RemoveAll(pats[k], pats) == ""
  {
    var p := pats[k];
    var r := FirstPrefix(p, pats);
    assert StartsWith(p, pats[k]);
    assert StartsWith(pats[k], pats[r.value]);
    assert pats[r.value] == p;
    assert p[|p|..] == "";
  }

  /** Where no alternative starts, `gsub` keeps the first character. */
  lemma RemoveAllKeeps(s: string, pats: seq<string>)
    requires NonEmptyAll(pats) && |s| > 0 && FirstPrefix(s, pats).None?
    ensures RemoveAll(s, pats) == [s[0]] + RemoveAll(s[1..], pats)
  {
  }

  /** Stripping the extensions inverts appending one: `RemoveAll(name + ext) == name`. */
  lemma {:induction false} RemoveAllStripsSuffix(name: string, pats: seq<string>, k: nat)
    requires DotSuffixes(pats) && k < |pats|
    requires FreeOf(name, pats)
    ensures RemoveAll(name + pats[k], pats) == name
    decreases |name|
  {
    var p := pats[k];
    var s := name + p;
    if |name| == 0 {
      assert s == p;
      RemoveAllOfAlternative(pats, k);
    } else {
      NoAlternativeStarts(name, pats, k);
      RemoveAllKeeps(s, pats);
      assert s[1..] == name[1..] + p;
      FreeOfTail(name, pats);
      RemoveAllStripsSuffix(name[1..], pats, k);
      assert [name[0]] + name[1..] == name;
    }
  }

  // ---------------------------------------------------------------------------------------
  // ASCII case folding for the `/i` flag.

  function Lower(c: char): char {
    if 'A' <= c <= 'Z' then (c as int - 'A' as int + 'a' as int) as char else c
  }

  function LowerAll(s: string): (r: string)
    ensures |r| == |s|
    ensures forall i :: 0 <= i < |s| ==> r[i] == Lower(s[i])
  {
    if |s| == 0 then "" else [Lower(s[0])] + LowerAll(s[1..])
  }

  /** `s =~ /<suffix>\z/i` for a lower-case literal suffix. */
  predicate EndsWithIgnoringCase(s: string, suffix: string) {
    EndsWith(LowerAll(s), suffix)
  }

  // ---------------------------------------------------------------------------------------
  // Ruby `String#<=>` order (code point by code point) and `Array#sort` on strings.

  predicate LessEq(a: string, b: string) {
    if |a| == 0 then true
    else if |b| == 0 then false
    else if a[0] != b[0] then a[0] < b[0]
    else LessEq(a[1..], b[1..])
  }

  lemma LessEqTotal(a: string, b: string)
    ensures LessEq(a, b) || LessEq(b, a)
  {
  }

  lemma LessEqAntisymmetric(a: string, b: string)
    requires LessEq(a, b) && LessEq(b, a)
    ensures a == b
  {
    if |a| > 0 && |b| > 0 {
      LessEqAntisymmetric(a[1..], b[1..]);
      assert a == [a[0]] + a[1..] && b == [b[0]] + b[1..];
    }
  }

  lemma LessEqTransitive(a: string, b: string, c: string)
    requires LessEq(a, b) && LessEq(b, c)
    ensures LessEq(a, c)
  {
    if |a| > 0 && |b| > 0 && |c| > 0 && a[0] == b[0] == c[0] {
      LessEqTransitive(a[1..], b[1..], c[1..]);
    }
  }

  predicate Sorted(s: seq<string>) {
    forall i, j :: 0 <= i < j < |s| ==> LessEq(s[i], s[j])
  }

  function Insert(x: string, s: seq<string>): seq<string> {
    if |s| == 0 then [x]
    else if LessEq(x, s[0]) then [x] + s
    else [s[0]] + Insert(x, s[1..])
  }

  lemma {:induction false} InsertCounts(x: string, s: seq<string>)
    ensures multiset(Insert(x, s)) == multiset(s) + multiset{x}
  {
    if |s| > 0 && !LessEq(x, s[0]) {
      InsertCounts(x, s[1..]);
      assert s == [s[0]] + s[1..];
    }
  }

  /** Inserting into an ordered list keeps it ordered. */
  lemma {:induction false} InsertSorted(x: string, s: seq<string>)
    requires Sorted(s)
    ensures Sorted(Insert(x, s))
  {
    if |s| == 0 {
    } else if LessEq(x, s[0]) {
      forall j | 0 <= j < |s| ensures LessEq(x, s[j]) {
        if j > 0 {
          LessEqTransitive(x, s[0], s[j]);
        }
      }
      ConsSorted(x, s);
    } else {
      LessEqTotal(x, s[0]);
      SortedTail(s);
      InsertSorted(x, s[1..]);
      HeadBelowInsert(x, s);
      ConsSorted(s[0], Insert(x, s[1..]));
    }
  }

  lemma SortedTail(s: seq<string>)
    requires |s| > 0 && Sorted(s)
    ensures Sorted(s[1..])
  {
    var tail := s[1..];
    forall i, j | 0 <= i < j < |tail| ensures LessEq(tail[i], tail[j]) {
      assert tail[i] == s[i + 1] && tail[j] == s[j + 1];
    }
  }

  /** Inserting an element above the head of a sorted sequence into its tail keeps every
      element above the head. */
  lemma HeadBelowInsert(x: string, s: seq<string>)
    requires |s| > 0 && Sorted(s) && LessEq(s[0], x)
    ensures forall j :: 0 <= j < |Insert(x, s[1..])| ==> LessEq(s[0], Insert(x, s[1..])[j])
  {
    var tail := s[1..];
    InsertCounts(x, tail);
    var t := Insert(x, tail);
    forall j | 0 <= j < |t| ensures LessEq(s[0], t[j]) {
      assert t[j] in multiset(t);
      if t[j] != x {
        assert t[j] in multiset(tail);
        var m :| 0 <= m < |tail| && tail[m] == t[j];
        assert s[m + 1] == t[j];
      }
    }
  }

  lemma ConsSorted(a: string, t: seq<string>)
    requires Sorted(t) && forall j :: 0 <= j < |t| ==> LessEq(a, t[j])
    ensures Sorted([a] + t)
  {
    var r := [a] + t;
    forall i, j | 0 <= i < j < |r| ensures LessEq(r[i], r[j]) {
      if i > 0 {
        assert r[i] == t[i - 1] && r[j] == t[j - 1];
      } else {
        assert r[j] == t[j - 1];
      }
    }
  }

  /** Ruby `Array#sort` on strings: an ordered permutation of the input. */
  function Sort(s: seq<string>): (r: seq<string>)
    ensures Sorted(r)
    ensures multiset(r) == multiset(s)
  {
    if |s| == 0 then []
    else
      assert s == [s[0]] + s[1..];
      InsertSorted(s[0], Sort(s[1..]));
      InsertCounts(s[0], Sort(s[1..]));
      Insert(s[0], Sort(s[1..]))
  }
}

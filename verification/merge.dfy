/** The body of `load_dir` in the simple compiler: the fragments found for one section are
    filtered, read and merged into a single Hash, refusing an item defined twice. */
module SectionMerge {

  import opened Results
  import opened Document
  import opened Strings

  /** What reading and parsing a fragment file gave. Parsing itself is not modelled. */
  datatype Content =
    | Unreadable
    | Blank                       // zero-length file
    | Parsed(doc: Node)
    | Malformed(message: string)  // the JSON or YAML parser raised

  datatype Fragment = Fragment(path: string, content: Content)

  datatype MergeError =
    | SelectionUnusable(dir: string)  // `include?` sent to a number or `true`
    | ReadFailed(path: string)
    | ParseFailed(path: string, message: string)
    | NotAHash(path: string)          // `keys` sent to a parsed value that is not a Hash
    | DuplicateItem(key: string)

  /** `filename =~ /\.(json|ya?ml)\z/i` */
  predicate IsStructured(path: string) {
    EndsWithIgnoringCase(path, ".json") || EndsWithIgnoringCase(path, ".yaml") || EndsWithIgnoringCase(path, ".yml")
  }

  /** The extensions `gsub(%r/\.(rb|yaml)/, '')` removes from a base name. */
  const SelectionExtensions: seq<string> := [".rb", ".yaml"]

  /** The name a fragment is known by in a selection specification. */
  function SelectionBase(path: string): string {
    RemoveAll(Basename(path), SelectionExtensions)
  }

  /** `selection.include?(base)` on the value the specification gives for the section: an
      Array lists the base name as an element, a Hash as a key, a string as a substring, and
      any other value does not answer `include?`. */
  function Includes(dir: string, selection: Node, base: string): (r: Result<bool, MergeError>)
    ensures r.Failure? <==> !(selection.Arr? || selection.Obj? || selection.Str?)
    ensures r.Failure? ==> r.error == SelectionUnusable(dir)
    ensures selection.Arr? ==>
      (r == Success(true) <==> exists i :: 0 <= i < |selection.items| && selection.items[i] == Str(base))
    ensures selection.Obj? ==>
      (r == Success(true) <==> exists i :: 0 <= i < |selection.fields| && selection.fields[i].key == base)
    ensures selection.Str? ==>
      (r == Success(true) <==> exists i: nat :: OccursAt(selection.s, i, base))
  {
    match selection
    case Arr(xs) => Success(Str(base) in xs)
    case Obj(fs) => Success(base in Keys(fs))
    case Str(s) => Success(Contains(s, base))
    case _ => Failure(SelectionUnusable(dir))
  }

  /** Whether the loop body goes past its two `next unless` guards for this file: only a
      structured file is, every one of them when the specification names no selection, and
      the selection test can only fail on an unusable selection. */
  function Selected(dir: string, spec: Option<seq<Field>>, path: string): (r: Result<bool, MergeError>)
    ensures r == Success(true) ==> IsStructured(path)
    ensures IsStructured(path) && (spec.None? || !TruthyAt(spec.value, dir)) ==> r == Success(true)
    ensures r.Failure? ==> r.error == SelectionUnusable(dir)
    ensures IsStructured(path) && spec.Some? && TruthyAt(spec.value, dir) ==>
      r == Includes(dir, Get(spec.value, dir).value, SelectionBase(path))
  {
    if !IsStructured(path) then Success(false)
    else if spec.Some? && TruthyAt(spec.value, dir) then Includes(dir, Get(spec.value, dir).value, SelectionBase(path))
    else Success(true)
  }

  /** The items one file adds to the section, or the error that aborts the load: nothing, or
      the fields of the Hash the file parses to; the file's own error is never a duplicate. */
  function Contribution(dir: string, spec: Option<seq<Field>>, f: Fragment): (r: Result<seq<Field>, MergeError>)
    ensures r.Success? ==> r.value == [] || (f.content.Parsed? && f.content.doc == Obj(r.value))
    ensures r.Failure? ==> !r.error.DuplicateItem?
    ensures Selected(dir, spec, f.path) == Success(true) && f.content.Parsed? && f.content.doc.Obj? ==>
      r == Success(f.content.doc.fields)
    ensures Selected(dir, spec, f.path) == Success(true) ==>
      && (f.content.Unreadable? ==> r == Failure(ReadFailed(f.path)))
      && (f.content.Blank? ==> r == Success([]))
      && (f.content.Malformed? ==> r == Failure(ParseFailed(f.path, f.content.message)))
      && (f.content.Parsed? && !f.content.doc.Obj? ==> r == Failure(NotAHash(f.path)))
    ensures Selected(dir, spec, f.path) == Success(false) ==> r == Success([])
    ensures Selected(dir, spec, f.path).Failure? ==> r == Failure(Selected(dir, spec, f.path).error)
  {
    var used :- Selected(dir, spec, f.path);
    if !used then Success([])
    else
      match f.content
      case Unreadable => Failure(ReadFailed(f.path))
      case Blank => Success([])
      case Malformed(m) => Failure(ParseFailed(f.path, m))
      case Parsed(doc) => if doc.Obj? then Success(doc.fields) else Failure(NotAHash(f.path))
  }

  /** No key of `item` before position `i` is already held by `acc`. */
  predicate FreshBefore(acc: seq<Field>, item: seq<Field>, i: int) {
    forall j :: 0 <= j < i && j < |item| ==> item[j].key !in Keys(acc)
  }

  lemma FreshBeforeCons(acc: seq<Field>, item: seq<Field>, i: int)
    requires |item| > 0 && item[0].key !in Keys(acc) && FreshBefore(acc, item[1..], i)
    ensures FreshBefore(acc, item, i + 1)
  {
    forall j | 0 < j < i + 1 && j < |item| ensures item[j].key !in Keys(acc) {
      assert item[j] == item[1..][j - 1];
    }
  }

  /** The first key of `item`, in its own order, that `acc` already holds. */
  function FirstClash(acc: seq<Field>, item: seq<Field>): (r: Option<string>)
    ensures r.Some? ==> r.value in Keys(acc) && r.value in Keys(item)
    ensures r.Some? ==> exists i :: 0 <= i < |item| && item[i].key == r.value && FreshBefore(acc, item, i)
    ensures r.None? ==> FreshBefore(acc, item, |item|)
  {
    if |item| == 0 then None
    else if item[0].key in Keys(acc) then Some(item[0].key)
    else
      var r := FirstClash(acc, item[1..]);
      assert r.None? ==> FreshBefore(acc, item, |item|) by {
        if r.None? {
          FreshBeforeCons(acc, item, |item[1..]|);
        }
      }
      assert r.Some? ==> exists i :: 0 <= i < |item| && item[i].key == r.value && FreshBefore(acc, item, i) by {
        if r.Some? {
          var i :| 0 <= i < |item[1..]| && item[1..][i].key == r.value && FreshBefore(acc, item[1..], i);
          FreshBeforeCons(acc, item, i);
          assert item[i + 1] == item[1..][i];
        }
      }
      r
  }

  /** What each file, in the order found, contributes. */
  function Contributions(dir: string, spec: Option<seq<Field>>, files: seq<Fragment>): (r: seq<Result<seq<Field>, MergeError>>)
    ensures |r| == |files|
    ensures forall i :: 0 <= i < |files| ==> r[i] == Contribution(dir, spec, files[i])
  {
    seq(|files|, i requires 0 <= i < |files| => Contribution(dir, spec, files[i]))
  }

  /** The fold of `load_dir` over the contributions, starting from the section built so far:
      the first failing file or duplicate key stops it. */
  function MergeFrom(acc: seq<Field>, cs: seq<Result<seq<Field>, MergeError>>): (r: Result<seq<Field>, MergeError>)
    ensures r.Success? ==> |acc| <= |r.value| && r.value[..|acc|] == acc
    ensures r.Failure? ==> r.error.DuplicateItem? || exists i :: 0 <= i < |cs| && cs[i] == Failure(r.error)
    decreases |cs|
  {
    if |cs| == 0 then Success(acc)
    else
      var item :- cs[0];
      match FirstClash(acc, item)
      case Some(k) => Failure(DuplicateItem(k))
      case None =>
        var r := MergeFrom(acc + item, cs[1..]);
        assert r.Success? ==> r.value[..|acc|] == (r.value[..|acc + item|])[..|acc|];
        assert r.Failure? && !r.error.DuplicateItem? ==> exists i :: 1 <= i < |cs| && cs[i] == Failure(r.error) by {
          if r.Failure? && !r.error.DuplicateItem? {
            var i :| 0 <= i < |cs[1..]| && cs[1..][i] == Failure(r.error);
            assert cs[i + 1] == cs[1..][i];
          }
        }
        r
  }

  /** `load_dir(dir, spec)`: the section merged from `files`, in the order they were found.
      It aborts either on a file's own error or on an item defined twice. */
  function LoadSection(dir: string, spec: Option<seq<Field>>, files: seq<Fragment>): (r: Result<seq<Field>, MergeError>)
    ensures r.Failure? ==>
      || r.error.DuplicateItem?
      || exists i :: 0 <= i < |files| && Contribution(dir, spec, files[i]) == Failure(r.error)
  {
    var cs := Contributions(dir, spec, files);
    var r := MergeFrom([], cs);
    assert r.Failure? && !r.error.DuplicateItem? ==> exists i :: 0 <= i < |files| && Contribution(dir, spec, files[i]) == Failure(r.error) by {
      if r.Failure? && !r.error.DuplicateItem? {
        var i :| 0 <= i < |cs| && cs[i] == Failure(r.error);
        assert Contribution(dir, spec, files[i]) == cs[i];
      }
    }
    r
  }

  // ---------------------------------------------------------------------------------------
  // What the merge means.

  /** All items the contributions hold, in order, or the first error. */
  function AllItems(cs: seq<Result<seq<Field>, MergeError>>): Result<seq<Field>, MergeError>
    decreases |cs|
  {
    if |cs| == 0 then Success([])
    else
      var item :- cs[0];
      var rest :- AllItems(cs[1..]);
      Success(item + rest)
  }

  /** Every contribution has distinct keys. */
  predicate EachDistinct(cs: seq<Result<seq<Field>, MergeError>>) {
    forall i :: 0 <= i < |cs| && cs[i].Success? ==> DistinctKeys(cs[i].value)
  }

  /** Every parsed Hash has distinct keys, as a JSON or YAML parser guarantees. */
  predicate ParsedHashesDistinct(files: seq<Fragment>) {
    forall i :: 0 <= i < |files| && files[i].content.Parsed? && files[i].content.doc.Obj? ==>
      DistinctKeys(files[i].content.doc.fields)
  }

  /** Every contribution of files whose Hashes have distinct keys has distinct keys. */
  lemma ContributionsDistinct(dir: string, spec: Option<seq<Field>>, files: seq<Fragment>)
    requires ParsedHashesDistinct(files)
    ensures EachDistinct(Contributions(dir, spec, files))
  {
    var cs := Contributions(dir, spec, files);
    forall i | 0 <= i < |cs| && cs[i].Success? ensures DistinctKeys(cs[i].value) {
      assert cs[i] == Contribution(dir, spec, files[i]);
    }
  }

  lemma DistinctAppend(a: seq<Field>, b: seq<Field>)
    ensures DistinctKeys(a + b) <==> DistinctKeys(a) && DistinctKeys(b) && forall i :: 0 <= i < |b| ==> b[i].key !in Keys(a)
  {
    if DistinctKeys(a) && DistinctKeys(b) && forall i :: 0 <= i < |b| ==> b[i].key !in Keys(a) {
      DistinctJoin(a, b);
    }
    if DistinctKeys(a + b) {
      DistinctSplit(a, b);
    }
  }

  lemma DistinctJoin(a: seq<Field>, b: seq<Field>)
    requires DistinctKeys(a) && DistinctKeys(b) && forall i :: 0 <= i < |b| ==> b[i].key !in Keys(a)
    ensures DistinctKeys(a + b)
  {
    var ab := a + b;
    forall i, j | 0 <= i < j < |ab| ensures ab[i].key != ab[j].key {
      if j >= |a| && i < |a| {
        assert ab[j] == b[j - |a|];
        assert Keys(a)[i] == ab[i].key;
      }
    }
  }

  lemma DistinctSplit(a: seq<Field>, b: seq<Field>)
    requires DistinctKeys(a + b)
    ensures DistinctKeys(a) && DistinctKeys(b) && forall i :: 0 <= i < |b| ==> b[i].key !in Keys(a)
  {
    var ab := a + b;
    forall i, j | 0 <= i < j < |a| ensures a[i].key != a[j].key {
      assert ab[i] == a[i] && ab[j] == a[j];
    }
    forall i, j | 0 <= i < j < |b| ensures b[i].key != b[j].key {
      assert ab[|a| + i] == b[i] && ab[|a| + j] == b[j];
    }
    forall i | 0 <= i < |b| ensures b[i].key !in Keys(a) {
      forall m | 0 <= m < |a| ensures Keys(a)[m] != b[i].key {
        assert ab[m] == a[m] && ab[|a| + i] == b[i];
      }
    }
  }

  lemma TailDistinct(cs: seq<Result<seq<Field>, MergeError>>)
    requires |cs| > 0 && EachDistinct(cs)
    ensures EachDistinct(cs[1..])
  {
    forall i | 0 <= i < |cs[1..]| ensures cs[1..][i] == cs[i + 1] { }
  }

  /** The section is the disjoint union of the contributions: merging succeeds exactly when
      no file fails and no key is defined twice, and then it is their concatenation. */
  lemma {:induction false} MergeIsDisjointUnion(acc: seq<Field>, cs: seq<Result<seq<Field>, MergeError>>)
    requires DistinctKeys(acc) && EachDistinct(cs)
    ensures MergeFrom(acc, cs).Success? <==> AllItems(cs).Success? && DistinctKeys(acc + AllItems(cs).value)
    ensures MergeFrom(acc, cs).Success? ==> MergeFrom(acc, cs).value == acc + AllItems(cs).value
    decreases |cs|
  {
    if |cs| > 0 && cs[0].Success? {
      var item := cs[0].value;
      var rest := AllItems(cs[1..]);
      DistinctAppend(acc, item);
      if rest.Success? {
        assert acc + (item + rest.value) == (acc + item) + rest.value;
        DistinctAppend(acc + item, rest.value);
      }
      if FirstClash(acc, item).None? {
        TailDistinct(cs);
        MergeIsDisjointUnion(acc + item, cs[1..]);
      }
    }
  }

  /** Loading a section succeeds exactly when no file fails and no item is defined by two
      files; the section is then every file's items, in the order found. */
  lemma LoadSectionIsDisjointUnion(dir: string, spec: Option<seq<Field>>, files: seq<Fragment>)
    requires ParsedHashesDistinct(files)
    ensures var all := AllItems(Contributions(dir, spec, files));
      && (LoadSection(dir, spec, files).Success? <==> all.Success? && DistinctKeys(all.value))
      && (LoadSection(dir, spec, files).Success? ==> LoadSection(dir, spec, files).value == all.value)
  {
    ContributionsDistinct(dir, spec, files);
    MergeIsDisjointUnion([], Contributions(dir, spec, files));
    var all := AllItems(Contributions(dir, spec, files));
    if all.Success? {
      assert [] + all.value == all.value;
    }
  }

  /** No file error is a duplicate: duplicates come from the merge alone. */
  predicate FileErrors(cs: seq<Result<seq<Field>, MergeError>>) {
    forall i :: 0 <= i < |cs| && cs[i].Failure? ==> !cs[i].error.DuplicateItem?
  }

  lemma ContributionsFail(dir: string, spec: Option<seq<Field>>, files: seq<Fragment>)
    ensures FileErrors(Contributions(dir, spec, files))
  {
  }

  /** A contribution defines the key. */
  predicate Defines(c: Result<seq<Field>, MergeError>, k: string) {
    c.Success? && k in Keys(c.value)
  }

  lemma {:induction false} KeysAppend(a: seq<Field>, b: seq<Field>)
    ensures Keys(a + b) == Keys(a) + Keys(b)
  {
    forall i | 0 <= i < |a + b| ensures Keys(a + b)[i] == (Keys(a) + Keys(b))[i] {
      if i < |a| {
        assert (a + b)[i] == a[i];
      } else {
        assert (a + b)[i] == b[i - |a|];
      }
    }
  }

  /** A duplicate is reported only for a key that two files (or the section built so far and
      one file) really define. */
  lemma {:induction false} DuplicateIsReal(acc: seq<Field>, cs: seq<Result<seq<Field>, MergeError>>)
    requires FileErrors(cs)
    requires MergeFrom(acc, cs).Failure? && MergeFrom(acc, cs).error.DuplicateItem?
    ensures var k := MergeFrom(acc, cs).error.key;
      || (k in Keys(acc) && exists i :: 0 <= i < |cs| && Defines(cs[i], k))
      || exists i, j :: 0 <= i < j < |cs| && Defines(cs[i], k) && Defines(cs[j], k)
    decreases |cs|
  {
    var k := MergeFrom(acc, cs).error.key;
    var item := cs[0].value;
    assert Defines(cs[0], k) ==> exists i :: 0 <= i < |cs| && Defines(cs[i], k);
    match FirstClash(acc, item)
    case Some(_) =>
    case None =>
      assert forall i :: 0 <= i < |cs[1..]| ==> cs[1..][i] == cs[i + 1];
      DuplicateIsReal(acc + item, cs[1..]);
      if k in Keys(acc + item) {
        KeysAppend(acc, item);
        if k !in Keys(acc) {
          assert Defines(cs[0], k);
        }
      }
  }

  /** Files outside `.json/.yaml/.yml` contribute nothing. */
  lemma UnstructuredContributesNothing(dir: string, spec: Option<seq<Field>>, f: Fragment)
    requires !IsStructured(f.path)
    ensures Contribution(dir, spec, f) == Success([])
  {
  }

  /** A zero-length file contributes nothing, whenever the selection test itself succeeds. */
  lemma BlankContributesNothing(dir: string, spec: Option<seq<Field>>, f: Fragment)
    requires f.content == Blank
    ensures Selected(dir, spec, f.path).Success? ==> Contribution(dir, spec, f) == Success([])
  {
  }

  /** Under a selection list, a file whose base name is not listed contributes nothing. */
  lemma UnlistedContributesNothing(dir: string, spec: Option<seq<Field>>, f: Fragment, list: seq<Node>)
    requires spec.Some? && Get(spec.value, dir) == Some(Arr(list))
    ensures Str(SelectionBase(f.path)) !in list ==> Contribution(dir, spec, f) == Success([])
  {
    var base := SelectionBase(f.path);
    assert TruthyAt(spec.value, dir);
    if Str(base) !in list {
      assert Includes(dir, Arr(list), base) == Success(false);
      assert Selected(dir, spec, f.path) == Success(false);
    }
  }

  /** The converse: under a truthy selection, a structured file the selection names and whose
      content parses to a Hash contributes exactly that Hash's items. */
  lemma ListedContributesFields(dir: string, spec: Option<seq<Field>>, f: Fragment, fs: seq<Field>)
    requires spec.Some? && TruthyAt(spec.value, dir)
    requires IsStructured(f.path) && f.content == Parsed(Obj(fs))
    ensures Includes(dir, Get(spec.value, dir).value, SelectionBase(f.path)) == Success(true) ==>
      Contribution(dir, spec, f) == Success(fs)
  {
    assert Selected(dir, spec, f.path) == Includes(dir, Get(spec.value, dir).value, SelectionBase(f.path));
  }
}

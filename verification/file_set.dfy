/** `get_file_set` of the load mixin: pick, for every wanted item name, the one fragment file
    whose extension comes latest in the precedence list. */
module FileSet {

  import opened Results
  import opened Strings

  /** The two groups of `^(\S+)\.(ext1|ext2|...)$`. */
  datatype Split = Split(name: string, ext: string)

  datatype FileSetError = WantMissing | DirectoryMissing(path: string)

  // ---------------------------------------------------------------------------------------
  // Splitting a base name.

  /** A line is `<name>.<ext>` at name length `k`: a non-empty, whitespace-free name and an
      extension from the list. */
  predicate SplitsAt(line: string, exts: seq<string>, k: nat) {
    0 < k < |line| && line[k] == '.' && NoSpace(line[..k]) && line[k + 1..] in exts
  }

  /** The greedy `\S+` gives up characters from the right until the rest matches. */
  function Longest(line: string, exts: seq<string>, k: nat): (r: Option<Split>)
    ensures r.Some? ==> var m := |r.value.name|;
      && m <= k && SplitsAt(line, exts, m) && r.value == Split(line[..m], line[m + 1..])
      && forall k' :: m < k' <= k ==> !SplitsAt(line, exts, k')
    ensures r.None? ==> forall k' :: 0 < k' <= k ==> !SplitsAt(line, exts, k')
  {
    if k == 0 then None
    else if SplitsAt(line, exts, k) then Some(Split(line[..k], line[k + 1..]))
    else Longest(line, exts, k - 1)
  }

  /** One line against the file pattern; an empty extension list makes the whole line the name. */
  function SplitLine(line: string, exts: seq<string>): (r: Option<Split>)
    ensures r.Some? ==> |r.value.name| > 0 && NoSpace(r.value.name)
    ensures r.Some? && |exts| > 0 ==> r.value.ext in exts && line == r.value.name + "." + r.value.ext
    ensures r.Some? && |exts| > 0 ==> forall k' :: |r.value.name| < k' <= |line| ==> !SplitsAt(line, exts, k')
    ensures r.None? && |exts| > 0 ==> forall k' :: 0 < k' <= |line| ==> !SplitsAt(line, exts, k')
    ensures |exts| == 0 ==> (r.Some? <==> |line| > 0 && NoSpace(line)) && (r.Some? ==> r.value == Split(line, ""))
  {
    if |exts| == 0 then
      if |line| > 0 && NoSpace(line) then Some(Split(line, "")) else None
    else
      var r := Longest(line, exts, |line|);
      if r.Some? then
        var m := |r.value.name|;
        assert line == line[..m] + "." + line[m + 1..];
        r
      else r
  }

  /** `File.basename(f).match(file_regex)`: `^` and `$` are line anchors, so the first line
      of the base name that matches as a whole gives the groups. */
  function SplitBasename(b: string, exts: seq<string>): (r: Option<Split>)
    ensures r.Some? ==> |r.value.name| > 0 && NoSpace(r.value.name)
    ensures r.Some? ==> r.value.ext in Order(exts)
    ensures '\n' !in b ==> r == SplitLine(b, exts)
    decreases |b|
  {
    var e := LineEnd(b);
    assert '\n' !in b ==> e == |b| && b[..e] == b;
    var first := SplitLine(b[..e], exts);
    if first.Some? then first
    else if e < |b| then SplitBasename(b[e + 1..], exts)
    else None
  }

  /** The extensions in the order `exts.each` visits them: `['']` when there are none. */
  function Order(exts: seq<string>): (r: seq<string>)
    ensures |r| > 0
  {
    if |exts| == 0 then [""] else exts
  }

  /** A nil extension list stands for the configured precedence list. */
  function Exts(exts: Option<seq<string>>, precedence: seq<string>): seq<string> {
    match exts
    case None => precedence
    case Some(e) => e
  }

  function Match(path: string, exts: seq<string>): Option<Split> {
    SplitBasename(Basename(path), exts)
  }

  // ---------------------------------------------------------------------------------------
  // Which file survives.

  /** A listed path with the groups its base name matched, if any. */
  datatype Listed = Listed(path: string, split: Option<Split>)

  /** Every listed path against the file pattern. */
  function Scan(listing: seq<string>, exts: seq<string>): (r: seq<Listed>)
    ensures |r| == |listing|
    decreases |listing|
  {
    if |listing| == 0 then []
    else
      var p := listing[|listing| - 1];
      Scan(listing[..|listing| - 1], exts) + [Listed(p, Match(p, exts))]
  }

  /** The last listed path splitting into `(n, e)` with `n` wanted: the value of `set[e][n]`
      after the scan, since a later path overwrites an earlier one. */
  function LastWith(listing: seq<Listed>, want: seq<string>, n: string, e: string): Option<string>
    decreases |listing|
  {
    if |listing| == 0 then None
    else
      var l := listing[|listing| - 1];
      if l.split == Some(Split(n, e)) && n in want then Some(l.path)
      else LastWith(listing[..|listing| - 1], want, n, e)
  }

  /** A hit is a listed, wanted path of that name and extension, and no later entry has that
      name and extension; there is one whenever such a path is listed. */
  lemma {:induction false} LastWithIsCandidate(listing: seq<Listed>, want: seq<string>, n: string, e: string)
    ensures var r := LastWith(listing, want, n, e);
      r.Some? ==> Listed(r.value, Some(Split(n, e))) in listing && n in want
    ensures var r := LastWith(listing, want, n, e);
      r.Some? ==> exists i :: (0 <= i < |listing| && listing[i] == Listed(r.value, Some(Split(n, e))) &&
                               forall j :: i < j < |listing| ==> listing[j].split != Some(Split(n, e)))
    ensures LastWith(listing, want, n, e).None? <==>
      (n !in want || forall i :: 0 <= i < |listing| ==> listing[i].split != Some(Split(n, e)))
    decreases |listing|
  {
    if |listing| > 0 {
      var init := listing[..|listing| - 1];
      var last := listing[|listing| - 1];
      LastWithIsCandidate(init, want, n, e);
      assert forall i :: 0 <= i < |init| ==> init[i] == listing[i];
      assert listing == init + [last];
      var r := LastWith(listing, want, n, e);
      if last.split == Some(Split(n, e)) && n in want {
        assert listing[|listing| - 1] == Listed(r.value, Some(Split(n, e)));
      } else if r.Some? {
        var i :| 0 <= i < |init| && init[i] == Listed(r.value, Some(Split(n, e))) &&
          forall j :: i < j < |init| ==> init[j].split != Some(Split(n, e));
        assert listing[i] == init[i];
      }
    }
  }

  /** The candidate for `n` under each extension of `order`, in order. */
  function Hits(listing: seq<Listed>, want: seq<string>, order: seq<string>, n: string): (r: seq<Option<string>>)
    ensures |r| == |order|
    ensures forall k :: 0 <= k < |order| ==> r[k] == LastWith(listing, want, n, order[k])
    decreases |order|
  {
    if |order| == 0 then []
    else Hits(listing, want, order[..|order| - 1], n) + [LastWith(listing, want, n, order[|order| - 1])]
  }

  /** The last present entry. */
  function Latest<T>(hs: seq<Option<T>>): Option<T> {
    if |hs| == 0 then None
    else if hs[|hs| - 1].Some? then hs[|hs| - 1]
    else Latest(hs[..|hs| - 1])
  }

  /** An entry that is followed by a later present one. */
  ghost predicate Overtaken<T(!new)>(hs: seq<Option<T>>, p: T) {
    exists k, k' :: 0 <= k < k' < |hs| && hs[k] == Some(p) && hs[k'].Some?
  }

  /** The candidate for `n` under the latest extension that has one. */
  function Survivor(listing: seq<Listed>, want: seq<string>, order: seq<string>, n: string): Option<string> {
    Latest(Hits(listing, want, order, n))
  }

  /** A candidate that held the name under some extension and was replaced by a candidate
      under a later one: the source logs "Ignoring" for it. */
  ghost predicate Displaced(listing: seq<Listed>, want: seq<string>, order: seq<string>, p: string) {
    exists n :: Overtaken(Hits(listing, want, order, n), p)
  }

  lemma LatestSnoc<T>(hs: seq<Option<T>>, h: Option<T>)
    ensures Latest(hs + [h]) == if h.Some? then h else Latest(hs)
  {
    assert (hs + [h])[..|hs|] == hs;
  }

  /** `Latest` finds the last present entry, and nothing only when every entry is absent. */
  lemma {:induction false} LatestIsLast<T>(hs: seq<Option<T>>)
    ensures Latest(hs).None? <==> forall k :: 0 <= k < |hs| ==> hs[k].None?
    ensures Latest(hs).Some? ==>
      exists k :: 0 <= k < |hs| && hs[k] == Latest(hs) && forall k' :: k < k' < |hs| ==> hs[k'].None?
    decreases |hs|
  {
    if |hs| > 0 {
      var init := hs[..|hs| - 1];
      LatestIsLast(init);
      assert forall k :: 0 <= k < |init| ==> init[k] == hs[k];
      if hs[|hs| - 1].Some? {
        assert hs[|hs| - 1] == Latest(hs);
      }
    }
  }

  /** Appending an entry overtakes exactly the current latest one, if the new entry is present. */
  lemma OvertakenSnoc<T(!new)>(hs: seq<Option<T>>, h: Option<T>, p: T)
    ensures Overtaken(hs + [h], p) <==> Overtaken(hs, p) || (h.Some? && Latest(hs) == Some(p))
  {
    var hs' := hs + [h];
    assert forall k :: 0 <= k < |hs| ==> hs'[k] == hs[k];
    LatestIsLast(hs);
    if Overtaken(hs', p) && !Overtaken(hs, p) {
      var k, k' :| 0 <= k < k' < |hs'| && hs'[k] == Some(p) && hs'[k'].Some?;
      if Latest(hs).Some? {
        var m :| 0 <= m < |hs| && hs[m] == Latest(hs) && forall k2 :: m < k2 < |hs| ==> hs[k2].None?;
        assert m == k;
      }
    }
    if h.Some? && Latest(hs) == Some(p) {
      var m :| 0 <= m < |hs| && hs[m] == Latest(hs) && forall k2 :: m < k2 < |hs| ==> hs[k2].None?;
      assert hs'[m] == Some(p) && hs'[|hs|].Some?;
    }
    if Overtaken(hs, p) {
      var k, k' :| 0 <= k < k' < |hs| && hs[k] == Some(p) && hs[k'].Some?;
      assert hs'[k] == Some(p) && hs'[k'].Some?;
    }
  }

  /** One more extension adds its candidate to the end of every name's hit list. */
  lemma HitsSnoc(listing: seq<Listed>, want: seq<string>, order: seq<string>, j: nat, n: string)
    requires j < |order|
    ensures Hits(listing, want, order[..j + 1], n)
         == Hits(listing, want, order[..j], n) + [LastWith(listing, want, n, order[j])]
  {
    assert order[..j + 1][..j] == order[..j];
  }

  /** The survivor is the candidate under the LATEST extension that has one, and there is
      none exactly when no extension has a candidate. */
  lemma SurvivorIsLatest(listing: seq<Listed>, want: seq<string>, order: seq<string>, n: string)
    ensures Survivor(listing, want, order, n).None? <==>
      forall k :: 0 <= k < |order| ==> LastWith(listing, want, n, order[k]).None?
    ensures Survivor(listing, want, order, n).Some? ==>
      exists k :: 0 <= k < |order|
        && LastWith(listing, want, n, order[k]) == Survivor(listing, want, order, n)
        && forall k' :: k < k' < |order| ==> LastWith(listing, want, n, order[k']).None?
  {
    var hs := Hits(listing, want, order, n);
    LatestIsLast(hs);
  }

  /** One more extension displaces exactly the current survivors of the names it has a
      candidate for. */
  lemma DisplacedStep(listing: seq<Listed>, want: seq<string>, order: seq<string>, j: nat, p: string)
    requires j < |order|
    ensures Displaced(listing, want, order[..j + 1], p) <==>
      || Displaced(listing, want, order[..j], p)
      || exists n :: LastWith(listing, want, n, order[j]).Some? && Survivor(listing, want, order[..j], n) == Some(p)
  {
    forall n ensures Overtaken(Hits(listing, want, order[..j + 1], n), p) <==>
      Overtaken(Hits(listing, want, order[..j], n), p)
      || (LastWith(listing, want, n, order[j]).Some? && Survivor(listing, want, order[..j], n) == Some(p))
    {
      HitsSnoc(listing, want, order, j, n);
      OvertakenSnoc(Hits(listing, want, order[..j], n), LastWith(listing, want, n, order[j]), p);
    }
  }

  /** One more extension replaces the survivor of every name it has a candidate for. */
  lemma SurvivorStep(listing: seq<Listed>, want: seq<string>, order: seq<string>, j: nat, n: string)
    requires j < |order|
    ensures Survivor(listing, want, order[..j + 1], n) ==
      var h := LastWith(listing, want, n, order[j]);
      if h.Some? then h else Survivor(listing, want, order[..j], n)
  {
    HitsSnoc(listing, want, order, j, n);
    LatestSnoc(Hits(listing, want, order[..j], n), LastWith(listing, want, n, order[j]));
  }

  // ---------------------------------------------------------------------------------------
  // The operation.

  /** The scan pairs every listed path with its match. */
  lemma {:induction false} ScanAt(listing: seq<string>, exts: seq<string>, i: nat)
    requires i < |listing|
    ensures Scan(listing, exts)[i] == Listed(listing[i], Match(listing[i], exts))
    decreases |listing|
  {
    if i < |listing| - 1 {
      ScanAt(listing[..|listing| - 1], exts, i);
    }
  }

  /** Every extension a scanned path matched with is one the order visits. */
  lemma ScanExtension(listing: seq<string>, exts: seq<string>, i: nat)
    requires i < |listing|
    ensures var l := Scan(listing, exts)[i];
      l.path == listing[i] && (l.split.Some? ==> l.split.value.ext in Order(exts))
  {
    ScanAt(listing, exts, i);
  }

  /** Over the scan: a name survives exactly when it is wanted and some entry matched with
      that name under a visited extension; the survivor is such an entry's path. */
  lemma SurvivorsAreWantedEntries(scan: seq<Listed>, want: seq<string>, order: seq<string>, n: string)
    ensures Survivor(scan, want, order, n).Some? <==>
      n in want && exists i :: 0 <= i < |scan| && scan[i].split.Some? && scan[i].split.value.name == n && scan[i].split.value.ext in order
    ensures var s := Survivor(scan, want, order, n);
      s.Some? ==> exists i :: 0 <= i < |scan| && scan[i].path == s.value && scan[i].split.Some? && scan[i].split.value.name == n
  {
    SurvivorIsLatest(scan, want, order, n);
    var s := Survivor(scan, want, order, n);
    if s.Some? {
      var k :| 0 <= k < |order| && LastWith(scan, want, n, order[k]) == s;
      LastWithIsCandidate(scan, want, n, order[k]);
      var i :| 0 <= i < |scan| && scan[i] == Listed(s.value, Some(Split(n, order[k])));
    }
    if n in want && exists i :: 0 <= i < |scan| && scan[i].split.Some? && scan[i].split.value.name == n && scan[i].split.value.ext in order {
      var i :| 0 <= i < |scan| && scan[i].split.Some? && scan[i].split.value.name == n && scan[i].split.value.ext in order;
      var e := scan[i].split.value.ext;
      var k :| 0 <= k < |order| && order[k] == e;
      LastWithIsCandidate(scan, want, n, e);
      assert LastWith(scan, want, n, order[k]).Some?;
    }
  }

  /** A name gets a file exactly when it is wanted and some listed base name matches with
      that name; the file is then one of those paths. */
  lemma SurvivorsAreWantedMatches(listing: seq<string>, want: seq<string>, exts: seq<string>, n: string)
    ensures Survivor(Scan(listing, exts), want, Order(exts), n).Some? <==>
      n in want && exists i :: 0 <= i < |listing| && Scan(listing, exts)[i].split.Some? && Scan(listing, exts)[i].split.value.name == n
    ensures var s := Survivor(Scan(listing, exts), want, Order(exts), n);
      s.Some? ==> s.value in listing
  {
    var scan := Scan(listing, exts);
    SurvivorsAreWantedEntries(scan, want, Order(exts), n);
    forall i | 0 <= i < |listing| ensures scan[i].path == listing[i] && (scan[i].split.Some? ==> scan[i].split.value.ext in Order(exts)) {
      ScanExtension(listing, exts, i);
    }
  }

  /** The extensions of the examples below: `json`, then `yaml`. */
  const JsonThenYaml: seq<string> := ["json", "yaml"]

  /** The two example files, `x.json` and `x.yaml`, with their extensions. */
  predicate ExampleFile(file: string, ext: string) {
    (file == "x.json" && ext == "json") || (file == "x.yaml" && ext == "yaml")
  }

  lemma LongestOfExample(file: string, ext: string)
    requires ExampleFile(file, ext)
    ensures Longest(file, JsonThenYaml, 6) == Some(Split("x", ext))
  {
    assert file[..1] == "x" && file[2..] == ext;
    assert SplitsAt(file, JsonThenYaml, 1);
  }

  lemma SplitBasenameOfExample(file: string, ext: string)
    requires ExampleFile(file, ext)
    ensures SplitBasename(file, JsonThenYaml) == Some(Split("x", ext))
  {
    LongestOfExample(file, ext);
    assert SplitLine(file, JsonThenYaml) == Some(Split("x", ext));
    assert forall i :: 0 <= i < 6 ==> file[i] != '\n';
  }

  /** `x.json` and `x.yaml` split into the name `x` and their extension. */
  lemma SplitOfExample(dir: string, file: string, ext: string)
    requires ExampleFile(file, ext)
    ensures Match(dir + "/" + file, JsonThenYaml) == Some(Split("x", ext))
  {
    BasenameOfJoin(dir, file);
    SplitBasenameOfExample(file, ext);
  }

  lemma ScanOfExample(dir: string)
    ensures var scan := Scan([dir + "/x.json", dir + "/x.yaml"], JsonThenYaml);
      && |scan| == 2
      && scan[0] == Listed(dir + "/x.json", Some(Split("x", "json")))
      && scan[1] == Listed(dir + "/x.yaml", Some(Split("x", "yaml")))
  {
    var json, yaml := dir + "/x.json", dir + "/x.yaml";
    assert json == dir + "/" + "x.json" && yaml == dir + "/" + "x.yaml";
    SplitOfExample(dir, "x.json", "json");
    SplitOfExample(dir, "x.yaml", "yaml");
    ScanAt([json, yaml], JsonThenYaml, 0);
    ScanAt([json, yaml], JsonThenYaml, 1);
  }

  /** Over a scan holding `x.json` and then `x.yaml`, the YAML path survives and the JSON path
      is overtaken. */
  lemma OverlayOfExample(scan: seq<Listed>, json: string, yaml: string)
    requires |scan| == 2 && scan[0] == Listed(json, Some(Split("x", "json"))) && scan[1] == Listed(yaml, Some(Split("x", "yaml")))
    ensures Survivor(scan, ["x"], JsonThenYaml, "x") == Some(yaml)
    ensures Displaced(scan, ["x"], JsonThenYaml, json)
  {
    assert scan[..1] == [scan[0]];
    assert LastWith(scan, ["x"], "x", "json") == Some(json);
    var hits := Hits(scan, ["x"], JsonThenYaml, "x");
    assert hits[0] == Some(json) && hits[1] == Some(yaml);
    assert Overtaken(hits, json);
  }

  /** With the precedence `json` then `yaml`, the YAML file of a name wins over its JSON
      file, and the JSON file is the one displaced. */
  lemma YamlOverridesJson(dir: string)
    ensures var scan := Scan([dir + "/x.json", dir + "/x.yaml"], JsonThenYaml);
      && Survivor(scan, ["x"], JsonThenYaml, "x") == Some(dir + "/x.yaml")
      && Displaced(scan, ["x"], JsonThenYaml, dir + "/x.json")
  {
    ScanOfExample(dir);
    OverlayOfExample(Scan([dir + "/x.json", dir + "/x.yaml"], JsonThenYaml), dir + "/x.json", dir + "/x.yaml");
  }

  /** Indexes the file names, as `set[ext][name]`, the last listed path winning. */
  ghost predicate Grouped(byExt: map<string, map<string, string>>, scan: seq<Listed>, want: seq<string>) {
    && (forall e, n :: e in byExt && n in byExt[e] ==> LastWith(scan, want, n, e) == Some(byExt[e][n]))
    && (forall e, n :: LastWith(scan, want, n, e).Some? ==> e in byExt && n in byExt[e])
  }

  /** Records one listed path: `set[ext] ||= {}` for every match, then `set[ext][name] = path`
      when the name is wanted. */
  function Record(byExt: map<string, map<string, string>>, l: Listed, want: seq<string>): map<string, map<string, string>> {
    match l.split
    case None => byExt
    case Some(Split(n, e)) =>
      var inner := if e in byExt then byExt[e] else map[];
      byExt[e := if n in want then inner[n := l.path] else inner]
  }

  lemma LastWithSnoc(listing: seq<Listed>, l: Listed, want: seq<string>, n: string, e: string)
    ensures LastWith(listing + [l], want, n, e) ==
      if l.split == Some(Split(n, e)) && n in want then Some(l.path) else LastWith(listing, want, n, e)
  {
    assert (listing + [l])[..|listing|] == listing;
  }

  /** Recording one more path keeps the index exact. */
  lemma RecordKeepsGrouped(byExt: map<string, map<string, string>>, listing: seq<Listed>, l: Listed, want: seq<string>)
    requires Grouped(byExt, listing, want)
    ensures Grouped(Record(byExt, l, want), listing + [l], want)
  {
    var b := Record(byExt, l, want);
    forall e, n ensures e in b && n in b[e] ==> LastWith(listing + [l], want, n, e) == Some(b[e][n]) {
      LastWithSnoc(listing, l, want, n, e);
    }
    forall e, n | LastWith(listing + [l], want, n, e).Some? ensures e in b && n in b[e] {
      LastWithSnoc(listing, l, want, n, e);
    }
  }

  /** The index after recording every scanned path in turn. */
  function RecordAll(scan: seq<Listed>, want: seq<string>): map<string, map<string, string>>
    decreases |scan|
  {
    if |scan| == 0 then map[] else Record(RecordAll(scan[..|scan| - 1], want), scan[|scan| - 1], want)
  }

  /** Recording every path yields the exact index. */
  lemma {:induction false} RecordAllGrouped(scan: seq<Listed>, want: seq<string>)
    ensures Grouped(RecordAll(scan, want), scan, want)
    decreases |scan|
  {
    if |scan| > 0 {
      var front := scan[..|scan| - 1];
      RecordAllGrouped(front, want);
      assert front + [scan[|scan| - 1]] == scan;
      RecordKeepsGrouped(RecordAll(front, want), front, scan[|scan| - 1], want);
    }
  }

  /** The scan of one more listed path, and the index after recording it. */
  lemma RecordNext(listing: seq<string>, want: seq<string>, exts: seq<string>, i: nat)
    requires i < |listing|
    ensures RecordAll(Scan(listing[..i + 1], exts), want) ==
      Record(RecordAll(Scan(listing[..i], exts), want), Listed(listing[i], Match(listing[i], exts)), want)
  {
    assert listing[..i + 1][..i] == listing[..i];
    var s := Scan(listing[..i + 1], exts);
    assert s == Scan(listing[..i], exts) + [Listed(listing[i], Match(listing[i], exts))];
    assert s[..|s| - 1] == Scan(listing[..i], exts);
  }

  /** The first loop of `get_file_set`: match every listed base name and record each wanted
      name under its extension. */
  method GroupByExtension(listing: seq<string>, want: seq<string>, exts: seq<string>)
    returns (byExt: map<string, map<string, string>>)
    ensures Grouped(byExt, Scan(listing, exts), want)
  {
    byExt := map[];
    var i := 0;
    while i < |listing|
      invariant 0 <= i <= |listing|
      invariant byExt == RecordAll(Scan(listing[..i], exts), want)
    {
      RecordNext(listing, want, exts, i);
      byExt := Record(byExt, Listed(listing[i], Match(listing[i], exts)), want);
      i := i + 1;
    }
    assert listing[..|listing|] == listing;
    RecordAllGrouped(Scan(listing, exts), want);
  }

  /** `h` is the per-name map recorded for the extension `e`. */
  ghost predicate IndexesExtension(h: map<string, string>, scan: seq<Listed>, want: seq<string>, e: string) {
    forall n :: (if n in h then Some(h[n]) else None) == LastWith(scan, want, n, e)
  }

  lemma GroupedExtension(byExt: map<string, map<string, string>>, scan: seq<Listed>, want: seq<string>, e: string)
    requires Grouped(byExt, scan, want)
    ensures IndexesExtension(if e in byExt then byExt[e] else map[], scan, want, e)
  {
  }

  /** The values of `res` that merging `h` overwrites. */
  function Replaced(res: map<string, string>, h: map<string, string>): (r: set<string>)
    ensures forall p :: p in r <==> exists n :: n in h && n in res && res[n] == p
  {
    set n | n in h && n in res :: res[n]
  }

  /** Merging the map of the next extension yields the survivors of the longer order. */
  lemma OverlayStep(scan: seq<Listed>, want: seq<string>, order: seq<string>, j: nat, res: map<string, string>, h: map<string, string>)
    requires j < |order| && IndexesExtension(h, scan, want, order[j])
    requires forall n :: Survivor(scan, want, order[..j], n) == (if n in res then Some(res[n]) else None)
    ensures forall n :: Survivor(scan, want, order[..j + 1], n) == (if n in res + h then Some((res + h)[n]) else None)
  {
    forall n ensures Survivor(scan, want, order[..j + 1], n) == (if n in res + h then Some((res + h)[n]) else None) {
      SurvivorStep(scan, want, order, j, n);
    }
  }

  /** The entries of `res` that the next extension's map replaces are the newly displaced paths. */
  lemma DroppedStep(scan: seq<Listed>, want: seq<string>, order: seq<string>, j: nat, res: map<string, string>,
                    h: map<string, string>, ignored: set<string>)
    requires j < |order| && IndexesExtension(h, scan, want, order[j])
    requires forall n :: Survivor(scan, want, order[..j], n) == (if n in res then Some(res[n]) else None)
    requires forall p :: p in ignored <==> Displaced(scan, want, order[..j], p)
    ensures forall p :: p in ignored + Replaced(res, h) <==> Displaced(scan, want, order[..j + 1], p)
  {
    var dropped := Replaced(res, h);
    forall p ensures p in ignored + dropped <==> Displaced(scan, want, order[..j + 1], p) {
      DisplacedStep(scan, want, order, j, p);
      if exists n :: LastWith(scan, want, n, order[j]).Some? && Survivor(scan, want, order[..j], n) == Some(p) {
        var n :| LastWith(scan, want, n, order[j]).Some? && Survivor(scan, want, order[..j], n) == Some(p);
        assert n in h && n in res && res[n] == p;
      }
    }
  }

  /** `res` holds the survivors over the extensions visited so far. */
  ghost predicate Survivors(res: map<string, string>, scan: seq<Listed>, want: seq<string>, order: seq<string>) {
    forall n :: Survivor(scan, want, order, n) == (if n in res then Some(res[n]) else None)
  }

  /** `ignored` holds the paths displaced over the extensions visited so far. */
  ghost predicate Logged(ignored: set<string>, scan: seq<Listed>, want: seq<string>, order: seq<string>) {
    forall p :: p in ignored <==> Displaced(scan, want, order, p)
  }

  /** The map of the extension `e`: `set[e]`, empty when no file had that extension. */
  function ForExtension(byExt: map<string, map<string, string>>, e: string): map<string, string> {
    if e in byExt then byExt[e] else map[]
  }

  /** `res` after merging the maps of `order` in turn. */
  function MergeAll(byExt: map<string, map<string, string>>, order: seq<string>): map<string, string>
    decreases |order|
  {
    if |order| == 0 then map[] else MergeAll(byExt, order[..|order| - 1]) + ForExtension(byExt, order[|order| - 1])
  }

  /** The paths logged as ignored while merging the maps of `order` in turn. */
  function IgnoredAll(byExt: map<string, map<string, string>>, order: seq<string>): set<string>
    decreases |order|
  {
    if |order| == 0 then {}
    else
      var front := order[..|order| - 1];
      IgnoredAll(byExt, front) + Replaced(MergeAll(byExt, front), ForExtension(byExt, order[|order| - 1]))
  }

  /** Merging every extension's map in turn leaves exactly the survivors, and logs exactly the
      displaced candidates. */
  lemma {:induction false} MergeAllMeaning(byExt: map<string, map<string, string>>, scan: seq<Listed>, want: seq<string>, order: seq<string>)
    requires Grouped(byExt, scan, want)
    ensures Survivors(MergeAll(byExt, order), scan, want, order)
    ensures Logged(IgnoredAll(byExt, order), scan, want, order)
    decreases |order|
  {
    if |order| == 0 {
      forall n ensures Survivor(scan, want, order, n).None? {
        SurvivorIsLatest(scan, want, order, n);
      }
      assert forall n :: Hits(scan, want, order, n) == [];
    } else {
      var j := |order| - 1;
      var front := order[..j];
      MergeAllMeaning(byExt, scan, want, front);
      var h := ForExtension(byExt, order[j]);
      GroupedExtension(byExt, scan, want, order[j]);
      DroppedStep(scan, want, order, j, MergeAll(byExt, front), h, IgnoredAll(byExt, front));
      OverlayStep(scan, want, order, j, MergeAll(byExt, front), h);
      assert order[..j + 1] == order;
    }
  }

  /** One more extension, for the loop. */
  lemma MergeNext(byExt: map<string, map<string, string>>, order: seq<string>, j: nat)
    requires j < |order|
    ensures MergeAll(byExt, order[..j + 1]) == MergeAll(byExt, order[..j]) + ForExtension(byExt, order[j])
    ensures IgnoredAll(byExt, order[..j + 1]) ==
      IgnoredAll(byExt, order[..j]) + Replaced(MergeAll(byExt, order[..j]), ForExtension(byExt, order[j]))
  {
    assert order[..j + 1][..j] == order[..j];
  }

  /** The second loop: merge the per-extension maps in increasing precedence, so a later
      extension's file replaces an earlier one's. */
  method Overlay(byExt: map<string, map<string, string>>, ghost scan: seq<Listed>, want: seq<string>, order: seq<string>)
    returns (res: map<string, string>, ignored: set<string>)
    requires Grouped(byExt, scan, want)
    ensures Survivors(res, scan, want, order)
    ensures Logged(ignored, scan, want, order)
  {
    res := map[];
    ignored := {};
    var j := 0;
    while j < |order|
      invariant 0 <= j <= |order|
      invariant res == MergeAll(byExt, order[..j]) && ignored == IgnoredAll(byExt, order[..j])
    {
      var h := if order[j] in byExt then byExt[order[j]] else map[];
      MergeNext(byExt, order, j);
      ignored := ignored + Replaced(res, h);
      res := res + h;
      j := j + 1;
    }
    assert order[..|order|] == order;
    MergeAllMeaning(byExt, scan, want, order);
  }

  /** `get_file_set(want, path, exts)` over the directory entries the glob returned.
      Besides the map, it returns the paths the source logs as ignored. */
  method GetFileSet(want: Option<seq<string>>, path: string, dirExists: bool, listing: seq<string>,
                    exts: Option<seq<string>>, precedence: seq<string>)
    returns (r: Result<map<string, string>, FileSetError>, ignored: set<string>)
    ensures want.None? ==> r == Failure(WantMissing)
    ensures want.Some? && !dirExists ==> r == Failure(DirectoryMissing(path))
    ensures want.Some? && dirExists ==> r.Success?
    ensures r.Success? ==> var es := Exts(exts, precedence);
      forall n :: Survivor(Scan(listing, es), want.value, Order(es), n) == (if n in r.value then Some(r.value[n]) else None)
    ensures r.Success? ==> var es := Exts(exts, precedence);
      forall p :: p in ignored <==> Displaced(Scan(listing, es), want.value, Order(es), p)
  {
    ignored := {};
    if want.None? {
      return Failure(WantMissing), ignored;
    }
    var es := Exts(exts, precedence);
    if !dirExists {
      return Failure(DirectoryMissing(path)), ignored;
    }
    var byExt := GroupByExtension(listing, want.value, es);
    var res;
    res, ignored := Overlay(byExt, Scan(listing, es), want.value, Order(es));
    r := Success(res);
  }
}

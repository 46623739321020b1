/** The simple compiler's driver: template header defaulting, assembly of the compiled
    document and its reference check. */
module Compiler {

  import opened Results
  import opened Document
  import opened Strings
  import opened References

  /** The command-line options the driver reads; `None` is an option Slop left unset. */
  datatype Options = Options(output: Option<string>, formatVersion: Option<string>, description: Option<string>)

  const DefaultVersion: string := "2010-09-09"

  /** `File.basename(__FILE__, '.rb')` of the driver file. */
  const ProgramName: string := "compiler"

  /** The extensions `gsub` strips from the output name to form a description. */
  const OutputExtensions: seq<string> := [".json", ".yaml"]

  // ---------------------------------------------------------------------------------------
  // Header defaulting.

  /** The description used when neither option nor specification gives one. */
  function DefaultDescription(output: Option<string>): string {
    match output
    case None => ProgramName
    case Some(o) => RemoveAll(Basename(o), OutputExtensions)
  }

  /** `@spec and @spec[key]`: a value the loaded specification gives, when truthy. */
  function SpecValue(spec: Option<seq<Field>>, key: string): (r: Option<Node>)
    ensures r.Some? ==> Truthy(r.value)
  {
    match spec
    case None => None
    case Some(s) => if TruthyAt(s, key) then Get(s, key) else None
  }

  function Lift(o: Option<string>): Option<Node> {
    match o
    case None => None
    case Some(v) => Some(Str(v))
  }

  /** The first candidate present, in decreasing precedence. */
  function Pick(candidates: seq<Option<Node>>, fallback: Node): Node {
    if |candidates| == 0 then fallback
    else if candidates[0].Some? then candidates[0].value
    else Pick(candidates[1..], fallback)
  }

  lemma PickOfTwo(a: Option<Node>, b: Option<Node>, fallback: Node)
    ensures Pick([a, b], fallback) == if a.Some? then a.value else if b.Some? then b.value else fallback
  {
    if a.None? {
      assert [a, b][1..] == [b];
      assert Pick([a, b], fallback) == Pick([b], fallback);
      if b.None? {
        assert [b][1..] == [];
        assert Pick([b], fallback) == Pick([], fallback);
      }
    }
  }

  /** Format version: option, then specification, then 2010-09-09. Description: option, then
      specification, then the output file's base name without `.json`/`.yaml`, then the
      program name. The source assigns the default first and overwrites it. */
  method Header(opts: Options, spec: Option<seq<Field>>) returns (version: Node, description: Node)
    ensures version == Pick([Lift(opts.formatVersion), SpecValue(spec, "AWSTemplateFormatVersion")], Str(DefaultVersion))
    ensures description == Pick([Lift(opts.description), SpecValue(spec, "Description")], Str(DefaultDescription(opts.output)))
  {
    var desc := Str(DefaultDescription(opts.output));
    if spec.Some? && TruthyAt(spec.value, "Description") {
      desc := Get(spec.value, "Description").value;
    }
    var vers := Str(DefaultVersion);
    if spec.Some? && TruthyAt(spec.value, "AWSTemplateFormatVersion") {
      vers := Get(spec.value, "AWSTemplateFormatVersion").value;
    }
    version := if opts.formatVersion.None? then vers else Str(opts.formatVersion.value);
    description := if opts.description.None? then desc else Str(opts.description.value);
    PickOfTwo(Lift(opts.formatVersion), SpecValue(spec, "AWSTemplateFormatVersion"), Str(DefaultVersion));
    PickOfTwo(Lift(opts.description), SpecValue(spec, "Description"), Str(DefaultDescription(opts.output)));
  }

  /** Naming the output `<dir>/<name>.json` or `<dir>/<name>.yaml` makes `<name>` the default
      description, provided the name is not itself cut by the extension stripping. */
  lemma DefaultDescriptionOfOutput(dir: string, name: string, k: nat)
    requires k < |OutputExtensions|
    requires '/' !in name && FreeOf(name, OutputExtensions)
    ensures DefaultDescription(Some(dir + "/" + name + OutputExtensions[k])) == name
  {
    var ext := OutputExtensions[k];
    assert ext[|ext| - 1] != '/';
    assert '/' !in name + ext by {
      assert '/' !in ext;
    }
    BasenameOfJoin(dir, name + ext);
    assert dir + "/" + name + ext == dir + "/" + (name + ext);
    assert DotSuffixes(OutputExtensions) by {
      assert '.' !in OutputExtensions[0][1..] && '.' !in OutputExtensions[1][1..];
      assert !StartsWith(OutputExtensions[0], OutputExtensions[1]);
      assert !StartsWith(OutputExtensions[1], OutputExtensions[0]);
    }
    RemoveAllStripsSuffix(name, OutputExtensions, k);
  }

  // ---------------------------------------------------------------------------------------
  // Assembly.

  /** The top-level entries of the compiled document, in output order. */
  const TopLevelKeys: seq<string> := ["AWSTemplateFormatVersion", "Description", "Parameters", "Mappings", "Resources", "Outputs"]

  function SectionNode(s: Option<seq<Field>>): Node {
    match s
    case None => Null
    case Some(fs) => Obj(fs)
  }

  /** The compiled document of `run`, with its six top-level entries in order. */
  method Assemble(opts: Options, spec: Option<seq<Field>>,
                  parameters: Option<seq<Field>>, mappings: Option<seq<Field>>,
                  resources: Option<seq<Field>>, outputs: Option<seq<Field>>)
    returns (compiled: seq<Field>)
    ensures |compiled| == |TopLevelKeys| && forall i :: 0 <= i < |compiled| ==> compiled[i].key == TopLevelKeys[i]
    ensures compiled[2].value == SectionNode(parameters) && compiled[3].value == SectionNode(mappings)
    ensures compiled[4].value == SectionNode(resources) && compiled[5].value == SectionNode(outputs)
    ensures compiled[0].value == Pick([Lift(opts.formatVersion), SpecValue(spec, "AWSTemplateFormatVersion")], Str(DefaultVersion))
    ensures compiled[1].value == Pick([Lift(opts.description), SpecValue(spec, "Description")], Str(DefaultDescription(opts.output)))
  {
    var version, description := Header(opts, spec);
    compiled := [
      Field("AWSTemplateFormatVersion", version),
      Field("Description", description),
      Field("Parameters", SectionNode(parameters)),
      Field("Mappings", SectionNode(mappings)),
      Field("Resources", SectionNode(resources)),
      Field("Outputs", SectionNode(outputs))
    ];
  }

  // ---------------------------------------------------------------------------------------
  // The reference check.

  datatype Fault =
    | NoResources
    | NoParameters
    | WalkFailed(cause: WalkError)
    | UnknownReferences(refs: seq<Node>)

  /** `a =~ /^AWS::/` drops pseudo-parameters; a value that is not a string is never dropped
      (`Object#=~` answers `nil`). */
  predicate Excluded(x: Node) {
    x.Str? && IsPseudoParameter(x.s)
  }

  /** `refs - names`: only a string equal to a defined name is removed. */
  predicate Known(names: seq<string>, x: Node) {
    x.Str? && x.s in names
  }

  function Unresolved(refs: seq<Node>, names: seq<string>): (r: seq<Node>)
    ensures forall x :: x in r <==> x in refs && !Excluded(x) && !Known(names, x)
  {
    if |refs| == 0 then []
    else if Excluded(refs[0]) || Known(names, refs[0]) then Unresolved(refs[1..], names)
    else [refs[0]] + Unresolved(refs[1..], names)
  }

  predicate Shaped(compiled: seq<Field>) {
    SectionShaped(compiled, "Resources") && SectionShaped(compiled, "Parameters")
  }

  /** The names a reference may resolve to: Resources keys, then Parameters keys. */
  function DefinedNames(compiled: seq<Field>): seq<string>
    requires Shaped(compiled)
  {
    SectionKeys(compiled, "Resources") + SectionKeys(compiled, "Parameters")
  }

  /** `validate` of the simple compiler. */
  function Validate(compiled: seq<Field>): (r: Result<(), Fault>)
    requires Shaped(compiled)
    ensures !TruthyAt(compiled, "Resources") ==> r == Failure(NoResources)
    ensures TruthyAt(compiled, "Resources") && !TruthyAt(compiled, "Parameters") ==> r == Failure(NoParameters)
    ensures r == Failure(NoResources) <==> !TruthyAt(compiled, "Resources")
    ensures r == Failure(NoParameters) <==> TruthyAt(compiled, "Resources") && !TruthyAt(compiled, "Parameters")
    ensures r.Failure? && r.error.UnknownReferences? ==> |r.error.refs| > 0
  {
    if !TruthyAt(compiled, "Resources") then Failure(NoResources)
    else if !TruthyAt(compiled, "Parameters") then Failure(NoParameters)
    else
      match Walk(Obj(compiled))
      case Failure(e) => Failure(WalkFailed(e))
      case Success(found) =>
        var unknown := Unresolved(found, DefinedNames(compiled));
        if |unknown| > 0 then Failure(UnknownReferences(unknown)) else Success(())
  }

  /** The check passes exactly when both sections are present, the walk succeeds and every
      value it collects is a pseudo-parameter or a defined name; the reported list holds
      exactly the offenders. */
  lemma ValidateMeansResolved(compiled: seq<Field>)
    requires Shaped(compiled)
    ensures Validate(compiled).Success? <==>
      && TruthyAt(compiled, "Resources") && TruthyAt(compiled, "Parameters")
      && !Faulty(Obj(compiled))
      && forall x :: Collects(Obj(compiled), x) ==> Excluded(x) || Known(DefinedNames(compiled), x)
    ensures Validate(compiled).Failure? && Validate(compiled).error.UnknownReferences? ==>
      forall x :: x in Validate(compiled).error.refs <==>
        Collects(Obj(compiled), x) && !Excluded(x) && !Known(DefinedNames(compiled), x)
  {
    WalkMeetsSpec(Obj(compiled));
    if TruthyAt(compiled, "Resources") && TruthyAt(compiled, "Parameters") && Walk(Obj(compiled)).Success? {
      var unknown := Unresolved(Walk(Obj(compiled)).value, DefinedNames(compiled));
      if |unknown| > 0 {
        assert unknown[0] in unknown;
      }
    }
  }

  // ---------------------------------------------------------------------------------------
  // How `run` reads the loaded sections back from `@items`.

  /** `@items[dir] = {}` followed by the merges of `load_dir`, for a section directory that
      exists; a missing directory stores nothing. */
  function Store(items: seq<Field>, dir: string, section: Option<seq<Field>>): seq<Field> {
    match section
    case None => items
    case Some(fs) => Assign(items, dir, Obj(fs))
  }

  /** `@items` after `load`, which visits the section directories `Params`, `Mappings`,
      `Resources` and `Outputs` in order and stores each under its directory name. */
  function LoadedItems(parameters: Option<seq<Field>>, mappings: Option<seq<Field>>,
                       resources: Option<seq<Field>>, outputs: Option<seq<Field>>): seq<Field>
  {
    Store(Store(Store(Store([], "Params", parameters), "Mappings", mappings), "Resources", resources), "Outputs", outputs)
  }

  /** `@items[key]`: the Hash stored under `key`, or `nil`. */
  function Item(items: seq<Field>, key: string): Option<seq<Field>> {
    match Get(items, key)
    case Some(Obj(fs)) => Some(fs)
    case _ => None
  }

  /** What one key reads after storing a section. */
  lemma StoreGet(items: seq<Field>, dir: string, section: Option<seq<Field>>, k: string)
    ensures Get(Store(items, dir, section), k) ==
      if k == dir && section.Some? then Some(Obj(section.value)) else Get(items, k)
  {
    if section.Some? {
      AssignReads(items, dir, Obj(section.value));
    }
  }

  /** What one key reads after `load`: the last section stored under it, if any. */
  lemma LoadedGet(parameters: Option<seq<Field>>, mappings: Option<seq<Field>>,
                  resources: Option<seq<Field>>, outputs: Option<seq<Field>>, k: string)
    ensures Get(LoadedItems(parameters, mappings, resources, outputs), k) ==
      if k == "Outputs" && outputs.Some? then Some(Obj(outputs.value))
      else if k == "Resources" && resources.Some? then Some(Obj(resources.value))
      else if k == "Mappings" && mappings.Some? then Some(Obj(mappings.value))
      else if k == "Params" && parameters.Some? then Some(Obj(parameters.value))
      else None
    ensures Item(LoadedItems(parameters, mappings, resources, outputs), k) ==
      if k == "Outputs" then outputs else if k == "Resources" then resources
      else if k == "Mappings" then mappings else if k == "Params" then parameters else None
  {
    var i1 := Store([], "Params", parameters);
    var i2 := Store(i1, "Mappings", mappings);
    var i3 := Store(i2, "Resources", resources);
    StoreGet([], "Params", parameters, k);
    StoreGet(i1, "Mappings", mappings, k);
    StoreGet(i2, "Resources", resources, k);
    StoreGet(i3, "Outputs", outputs, k);
  }

  /** Each section reads back under the key it was stored with. */
  lemma LoadedItemsRead(parameters: Option<seq<Field>>, mappings: Option<seq<Field>>,
                        resources: Option<seq<Field>>, outputs: Option<seq<Field>>)
    ensures var items := LoadedItems(parameters, mappings, resources, outputs);
      && Item(items, "Params") == parameters && Item(items, "Mappings") == mappings
      && Item(items, "Resources") == resources && Item(items, "Outputs") == outputs
  {
    LoadedGet(parameters, mappings, resources, outputs, "Params");
    LoadedGet(parameters, mappings, resources, outputs, "Mappings");
    LoadedGet(parameters, mappings, resources, outputs, "Resources");
    LoadedGet(parameters, mappings, resources, outputs, "Outputs");
  }

  /** Nothing is stored under the lower-case keys `run` reads. */
  lemma LoadedItemsMissLowerCase(parameters: Option<seq<Field>>, mappings: Option<seq<Field>>,
                                 resources: Option<seq<Field>>, outputs: Option<seq<Field>>)
    ensures var items := LoadedItems(parameters, mappings, resources, outputs);
      && Item(items, "params").None? && Item(items, "mappings").None?
      && Item(items, "resources").None? && Item(items, "outputs").None?
  {
    LoadedGet(parameters, mappings, resources, outputs, "params");
    LoadedGet(parameters, mappings, resources, outputs, "mappings");
    LoadedGet(parameters, mappings, resources, outputs, "resources");
    LoadedGet(parameters, mappings, resources, outputs, "outputs");
  }

  /** In a document whose keys are the six top-level keys in order, each section key reads as
      its own entry. */
  lemma AssembledReads(compiled: seq<Field>)
    requires |compiled| == 6
    requires compiled[0].key == "AWSTemplateFormatVersion" && compiled[1].key == "Description"
    requires compiled[2].key == "Parameters" && compiled[3].key == "Mappings"
    requires compiled[4].key == "Resources" && compiled[5].key == "Outputs"
    ensures Get(compiled, "Parameters") == Some(compiled[2].value)
    ensures Get(compiled, "Mappings") == Some(compiled[3].value)
    ensures Get(compiled, "Resources") == Some(compiled[4].value)
    ensures Get(compiled, "Outputs") == Some(compiled[5].value)
  {
    var t2 := compiled[2..];
    assert Get(compiled, "Parameters") == Get(compiled[1..], "Parameters") == Get(t2, "Parameters");
    assert t2[0] == compiled[2] && t2[1..] == compiled[3..];
    assert Get(compiled, "Mappings") == Get(compiled[1..], "Mappings") == Get(t2, "Mappings") == Get(compiled[3..], "Mappings");
    var t4 := compiled[4..];
    assert compiled[3..][0] == compiled[3] && compiled[3..][1..] == t4;
    assert t4[0] == compiled[4] && t4[1..] == compiled[5..] && compiled[5..][0] == compiled[5];
    assert Get(compiled, "Resources") == Get(t2, "Resources") == Get(compiled[3..], "Resources") == Get(t4, "Resources");
    assert Get(compiled, "Outputs") == Get(t2, "Outputs") == Get(compiled[3..], "Outputs") == Get(t4, "Outputs")
      == Get(compiled[5..], "Outputs");
  }

  /** An entry holding a loaded section or `nil` is shaped for the check, and is truthy
      exactly when the section was loaded. */
  lemma SectionRead(compiled: seq<Field>, key: string, section: Option<seq<Field>>)
    requires Get(compiled, key) == Some(SectionNode(section))
    ensures SectionShaped(compiled, key)
    ensures TruthyAt(compiled, key) <==> section.Some?
  {
  }

  /** `run` as written (compiler.rb:48-51): the sections are read back under lower-case keys
      that `load` never stores, so every section of the compiled document is `nil` and the
      reference check always stops at its first test. */
  method AssembleAsWritten(opts: Options, spec: Option<seq<Field>>,
                           parameters: Option<seq<Field>>, mappings: Option<seq<Field>>,
                           resources: Option<seq<Field>>, outputs: Option<seq<Field>>)
    returns (compiled: seq<Field>)
    ensures Get(compiled, "Parameters") == Some(Null) && Get(compiled, "Mappings") == Some(Null)
    ensures Get(compiled, "Resources") == Some(Null) && Get(compiled, "Outputs") == Some(Null)
    ensures Shaped(compiled) && Validate(compiled) == Failure(NoResources)
  {
    var items := LoadedItems(parameters, mappings, resources, outputs);
    LoadedItemsMissLowerCase(parameters, mappings, resources, outputs);
    compiled := Assemble(opts, spec, Item(items, "params"), Item(items, "mappings"),
                         Item(items, "resources"), Item(items, "outputs"));
    assert compiled[2].key == TopLevelKeys[2] && compiled[3].key == TopLevelKeys[3];
    assert compiled[4].key == TopLevelKeys[4] && compiled[5].key == TopLevelKeys[5];
    AssembledReads(compiled);
    SectionRead(compiled, "Resources", Item(items, "resources"));
    SectionRead(compiled, "Parameters", Item(items, "params"));
  }

  /** `run` reading the sections back under the keys `load` stores them with: the compiled
      document holds exactly the loaded sections, and the check gets past its presence tests
      exactly when Resources and Parameters were loaded. */
  method AssembleAsIntended(opts: Options, spec: Option<seq<Field>>,
                            parameters: Option<seq<Field>>, mappings: Option<seq<Field>>,
                            resources: Option<seq<Field>>, outputs: Option<seq<Field>>)
    returns (compiled: seq<Field>)
    ensures Get(compiled, "Parameters") == Some(SectionNode(parameters))
    ensures Get(compiled, "Mappings") == Some(SectionNode(mappings))
    ensures Get(compiled, "Resources") == Some(SectionNode(resources))
    ensures Get(compiled, "Outputs") == Some(SectionNode(outputs))
    ensures Shaped(compiled)
    ensures Validate(compiled) != Failure(NoResources) <==> resources.Some?
    ensures Validate(compiled) != Failure(NoResources) && Validate(compiled) != Failure(NoParameters) <==>
      resources.Some? && parameters.Some?
  {
    var items := LoadedItems(parameters, mappings, resources, outputs);
    LoadedItemsRead(parameters, mappings, resources, outputs);
    compiled := Assemble(opts, spec, Item(items, "Params"), Item(items, "Mappings"),
                         Item(items, "Resources"), Item(items, "Outputs"));
    assert compiled[2].key == TopLevelKeys[2] && compiled[3].key == TopLevelKeys[3];
    assert compiled[4].key == TopLevelKeys[4] && compiled[5].key == TopLevelKeys[5];
    AssembledReads(compiled);
    SectionRead(compiled, "Resources", resources);
    SectionRead(compiled, "Parameters", parameters);
  }
}

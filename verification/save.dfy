/** `save_template`: the compiled document is written without its empty entries, and, when a
    parameters file or a stack ini file is configured, a list of the template's parameters
    with their defaults is written alongside. Writing the files is not part of this model:
    the result says what each file receives and whether the step aborts. */
module Save {

  import opened Results
  import opened Document
  import Validator

  /** `@config[:parametersfile]` and `@config[:stackinifile]`, read for truthiness. */
  datatype Config = Config(parametersFile: bool, stackIniFile: bool)

  /** One `{'ParameterKey' => ..., 'ParameterValue' => ...}` entry. */
  datatype Entry = Entry(key: string, value: Node)

  /** `hsh.has_key?` on a parameter body that is not a Hash raises, and so does iterating a
      `Parameters` entry that is a scalar; the surrounding `rescue` turns either into the
      abort "Could not write compiled file". */
  datatype SaveError = BodyNotAHash(parameter: string) | SectionNotAHash

  /** What each output file receives, `None` for a file that is not written, and the abort
      that ends the step, if any. */
  datatype Written = Written(template: seq<Field>, parametersFile: Option<seq<Entry>>, stackIni: Option<seq<Entry>>,
                             abort: Option<SaveError>)

  // ---------------------------------------------------------------------------------------
  // The empty-entry filter.

  /** An entry survives unless it is `nil` or an empty Hash; any other value, an empty
      array or `false` included, is kept. */
  predicate Kept(v: Node) {
    !v.Null? && v != Obj([])
  }

  function DropEmpty(compiled: seq<Field>): (r: seq<Field>)
    ensures forall f :: f in r <==> f in compiled && Kept(f.value)
    ensures |r| <= |compiled|
  {
    if |compiled| == 0 then []
    else if Kept(compiled[0].value) then [compiled[0]] + DropEmpty(compiled[1..])
    else DropEmpty(compiled[1..])
  }

  /** Every entry of the filtered document is a kept entry, in the original order. */
  lemma {:induction false} DropEmptyKeepsOrder(compiled: seq<Field>)
    ensures Keys(DropEmpty(compiled)) == KeptKeys(compiled)
  {
    if |compiled| > 0 {
      DropEmptyKeepsOrder(compiled[1..]);
      var rest := DropEmpty(compiled[1..]);
      if Kept(compiled[0].value) {
        assert Keys([compiled[0]] + rest) == [compiled[0].key] + Keys(rest) by {
          assert ([compiled[0]] + rest)[1..] == rest;
        }
      }
    }
  }

  /** The keys of the entries the filter keeps, in order: an independent statement of which
      entries survive. */
  function KeptKeys(compiled: seq<Field>): seq<string> {
    if |compiled| == 0 then []
    else (if Kept(compiled[0].value) then [compiled[0].key] else []) + KeptKeys(compiled[1..])
  }

  /** Reading the filtered document: a kept entry reads as before, a dropped one as missing. */
  lemma {:induction false} DropEmptyReads(compiled: seq<Field>)
    requires DistinctKeys(compiled)
    ensures DistinctKeys(DropEmpty(compiled))
    ensures forall k :: (Get(DropEmpty(compiled), k) ==
      if Get(compiled, k).Some? && Kept(Get(compiled, k).value) then Get(compiled, k) else None)
  {
    if |compiled| > 0 {
      var tail := compiled[1..];
      assert DistinctKeys(tail) by {
        forall i, j | 0 <= i < j < |tail| ensures tail[i].key != tail[j].key {
          assert tail[i] == compiled[i + 1] && tail[j] == compiled[j + 1];
        }
      }
      DropEmptyReads(tail);
      var rest := DropEmpty(tail);
      assert compiled[0].key !in Keys(tail) by {
        forall i | 0 <= i < |tail| ensures Keys(tail)[i] != compiled[0].key {
          assert tail[i] == compiled[i + 1];
        }
      }
      if Kept(compiled[0].value) {
        var r := [compiled[0]] + rest;
        assert r[1..] == rest;
        forall i, j | 0 <= i < j < |r| ensures r[i].key != r[j].key {
          if i == 0 {
            assert r[j] == rest[j - 1] && r[j] in rest;
          } else {
            assert r[i] == rest[i - 1] && r[j] == rest[j - 1];
          }
        }
      }
    }
  }

  /** The filtered document still holds a Hash, or nothing, under a key that held one. */
  lemma DropEmptyShaped(compiled: seq<Field>, key: string)
    requires DistinctKeys(compiled) && SectionShaped(compiled, key)
    ensures SectionShaped(DropEmpty(compiled), key)
  {
    DropEmptyReads(compiled);
  }

  /** Filtering twice is filtering once. */
  lemma {:induction false} DropEmptyIdempotent(compiled: seq<Field>)
    ensures DropEmpty(DropEmpty(compiled)) == DropEmpty(compiled)
  {
    if |compiled| > 0 {
      DropEmptyIdempotent(compiled[1..]);
      var rest := DropEmpty(compiled[1..]);
      if Kept(compiled[0].value) {
        assert ([compiled[0]] + rest)[0] == compiled[0];
        assert ([compiled[0]] + rest)[1..] == rest;
      }
    }
  }

  // ---------------------------------------------------------------------------------------
  // The parameter list.

  /** `hsh.has_key?('Default') ? hsh['Default'] : ''`: a `Default` that is present is used
      whatever it holds, `nil` included. */
  function DefaultOf(body: seq<Field>): (r: Node)
    ensures "Default" in Keys(body) ==> Some(r) == Get(body, "Default")
    ensures "Default" !in Keys(body) ==> r == Str("")
  {
    match Get(body, "Default")
    case Some(d) => d
    case None => Str("")
  }

  /** One entry per parameter, in the section's order; the first body that is not a Hash aborts. */
  function Listing(ps: seq<Field>): (r: Result<seq<Entry>, SaveError>)
    ensures r.Success? <==> forall i :: 0 <= i < |ps| ==> ps[i].value.Obj?
    ensures r.Success? ==> |r.value| == |ps| && forall i :: 0 <= i < |ps| ==>
      r.value[i].key == ps[i].key && r.value[i].value == DefaultOf(ps[i].value.fields)
    ensures r.Failure? ==> exists i :: (0 <= i < |ps| && !ps[i].value.Obj? && r.error == BodyNotAHash(ps[i].key) &&
      forall j :: 0 <= j < i ==> ps[j].value.Obj?)
  {
    if |ps| == 0 then Success([])
    else if !ps[0].value.Obj? then Failure(BodyNotAHash(ps[0].key))
    else
      var rest := Listing(ps[1..]);
      assert forall i :: 1 <= i < |ps| ==> ps[1..][i - 1] == ps[i];
      match rest
      case Success(es) => Success([Entry(ps[0].key, DefaultOf(ps[0].value.fields))] + es)
      case Failure(e) =>
        var i :| 0 <= i < |ps[1..]| && !ps[1..][i].value.Obj? && e == BodyNotAHash(ps[1..][i].key) &&
          forall j :: 0 <= j < i ==> ps[1..][j].value.Obj?;
        assert ps[i + 1] == ps[1..][i];
        Failure(e)
  }

  /** The list is built only when one of the two files is configured and the filtered
      template still has a `Parameters` entry; otherwise it is empty. */
  function ParameterList(config: Config, saved: seq<Field>): (r: Result<seq<Entry>, SaveError>)
    ensures !(config.parametersFile || config.stackIniFile) ==> r == Success([])
    ensures "Parameters" !in Keys(saved) ==> r == Success([])
    ensures (config.parametersFile || config.stackIniFile) && "Parameters" in Keys(saved) ==>
      match Get(saved, "Parameters").value
      case Obj(ps) => r == Listing(ps)
      case _ => r == Failure(SectionNotAHash)
  {
    if (config.parametersFile || config.stackIniFile) && "Parameters" in Keys(saved) then
      match Get(saved, "Parameters")
      case Some(Obj(ps)) => Listing(ps)
      case _ => Failure(SectionNotAHash)
    else Success([])
  }

  /** `save_template`: the template without its empty entries, written before the parameter
      list is built and so written even when building the list aborts; then each parameter
      file, only when configured and the list is not empty. */
  function SaveTemplate(config: Config, compiled: seq<Field>): (r: Written)
    ensures r.template == DropEmpty(compiled)
    ensures r.abort.Some? <==> ParameterList(config, DropEmpty(compiled)).Failure?
    ensures r.abort.Some? ==>
      r.abort.value == ParameterList(config, DropEmpty(compiled)).error && r.parametersFile.None? && r.stackIni.None?
    ensures r.abort.None? ==> var ps := ParameterList(config, DropEmpty(compiled)).value;
      && (r.parametersFile.Some? <==> config.parametersFile && |ps| > 0)
      && (r.stackIni.Some? <==> config.stackIniFile && |ps| > 0)
      && (r.parametersFile.Some? ==> r.parametersFile.value == ps)
      && (r.stackIni.Some? ==> r.stackIni.value == ps)
  {
    var saved := DropEmpty(compiled);
    match ParameterList(config, saved)
    case Failure(e) => Written(saved, None, None, Some(e))
    case Success(ps) =>
      Written(saved,
        if config.parametersFile && |ps| > 0 then Some(ps) else None,
        if config.stackIniFile && |ps| > 0 then Some(ps) else None,
        None)
  }

  /** A template whose parameters passed validation always yields its list: one entry per
      parameter in order, each holding a string or a falsy default. */
  lemma ValidatedParameterList(config: Config, compiled: seq<Field>)
    requires DistinctKeys(compiled) && LoaderShaped(compiled, "Parameters")
    requires Validator.Parameters(compiled).fault.None?
    ensures ParameterList(config, DropEmpty(compiled)).Success?
    ensures var es := ParameterList(config, DropEmpty(compiled)).value;
      && (forall i :: 0 <= i < |es| ==> es[i].value.Str? || !Truthy(es[i].value))
      && (config.parametersFile || config.stackIniFile ==>
        var blocks := Validator.ParameterBlocks(compiled);
        |es| == |blocks| && forall i :: 0 <= i < |es| ==> es[i].key == blocks[i].key)
  {
    DropEmptyShaped(compiled, "Parameters");
    DropEmptyReads(compiled);
    var saved := DropEmpty(compiled);
    var blocks := Validator.ParameterBlocks(compiled);
    assert forall i :: 0 <= i < |blocks| ==> Validator.ParameterOk(blocks[i].value) by {
      forall i | 0 <= i < |blocks| ensures Validator.ParameterOk(blocks[i].value) {
        assert blocks[i] in blocks;
      }
    }
    if (config.parametersFile || config.stackIniFile) && "Parameters" in Keys(saved) {
      assert Get(saved, "Parameters") == Get(compiled, "Parameters");
      assert ParameterList(config, saved) == Listing(blocks);
      var es := Listing(blocks).value;
      forall i | 0 <= i < |es| ensures es[i].value.Str? || !Truthy(es[i].value) {
        assert es[i].value == DefaultOf(blocks[i].value.fields);
      }
    } else if config.parametersFile || config.stackIniFile {
      assert blocks == [] by {
        if Get(compiled, "Parameters").Some? && Get(compiled, "Parameters").value.Obj? {
          assert Get(compiled, "Parameters").value == Obj([]);
        }
      }
    }
  }

  /** A `false` Parameters entry passes validation, which skips a falsy section, but it
      survives the empty-entry filter: with a parameter file configured, iterating it aborts
      the save after the template is written. */
  lemma FalseParametersAbortSave(config: Config, compiled: seq<Field>)
    requires DistinctKeys(compiled) && Get(compiled, "Parameters") == Some(Bool(false))
    requires config.parametersFile || config.stackIniFile
    ensures Validator.Parameters(compiled).fault.None?
    ensures SaveTemplate(config, compiled).abort == Some(SectionNotAHash)
    ensures SaveTemplate(config, compiled).template == DropEmpty(compiled)
  {
    DropEmptyReads(compiled);
  }

  /** A parameter whose body is not a Hash aborts the save, but only after the filtered
      template is written; no parameter file is written. */
  lemma ExampleSaveAbort()
    ensures var compiled := [Field("Parameters", Obj([Field("P", Str("x"))]))];
      SaveTemplate(Config(true, false), compiled) == Written(compiled, None, None, Some(BodyNotAHash("P")))
  {
    var ps := [Field("P", Str("x"))];
    var compiled := [Field("Parameters", Obj(ps))];
    assert compiled[1..] == [];
    assert DropEmpty(compiled) == compiled;
    assert Keys(compiled) == ["Parameters"];
    assert Listing(ps) == Failure(BodyNotAHash("P"));
  }

  /** A parameter without a `Default` is listed with an empty value, and an empty `Mappings`
      Hash is left out of the written template. */
  lemma ExampleSave()
    ensures var p := Field("Parameters", Obj([Field("Env", Obj([Field("Type", Str("String"))]))]));
      var compiled := [Field("Mappings", Obj([])), p, Field("Outputs", Null)];
      SaveTemplate(Config(true, false), compiled) ==
        Written([p], Some([Entry("Env", Str(""))]), None, None)
  {
    var p := Field("Parameters", Obj([Field("Env", Obj([Field("Type", Str("String"))]))]));
    var compiled := [Field("Mappings", Obj([])), p, Field("Outputs", Null)];
    var tail := [p, Field("Outputs", Null)];
    assert compiled[1..] == tail;
    assert tail[1..] == [Field("Outputs", Null)];
    assert [Field("Outputs", Null)][1..] == [];
    assert DropEmpty([Field("Outputs", Null)]) == [];
    assert Kept(p.value);
    assert DropEmpty(tail) == [p] + DropEmpty(tail[1..]);
    assert !Kept(compiled[0].value);
    assert DropEmpty(compiled) == [p];
    assert Keys([p]) == ["Parameters"];
    var body := Obj([Field("Type", Str("String"))]);
    assert Get([p], "Parameters") == Some(Obj([Field("Env", body)]));
    assert Listing([Field("Env", body)]) == Success([Entry("Env", Str(""))]) by {
      assert [Field("Env", body)][1..] == [];
      assert Get(body.fields, "Default") == None by {
        assert body.fields[1..] == [];
      }
      assert DefaultOf(body.fields) == Str("");
      assert Listing([]) == Success([]);
      assert [Entry("Env", Str(""))] + [] == [Entry("Env", Str(""))];
    }
  }
}

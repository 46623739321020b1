# aws-cfn-compiler, modelled in Dafny

aws-cfn-compiler assembles an AWS CloudFormation template from a directory of fragment
files. There is one fragment directory per section (Params, Mappings, Resources,
Outputs). A specification file may restrict which fragments are used.

This project models the compiler's core as pure functions and verified methods over a
JSON-like document (`Document.Node`: Hash, Array, string, integer, boolean, `nil`; a Hash
keeps its insertion order).

- **`FileSet`** (`file_set.dfy`) models `get_file_set` of the load mixin. It splits base
  names against `^(\S+)\.(ext|...)$`, keeps only wanted names, and picks the candidate
  under the latest extension of the precedence list. It also reports the paths it logs
  as ignored.
- **`SectionMerge`** (`merge.dfy`) models the loop in `load_dir`. A file is kept only if
  it is a structured file and passes the selection. Blank files are skipped. Read, parse
  and non-Hash failures abort. A key defined twice aborts the load.
- **`References`** (`references.dfy`) models `find_refs` of the simple compiler.
- **`Compiler`** (`compiler.dfy`) models the simple compiler's header defaulting, the
  compiled document it assembles, and its `validate`.
- **`Validator`** (`validator.dfy`) models `validate` of the compiler base class. It runs
  six categories in order: Resources present, parameter shape, supported functions,
  mappings, conditions, references. The first failing category aborts. The unused and
  unreferenced lists are logged as notes.
- **`Save`** (`save.dfy`) models `save_template`. It drops `nil` and empty-Hash entries,
  builds the parameter list, and decides which files are written.
- **`Items`** (`items.dfy`) models `dynamic_item`.
- Shared helpers:
  - `Results`: Option and Result.
  - `Lists`: Ruby `uniq` and `Array#-`.
  - `Strings`: `File.basename`, `gsub` of extensions, line anchors, sorting.
  - `Document`: Hash access and assignment.

Aborts (`abort!`, `raise`) are `Failure` values. `nil` is `None` or `Null`. Ruby
truthiness is `Document.Truthy`.

## Model

| member | source | states |
|---|---|---|
| FileSet.GetFileSet | lib/aws/cfn/compiler/mixins/load.rb:7-55 | A nil `want` is an error before anything else. A missing directory is an error. Otherwise the result maps exactly the wanted names some listed file matched, each to the candidate under the latest extension that has one. The ignored paths are exactly the candidates a later extension displaced. |
| FileSet.SplitLine | lib/aws/cfn/compiler/mixins/load.rb:13-17 | A matched line is `<name>.<ext>` with a non-empty, whitespace-free name and an extension from the list. The name is the longest possible (greedy `\S+`). No match means no split exists. With no extensions the whole line is the name and the extension is empty. |
| FileSet.SplitBasename | lib/aws/cfn/compiler/mixins/load.rb:26-29 | The match of a base name gives a non-empty, whitespace-free name and an extension the precedence loop visits. A single-line base name is split as one line. |
| FileSet.Longest | lib/aws/cfn/compiler/mixins/load.rb:13 | The greedy split point is the largest one at which the line splits. No split exists when none is found. |
| FileSet.LastWithIsCandidate | lib/aws/cfn/compiler/mixins/load.rb:25-33 | `set[e][n]` holds a listed, wanted path of that name and extension, and no later listed entry has that name and extension. It is empty only when there is none. |
| FileSet.SurvivorIsLatest | lib/aws/cfn/compiler/mixins/load.rb:43-49 | A name's survivor is its candidate under the latest extension that has one. There is no survivor only when no extension has a candidate. |
| FileSet.SurvivorsAreWantedMatches | lib/aws/cfn/compiler/mixins/load.rb:18-54 | A name gets a file exactly when it is wanted and some listed base name matches with that name. The file is one of the listed paths. |
| FileSet.GroupByExtension | lib/aws/cfn/compiler/mixins/load.rb:25-34 | After the glob loop, every `set[e][n]` equals the last wanted candidate of name `n` and extension `e`. |
| FileSet.Overlay | lib/aws/cfn/compiler/mixins/load.rb:39-54 | Visiting the extension sets in precedence order leaves each name's survivor in the result. It logs exactly the displaced candidates. |
| FileSet.YamlOverridesJson | lib/aws/cfn/compiler/mixins/load.rb:43-49 | With precedence `json, yaml`, `x.yaml` wins over `x.json`, and `x.json` is the path logged as ignored. |
| FileSet.SplitOfExample | lib/aws/cfn/compiler/mixins/load.rb:13-29 | `<dir>/x.json` and `<dir>/x.yaml` split into `x` and their extension under the extensions `json, yaml`. |
| Compiler.Header | lib/aws/cfn/compiler.rb:37-47 | The format version is the option if given, else the specification's truthy value, else 2010-09-09. The description is the option, else the specification's, else the output base name without `.json`/`.yaml`, else the program name. |
| Compiler.DefaultDescriptionOfOutput | lib/aws/cfn/compiler.rb:37 | An output named `<dir>/<name>.json` or `.yaml` gives `<name>` as the default description. |
| Compiler.Assemble | lib/aws/cfn/compiler.rb:45-52 | The compiled document has the six top-level keys in order: the header values, then the four sections it is given. The sections are parameters, standing for the wiring `run` evidently intends (see Findings). |
| Compiler.LoadedGet | lib/aws/cfn/compiler.rb:125-126 | After `load`, a key reads as the section stored under that directory name, and every other key reads as `nil`. |
| Compiler.LoadedItemsRead | lib/aws/cfn/compiler.rb:125-126 | Each loaded section reads back under its directory name (`Params`, `Mappings`, `Resources`, `Outputs`). |
| Compiler.LoadedItemsMissLowerCase | lib/aws/cfn/compiler.rb:48-51 | Nothing is stored under `params`, `mappings`, `resources` or `outputs`, the keys `run` reads. |
| Compiler.AssembleAsWritten | lib/aws/cfn/compiler.rb:45-52 | Reading the sections under the lower-case keys leaves all four sections `nil`, so the check always aborts with 'No resources!?', whatever was loaded. |
| Compiler.AssembleAsIntended | lib/aws/cfn/compiler.rb:45-52 | Reading the sections under the keys `load` stores them with puts exactly the loaded sections in the document. The check then gets past 'No resources!?' exactly when Resources was loaded, and past both presence tests exactly when Resources and Parameters were. |
| Compiler.Validate | lib/aws/cfn/compiler.rb:68-80 | The check fails with 'No resources!?' exactly when Resources is falsy. It fails with 'No parameters!?' exactly when Resources is truthy and Parameters is falsy. An unknown-reference failure lists at least one name. |
| Compiler.ValidateMeansResolved | lib/aws/cfn/compiler.rb:68-80 | The check passes exactly when both sections are present, the walk succeeds, and every collected value is an `AWS::` pseudo-parameter or a Resources/Parameters key. The reported list is exactly the offenders. |
| Compiler.Unresolved | lib/aws/cfn/compiler.rb:72-74 | `refs - names` after the `AWS::` filter keeps exactly the values that are neither pseudo-parameters nor defined names. |
| References.Walk | lib/aws/cfn/compiler.rb:137-152 | The collected references are free of nested arrays and `nil`, and hold no duplicates. |
| References.WalkMeetsSpec | lib/aws/cfn/compiler.rb:137-152 | The walk fails exactly when some `Fn::GetAtt` holds a scalar. Otherwise it collects exactly the values under the reference keys, the first `GetAtt` argument, and those found recursively. |
| References.EntryMeetsSpec | lib/aws/cfn/compiler.rb:141-147 | One Hash entry collects its value under a reference key, the first element under `Fn::GetAtt`, and recurses otherwise. |
| References.FirstMeetsSpec | lib/aws/cfn/compiler.rb:144 | `first` fails exactly on a scalar. On a Hash it gives the first key and its flattened value. On an Array it gives the flattened first element. |
| References.EntriesMeetSpec | lib/aws/cfn/compiler.rb:140-148 | The walk over a Hash fails exactly when one entry fails, and otherwise collects the union of its entries. |
| References.ElementsMeetSpec | lib/aws/cfn/compiler.rb:149-150 | The walk over an Array fails exactly when one element fails, and otherwise collects the union of its elements. |
| References.FlattenIsNested | lib/aws/cfn/compiler.rb:148 | `flatten.compact` keeps exactly the non-array, non-nil values nested in its argument. |
| SectionMerge.Selected | lib/aws/cfn/compiler.rb:168-171 | Only a `.json`/`.yaml`/`.yml` file passes the guards. Every such file passes when the specification gives no selection for the section. With a truthy selection, a structured file passes exactly when `include?` of its base name holds for that selection. The test fails only on an unusable selection. |
| SectionMerge.Contribution | lib/aws/cfn/compiler.rb:168-190 | A file adds nothing or the fields of the Hash it parses to, and a selected file that parses to a Hash adds exactly its fields. A selected file that cannot be read, does not parse, or parses to a non-Hash aborts with that error. A file the guards skip adds nothing, and an unusable selection aborts with its error. A file's own failure is never a duplicate-item error. |
| SectionMerge.MergeFrom | lib/aws/cfn/compiler.rb:167-190 | A successful merge extends the section built so far. A failure is a duplicate item or the error of one of the files. |
| SectionMerge.LoadSection | lib/aws/cfn/compiler.rb:154-192 | Loading a section aborts only on a duplicate item or on the error of one of the files. |
| SectionMerge.MergeIsDisjointUnion | lib/aws/cfn/compiler.rb:172-190 | Folding the files' contributions into a section with distinct keys succeeds exactly when no contribution fails and the section plus all contributed items have distinct keys. The result is then the section followed by every item, in order. |
| SectionMerge.LoadSectionIsDisjointUnion | lib/aws/cfn/compiler.rb:167-192 | Loading a section succeeds exactly when no file fails and no item is defined by two files. The section is then every file's items, in the order the files were found. |
| SectionMerge.ContributionsDistinct | lib/aws/cfn/compiler.rb:173-190 | When every parsed Hash has distinct keys, so does every file's contribution. |
| SectionMerge.ContributionsFail | lib/aws/cfn/compiler.rb:173-185 | A file's own failure is never a duplicate-item error. |
| SectionMerge.DuplicateIsReal | lib/aws/cfn/compiler.rb:186 | A duplicate is reported only for a key that two contributions, or the section so far and one contribution, really define. |
| SectionMerge.UnstructuredContributesNothing | lib/aws/cfn/compiler.rb:168 | A file outside `.json`, `.yaml` and `.yml` contributes nothing. |
| SectionMerge.BlankContributesNothing | lib/aws/cfn/compiler.rb:176-177 | A zero-length file contributes nothing whenever its selection test succeeds, whether or not it is selected. |
| SectionMerge.UnlistedContributesNothing | lib/aws/cfn/compiler.rb:169-171 | Under a selection list, a file whose base name is not listed contributes nothing. |
| SectionMerge.Includes | lib/aws/cfn/compiler.rb:169-171 | The test fails exactly when the selection is not an Array, Hash or string. Otherwise it holds exactly when some element of the Array equals the base name, some key of the Hash is the base name, or the base name occurs at some position of the string. |
| SectionMerge.ListedContributesFields | lib/aws/cfn/compiler.rb:168-187 | Under a truthy selection, a structured file the selection names whose content is a Hash contributes exactly that Hash's items. |
| SectionMerge.FirstClash | lib/aws/cfn/compiler.rb:186 | A reported clash is a key both the section and the new item hold, and it is the first such key in the item's order: every earlier key is fresh. No clash means the new keys are all fresh. |
| Validator.CheckParameter | lib/aws/cfn/compiler/base.rb:37-48 | A parameter fails exactly when its block is not a Hash, its truthy Type is not String/Number/CommaDelimitedList, or its truthy Default is not a string. The fault names the parameter. The checks run in order: the block fault comes exactly for a non-Hash block, a type fault carries the offending Type, and a default fault comes only for a Hash with an acceptable Type and carries the offending Default. |
| Validator.CheckParameters | lib/aws/cfn/compiler/base.rb:36-49 | No fault exactly when every parameter is well-formed. Otherwise the fault is that of the first bad parameter, all earlier ones being fine. |
| Validator.Parameters | lib/aws/cfn/compiler/base.rb:35-51 | The parameter step logs nothing. It aborts exactly when some parameter block is malformed, at the first such block. An absent section passes. |
| Validator.Functions | lib/aws/cfn/compiler/base.rb:54-64 | It aborts exactly when some function used is unsupported, and the fault lists exactly the unsupported ones. |
| Validator.IndexKeepsLastUse | lib/aws/cfn/compiler/base.rb:72-74 | Building `maps` by assignment keeps each mapping once, with the location of its last use. |
| Validator.IndexNames | lib/aws/cfn/compiler/base.rb:73-74 | `maps.keys` is the used names without duplicates, in first-use order. |
| Validator.Mappings | lib/aws/cfn/compiler/base.rb:67-90 | The mapping step either aborts with a non-empty list of unknown mappings and logs nothing, or logs at most one warning, listing unused mappings, and never an empty one. |
| Validator.MappingsFault | lib/aws/cfn/compiler/base.rb:67-82 | The mapping step aborts exactly when some used mapping is undeclared, and then notes nothing. |
| Validator.MappingsOffenders | lib/aws/cfn/compiler/base.rb:75-81 | The abort lists exactly the undeclared mappings, each once, with its last location. |
| Validator.MappingsNotes | lib/aws/cfn/compiler/base.rb:83-89 | Without an abort, the unused-mappings warning lists exactly the declared mappings no use names. It is logged only when that list is non-empty. |
| Validator.Conditions | lib/aws/cfn/compiler/base.rb:93-111 | It aborts exactly when some used condition is undeclared, listing exactly those. Otherwise it warns about exactly the unused declared conditions, if any. |
| Validator.RealNames | lib/aws/cfn/compiler/base.rb:116 | The `AWS::` filter keeps exactly the non-pseudo-parameter names. |
| Validator.References | lib/aws/cfn/compiler/base.rb:114-142 | The reference step either aborts with a non-empty list of unknown references and logs nothing, or logs at most the unused-parameters warning and then the unreferenced-resources list, never an empty one. |
| Validator.ReferencesFault | lib/aws/cfn/compiler/base.rb:116-127 | The reference step aborts exactly when a non-`AWS::` reference names no resource, parameter or condition. The abort notes nothing. |
| Validator.ReferencesOffenders | lib/aws/cfn/compiler/base.rb:120-126 | The abort lists exactly the unresolved references, each once, with its location. |
| Validator.ReferencesNotes | lib/aws/cfn/compiler/base.rb:128-141 | Without an abort, the notes are the unused parameters and then the unreferenced resources (sorted), each only when non-empty, each list exactly as the set difference. |
| Validator.Validate | lib/aws/cfn/compiler/base.rb:30-31 | A template without a truthy Resources aborts at once, with nothing logged. |
| Validator.ValidateStopsAtFirstFailure | lib/aws/cfn/compiler/base.rb:30-143 | Validation passes exactly when every category passes. Otherwise the fault's category fails and every earlier category passes. |
| Validator.ValidateKeepsEarlierNotes | lib/aws/cfn/compiler/base.rb:76-141 | The mapping and condition warnings are logged even when a later category aborts. An abort up to the mapping step leaves nothing logged. A passing run logs the mapping, condition and reference notes in that order. |
| Items.DynamicItem | lib/aws/cfn/compiler/base.rb:23-28 | The resource reads as the new definition in its section, and the section is created on first use. Every other resource and every other section is unchanged. Names stay distinct. |
| Document.AssignReads | lib/aws/cfn/compiler/base.rb:27 | After Hash assignment the key reads as the new value and every other key as before. |
| Save.DropEmpty | lib/aws/cfn/compiler/base.rb:154-161 | The written template holds exactly the entries that are neither `nil` nor an empty Hash. |
| Save.DropEmptyKeepsOrder | lib/aws/cfn/compiler/base.rb:155-158 | The kept entries stay in the template's order. |
| Save.DropEmptyReads | lib/aws/cfn/compiler/base.rb:154-161 | A kept key reads as before, a dropped one as missing, and keys stay distinct. |
| Save.DropEmptyIdempotent | lib/aws/cfn/compiler/base.rb:154-161 | Filtering twice is filtering once. |
| Save.DefaultOf | lib/aws/cfn/compiler/base.rb:175 | The value is the Default whenever the key is present, `nil` included, and `''` otherwise. |
| Save.Listing | lib/aws/cfn/compiler/base.rb:171-178 | The list succeeds exactly when every body is a Hash: one entry per parameter, in order. Otherwise the first non-Hash body aborts. |
| Save.ParameterList | lib/aws/cfn/compiler/base.rb:169-179 | The list is empty unless a parameters or stack ini file is configured and the filtered template keeps Parameters. Then it is the listing of that section. |
| Save.SaveTemplate | lib/aws/cfn/compiler/base.rb:154-199 | The template file always receives the filtered document: it is written before the list is built. A failing list then aborts, and no parameter file is written. Otherwise each parameter file receives the list only when configured and the list is non-empty. |
| Save.ValidatedParameterList | lib/aws/cfn/compiler/base.rb:36-48 | A template whose parameters passed validation always yields its list. Each value is a string or a falsy Default. When configured, the keys are the parameters in order. |
| Save.FalseParametersAbortSave | lib/aws/cfn/compiler/base.rb:169-171 | A `false` Parameters entry passes validation, which skips a falsy section. It survives the filter, so with a parameter file configured the save aborts after writing the template. |
| Save.ExampleSaveAbort | lib/aws/cfn/compiler/base.rb:167-178 | A parameter whose body is a string aborts the save, after the template is written and before any parameter file. |
| Save.ExampleSave | lib/aws/cfn/compiler/base.rb:154-178 | An empty Mappings Hash and a `nil` Outputs are dropped. A parameter without a Default is listed with `''`. |
| Strings.Basename | lib/aws/cfn/compiler.rb:170 | `File.basename` has no `/` except for a path made only of slashes. It is non-empty for a non-empty path, and a path without a slash is its own base name. |
| Strings.RemoveAll | lib/aws/cfn/compiler.rb:37 | `gsub` of the alternatives never lengthens the string. |
| Strings.IsPseudoParameter | lib/aws/cfn/compiler/base.rb:116 | `=~ /^AWS::/` accepts a name starting `AWS::`. A name without a line feed is accepted only then; `^` also matches after a line feed. |
| Strings.RemoveAllStripsSuffix | lib/aws/cfn/compiler.rb:37 | Removing the `.json`/`.yaml` alternatives from `<name><ext>` gives back `<name>` when `<name>` holds none of them. |
| Strings.RemoveAllOfFree | lib/aws/cfn/compiler.rb:37 | `gsub` of alternatives that never occur leaves the string unchanged. |
| Strings.Sort | lib/aws/cfn/compiler/base.rb:135 | `sort` gives an ordered permutation of its input. |
| Lists.Dedup | lib/aws/cfn/compiler.rb:148 | `uniq` keeps each element once and loses none. |
| Lists.Difference | lib/aws/cfn/compiler/base.rb:75 | `a - b` keeps exactly the elements of `a` not in `b`. |

## Left out

- I/O is not modelled: file reading, directory listing and globbing, logging, process exit, and writing the output files. The directory listing (in glob order), whether a directory exists, file contents as parsed values, and parse failures are inputs.
- JSON/YAML parsing and serialisation, `save_section` and `save_inifile` are not part of this model. The result says what each file receives and whether the step aborts.
- Floating-point numbers are left out: numbers are integers.
- `want` names and extensions are taken as literal strings, not regular-expression source, so the `RegexpError` path of `get_file_set` cannot arise.
- A name in `want` is matched by literal membership. A matched name has no whitespace, so an anchored alternation is equivalent.
- `File.expand_path` and `@config[:expandedpaths]` are left out: the path is used as given.
- The extractors `find_fns`, `find_maps` and `find_conditions` are not part of this model. Their findings, and the Hash `find_refs` gives the base class, are inputs to `Validator.Validate`.
- `load`, `load_spec`, option parsing, `vet_path` and `save` of the simple compiler are not modelled.
- The loaded sections are parameters of `Compiler.Assemble`. `run` reads `@items` under `'params'`, `'mappings'`, `'resources'` and `'outputs'` (compiler.rb:48-51), but `load` stores them under `'Params'`, `'Mappings'`, `'Resources'` and `'Outputs'` (compiler.rb:125-126, 159, 163). All four sections are therefore `nil` as written, and `validate` always raises 'No resources!?' (compiler.rb:69). `Compiler.AssembleAsWritten` models this; see Findings.
- Validator.Validate: a precondition excludes a Resources or Parameters entry that is truthy but not a Hash, and a Mappings entry that is neither absent, `nil` nor a Hash. A falsy Resources or Parameters is modelled (the abort, or the skipped block). Ruby raises outside any rescue for a non-Hash Resources (`.keys` at base.rb:117), a string, number or `true` Parameters (`.each` at base.rb:37) and a `false` or non-Hash Mappings (`.keys` after the `nil?` test at base.rb:69). An Array Parameters does not raise: `.each` at base.rb:37 visits its elements, and that path is not modelled.
- Compiler.Validate: a precondition excludes a Resources or Parameters entry that is truthy but not a Hash. Ruby raises on `.keys` at compiler.rb:71 for it. A falsy entry is modelled.
- Save.ValidatedParameterList: requires Parameters to be absent, `nil` or a Hash, as the loader builds it. `Save.FalseParametersAbortSave` shows that a `false` entry passes validation but aborts the save.
- FileSet.GetFileSet: the result is a map. Ruby's `res` Hash (load.rb:43-52) also keeps the order in which names were first seen, and that order is not modelled.
- Save.ParameterList: a `Parameters` entry that is an Array is treated like a scalar and aborts. Ruby would iterate its elements and abort only on the first one without `has_key?`.
- Parameter blocks and `Default` are read with first-match lookup. A parsed Hash never repeats a key.
- The informational "validated" and "Ignoring" log lines are not modelled, except as the returned set of ignored paths. The unused/unreferenced lists are kept as notes, with their log level.
- Hash equality ignores key order in Ruby. Here documents are compared as ordered sequences.
- References.Walk: `uniq` (compiler.rb:148, 150) treats two Hashes with the same entries in a different order as one value. The model keeps both, so a reference whose value is such a Hash can be listed twice. `Compiler.Validate` then reports it twice where Ruby reports it once.
- `IsStructured` folds case for ASCII letters only. Ruby's `/i` also folds some other characters, such as `ſ` against `s`.
- The directory tests of `load_dir` (compiler.rb:156-166) are not modelled, including the fallback to the lower-case directory name. The listing of the chosen directory is an input.

## Findings

| source | as written | input that shows it | evidently intended | confidence | as-written member | corrected member |
|---|---|---|---|---|---|---|
| lib/aws/cfn/compiler.rb:48-51 | `run` reads the sections from `@items` under `'params'`, `'mappings'`, `'resources'` and `'outputs'`. `load` stores them under `'Params'`, `'Mappings'`, `'Resources'` and `'Outputs'` (compiler.rb:125-126), so every section of the compiled document is `nil`. | Any run, for example a `Resources/r.json` holding `{"R": {"Type": "AWS::SNS::Topic"}}` and a `Params/p.json` holding `{"P": {"Type": "String"}}`. The check aborts with 'No resources!?'. | Read each section under the key `load` stores it with. | not executed | Compiler.AssembleAsWritten | Compiler.AssembleAsIntended |

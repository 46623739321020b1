/** `validate` of the compiler base class: parameter shape, the function whitelist, mappings,
    conditions and references, checked in that order. The usage extractors (`find_fns`,
    `find_maps`, `find_conditions`, `find_refs`) are not part of this model: their findings
    are inputs. */
module Validator {

  import opened Results
  import opened Document
  import opened Strings
  import opened Lists

  /** An extractor's finding: a name and where in the template it is used. */
  datatype Use = Use(name: string, location: seq<string>)

  /** What the extractors found in the compiled template. `refs` stands for a Hash from
      reference name to location. */
  datatype Usage = Usage(functions: seq<string>, mappings: seq<Use>, conditions: seq<string>, refs: seq<Use>)

  /** The reasons for `abort!`. */
  datatype Fault =
    | NoResources
    | InvalidBlock(parameter: string)
    | InvalidType(parameter: string, given: Node)
    | InvalidDefault(parameter: string, given: Node)
    | UnsupportedFunctions(functions: seq<string>)
    | UnknownMappings(uses: seq<Use>)
    | UnknownConditions(conditions: seq<string>)
    | UnknownReferences(uses: seq<Use>)

  /** The lists logged without aborting. */
  datatype Note =
    | UnusedMappings(names: seq<string>)
    | UnusedConditions(names: seq<string>)
    | UnusedParameters(names: seq<string>)
    | UnreferencedResources(names: seq<string>)

  /** Only the unreferenced resources are logged at info level; the rest are warnings. */
  predicate IsWarning(n: Note) {
    !n.UnreferencedResources?
  }

  /** The notes logged so far and the fault that stopped validation, if any. */
  datatype Outcome = Outcome(notes: seq<Note>, fault: Option<Fault>)

  // ---------------------------------------------------------------------------------------
  // Names.

  function Names(us: seq<Use>): (r: seq<string>)
    ensures |r| == |us|
    ensures forall i :: 0 <= i < |us| ==> r[i] == us[i].name
  {
    seq(|us|, i requires 0 <= i < |us| => us[i].name)
  }

  /** Ruby `hash[key].keys rescue []`: keys of a Hash, nothing for anything else. */
  function RescuedKeys(compiled: seq<Field>, key: string): (r: seq<string>)
    ensures SectionShaped(compiled, key) ==> r == SectionKeys(compiled, key)
  {
    match Get(compiled, key)
    case Some(Obj(fs)) => Keys(fs)
    case _ => []
  }

  /** The last use named `n`: its location is what `maps[n]` holds once every use is assigned. */
  function LastFor(uses: seq<Use>, n: string): (r: Option<Use>)
    ensures r.Some? ==> r.value in uses && r.value.name == n
    ensures r.None? <==> n !in Names(uses)
    decreases |uses|
  {
    if |uses| == 0 then None
    else
      var u := uses[|uses| - 1];
      var r := LastFor(uses[..|uses| - 1], n);
      assert Names(uses) == Names(uses[..|uses| - 1]) + [u.name];
      if u.name == n then Some(u) else r
  }

  /** Overwrites the entry named `u.name` with `u`. */
  function Replace(d: seq<Use>, u: Use): (r: seq<Use>)
    ensures |r| == |d|
    ensures forall i :: 0 <= i < |d| ==> r[i] == if d[i].name == u.name then u else d[i]
  {
    if |d| == 0 then []
    else [if d[0].name == u.name then u else d[0]] + Replace(d[1..], u)
  }

  /** The Hash built by assigning every use in turn. */
  function Index(uses: seq<Use>): seq<Use>
    decreases |uses|
  {
    if |uses| == 0 then []
    else
      var d := Index(uses[..|uses| - 1]);
      var u := uses[|uses| - 1];
      if u.name in Names(d) then Replace(d, u) else d + [u]
  }

  /** The keys come in the order of their first assignment, like `uniq`. */
  lemma {:induction false} IndexNames(uses: seq<Use>)
    ensures Names(Index(uses)) == Dedup(Names(uses))
    decreases |uses|
  {
    if |uses| > 0 {
      var init := uses[..|uses| - 1];
      var u := uses[|uses| - 1];
      var d := Index(init);
      IndexNames(init);
      var ns := Names(uses);
      assert ns[..|ns| - 1] == Names(init);
      assert ns[|ns| - 1] == u.name;
      assert Dedup(ns) == if u.name in Dedup(Names(init)) then Dedup(Names(init)) else Dedup(Names(init)) + [u.name];
      if u.name in Names(d) {
        assert Index(uses) == Replace(d, u);
        assert Names(Replace(d, u)) == Names(d);
      } else {
        assert Index(uses) == d + [u];
        assert Names(d + [u]) == Names(d) + [u.name];
      }
    }
  }

  /** Every key holds the location assigned to it last. */
  lemma {:induction false} IndexKeepsLastUse(uses: seq<Use>)
    ensures forall i :: 0 <= i < |Index(uses)| ==> LastFor(uses, Index(uses)[i].name) == Some(Index(uses)[i])
    decreases |uses|
  {
    if |uses| > 0 {
      var init := uses[..|uses| - 1];
      var u := uses[|uses| - 1];
      var d := Index(init);
      IndexKeepsLastUse(init);
      var r := Index(uses);
      assert r == if u.name in Names(d) then Replace(d, u) else d + [u];
      forall i | 0 <= i < |r| ensures LastFor(uses, r[i].name) == Some(r[i]) {
        if r[i].name != u.name {
          assert i < |d| && r[i] == d[i];
        }
      }
    }
  }

  /** A use is in the Hash exactly when it is the last use of its name. */
  lemma IndexMembers(uses: seq<Use>)
    ensures forall u :: u in Index(uses) <==> LastFor(uses, u.name) == Some(u)
    ensures forall n :: n in Names(Index(uses)) <==> n in Names(uses)
  {
    IndexNames(uses);
    IndexKeepsLastUse(uses);
    var d := Index(uses);
    forall u: Use | LastFor(uses, u.name) == Some(u) ensures u in d {
      assert u.name in Names(uses);
      assert u.name in Names(d);
      var i :| 0 <= i < |d| && Names(d)[i] == u.name;
      assert d[i] == u;
    }
  }

  /** The uses whose name is not among `names`: `hash.keys - names` with each name's
      location at hand. */
  function Undeclared(uses: seq<Use>, names: seq<string>): (r: seq<Use>)
    ensures forall u :: u in r <==> u in uses && u.name !in names
    ensures Names(r) == Difference(Names(uses), names)
  {
    if |uses| == 0 then []
    else
      assert Names(uses)[1..] == Names(uses[1..]);
      if uses[0].name in names then Undeclared(uses[1..], names)
      else [uses[0]] + Undeclared(uses[1..], names)
  }

  /** `refs.select { |a, _| !(a =~ /^AWS::/) }`. */
  function Real(uses: seq<Use>): (r: seq<Use>)
    ensures forall u :: u in r <==> u in uses && !IsPseudoParameter(u.name)
  {
    if |uses| == 0 then []
    else if IsPseudoParameter(uses[0].name) then Real(uses[1..])
    else [uses[0]] + Real(uses[1..])
  }

  /** `a - b` only asks whether each element of `a` is in `b`. */
  lemma {:induction false} DifferenceByMembers(a: seq<string>, b: seq<string>, c: seq<string>)
    requires forall x :: x in b <==> x in c
    ensures Difference(a, b) == Difference(a, c)
    decreases |a|
  {
    if |a| > 0 {
      DifferenceByMembers(a[1..], b, c);
    }
  }

  /** `a - b` keeps `a`'s order, so a sorted list stays sorted. */
  lemma {:induction false} DifferenceSorted(a: seq<string>, b: seq<string>)
    requires Sorted(a)
    ensures Sorted(Difference(a, b))
    decreases |a|
  {
    if |a| > 0 {
      var t := a[1..];
      assert Sorted(t) by {
        assert forall i :: 0 <= i < |t| ==> t[i] == a[i + 1];
      }
      DifferenceSorted(t, b);
      var d := Difference(t, b);
      if a[0] !in b {
        forall j | 0 <= j < |d| ensures LessEq(a[0], d[j]) {
          assert d[j] in t;
          var k :| 0 <= k < |t| && t[k] == d[j];
          assert a[k + 1] == d[j];
        }
        assert Difference(a, b) == [a[0]] + d;
      }
    }
  }

  lemma RealNames(uses: seq<Use>)
    ensures forall n :: n in Names(Real(uses)) <==> n in Names(uses) && !IsPseudoParameter(n)
  {
    var r := Real(uses);
    forall n | n in Names(uses) && !IsPseudoParameter(n) ensures n in Names(r) {
      var i :| 0 <= i < |uses| && uses[i].name == n;
      assert uses[i] in r;
      var j :| 0 <= j < |r| && r[j] == uses[i];
      assert Names(r)[j] == n;
    }
  }

  // ---------------------------------------------------------------------------------------
  // Parameters.

  const ParameterTypes: seq<Node> := [Str("String"), Str("Number"), Str("CommaDelimitedList")]

  /** A compiled parameter block: a Hash whose truthy `Type` is a known type and whose
      truthy `Default` is a string. */
  predicate ParameterOk(body: Node) {
    && body.Obj?
    && (TruthyAt(body.fields, "Type") ==> Get(body.fields, "Type").value in ParameterTypes)
    && (TruthyAt(body.fields, "Default") ==> Get(body.fields, "Default").value.Str?)
  }

  /** The checks on one parameter, in the source's order: the block, then its `Type`, then
      its `Default`; each fault carries the offending value. */
  function CheckParameter(p: Field): (r: Option<Fault>)
    ensures r.None? <==> ParameterOk(p.value)
    ensures r.Some? ==> (r.value.InvalidBlock? || r.value.InvalidType? || r.value.InvalidDefault?) && r.value.parameter == p.key
    ensures r.Some? ==> (r.value.InvalidBlock? <==> !p.value.Obj?)
    ensures r.Some? && r.value.InvalidType? ==>
      && TruthyAt(p.value.fields, "Type")
      && r.value.given == Get(p.value.fields, "Type").value
      && r.value.given !in ParameterTypes
    ensures r.Some? && r.value.InvalidDefault? ==>
      && p.value.Obj?
      && (TruthyAt(p.value.fields, "Type") ==> Get(p.value.fields, "Type").value in ParameterTypes)
      && TruthyAt(p.value.fields, "Default")
      && r.value.given == Get(p.value.fields, "Default").value
      && !r.value.given.Str?
  {
    if !p.value.Obj? then Some(InvalidBlock(p.key))
    else
      var t := Get(p.value.fields, "Type");
      var d := Get(p.value.fields, "Default");
      if t.Some? && Truthy(t.value) && t.value !in ParameterTypes then Some(InvalidType(p.key, t.value))
      else if d.Some? && Truthy(d.value) && !d.value.Str? then Some(InvalidDefault(p.key, d.value))
      else None
  }

  /** `compiled['Parameters'].each`: the first parameter that fails aborts. */
  function CheckParameters(ps: seq<Field>): (r: Option<Fault>)
    ensures r.None? <==> forall i :: 0 <= i < |ps| ==> ParameterOk(ps[i].value)
    ensures r.Some? ==> exists i :: (0 <= i < |ps| && r == CheckParameter(ps[i]) &&
      forall j :: 0 <= j < i ==> ParameterOk(ps[j].value))
  {
    if |ps| == 0 then None
    else
      match CheckParameter(ps[0])
      case Some(f) => Some(f)
      case None =>
        var r := CheckParameters(ps[1..]);
        assert forall i :: 1 <= i < |ps| ==> ps[1..][i - 1] == ps[i];
        if r.Some? then
          var i :| 0 <= i < |ps[1..]| && r == CheckParameter(ps[1..][i])
            && forall j :: 0 <= j < i ==> ParameterOk(ps[1..][j].value);
          assert r == CheckParameter(ps[i + 1]);
          r
        else r
  }

  // ---------------------------------------------------------------------------------------
  // The steps.

  /** A note for a non-empty list only, as `unless net.empty?` does. */
  function NoteIf(names: seq<string>, note: Note): (r: seq<Note>)
    ensures |r| <= 1 && (|r| == 1 <==> |names| > 0)
    ensures forall i :: 0 <= i < |r| ==> r[i] == note
  {
    if |names| > 0 then [note] else []
  }

  /** Runs `next` only when `first` did not abort. */
  function Then(first: Outcome, next: Outcome): (r: Outcome)
    ensures first.fault.Some? ==> r == first
    ensures first.fault.None? ==> r.fault == next.fault && r.notes == first.notes + next.notes
  {
    if first.fault.Some? then first else Outcome(first.notes + next.notes, next.fault)
  }

  /** The parameter blocks, none when the section is absent. */
  function ParameterBlocks(compiled: seq<Field>): seq<Field>
    requires SectionShaped(compiled, "Parameters")
  {
    match Section(compiled, "Parameters")
    case None => []
    case Some(ps) => ps
  }

  function Parameters(compiled: seq<Field>): (r: Outcome)
    requires SectionShaped(compiled, "Parameters")
    ensures r.notes == []
    ensures r.fault.None? <==> forall p :: p in ParameterBlocks(compiled) ==> ParameterOk(p.value)
    ensures r.fault.Some? ==> exists i :: (0 <= i < |ParameterBlocks(compiled)| && r.fault == CheckParameter(ParameterBlocks(compiled)[i]) &&
      forall j :: 0 <= j < i ==> ParameterOk(ParameterBlocks(compiled)[j].value))
  {
    match Section(compiled, "Parameters")
    case None => Outcome([], None)
    case Some(ps) => Outcome([], CheckParameters(ps))
  }

  function Functions(funs: seq<string>, supported: seq<string>): (r: Outcome)
    ensures r.notes == []
    ensures r.fault.None? <==> forall f :: f in funs ==> f in supported
    ensures r.fault.Some? ==>
      && r.fault.value.UnsupportedFunctions?
      && forall f :: f in r.fault.value.functions <==> f in funs && f !in supported
  {
    var bad := Difference(funs, supported);
    assert |bad| > 0 ==> bad[0] in bad;
    Outcome([], if |bad| > 0 then Some(UnsupportedFunctions(bad)) else None)
  }

  /** The mapping step: an abort that lists the unknown mappings and logs nothing, or at most
      one warning, listing unused mappings. */
  function Mappings(compiled: seq<Field>, uses: seq<Use>): (r: Outcome)
    requires LoaderShaped(compiled, "Mappings")
    ensures r.fault.Some? ==> r.notes == [] && r.fault.value.UnknownMappings? && |r.fault.value.uses| > 0
    ensures r.fault.None? ==> |r.notes| <= 1 && forall i :: 0 <= i < |r.notes| ==> r.notes[i].UnusedMappings? && |r.notes[i].names| > 0
  {
    var declared := SectionKeys(compiled, "Mappings");
    var used := Index(uses);
    var unknown := Undeclared(used, declared);
    var unused := Difference(declared, Names(used));
    if |unknown| > 0 then Outcome([], Some(UnknownMappings(unknown)))
    else Outcome(NoteIf(unused, UnusedMappings(unused)), None)
  }

  /** The uses the Hash keeps whose names are not declared: each one's last use, and none
      exactly when every use is declared. */
  lemma UnknownUses(uses: seq<Use>, declared: seq<string>)
    ensures forall u :: u in Undeclared(Index(uses), declared) <==> u.name !in declared && LastFor(uses, u.name) == Some(u)
    ensures |Undeclared(Index(uses), declared)| == 0 <==> AllDeclared(uses, declared)
  {
    IndexMembers(uses);
    var unknown := Undeclared(Index(uses), declared);
    if u :| u in uses && u.name !in declared {
      assert u.name in Names(uses);
      var v := LastFor(uses, u.name).value;
      assert v in unknown;
    }
    if |unknown| > 0 {
      assert unknown[0] in unknown;
    }
  }

  /** Every use names a declared item. */
  predicate AllDeclared(uses: seq<Use>, declared: seq<string>) {
    forall u :: u in uses ==> u.name in declared
  }

  /** A used mapping that is not declared aborts. */
  lemma MappingsFault(compiled: seq<Field>, uses: seq<Use>)
    requires LoaderShaped(compiled, "Mappings")
    ensures var r := Mappings(compiled, uses);
      && (r.fault.None? <==> AllDeclared(uses, SectionKeys(compiled, "Mappings")))
      && (r.fault.Some? ==> r.notes == [] && r.fault.value.UnknownMappings?)
  {
    UnknownUses(uses, SectionKeys(compiled, "Mappings"));
  }

  /** The abort lists every undeclared mapping once, with the location of its last use. */
  lemma MappingsOffenders(compiled: seq<Field>, uses: seq<Use>)
    requires LoaderShaped(compiled, "Mappings")
    ensures var declared := SectionKeys(compiled, "Mappings");
      Mappings(compiled, uses).fault.Some? ==>
        forall u :: u in Mappings(compiled, uses).fault.value.uses <==> u.name !in declared && LastFor(uses, u.name) == Some(u)
  {
    UnknownUses(uses, SectionKeys(compiled, "Mappings"));
  }

  /** A declared mapping that is never used is only reported, in declaration order. */
  lemma MappingsNotes(compiled: seq<Field>, uses: seq<Use>)
    requires LoaderShaped(compiled, "Mappings")
    requires Mappings(compiled, uses).fault.None?
    ensures var declared := SectionKeys(compiled, "Mappings");
      var unused := Difference(declared, Names(uses));
      && Mappings(compiled, uses).notes == NoteIf(unused, UnusedMappings(unused))
      && forall n :: n in unused <==> n in declared && n !in Names(uses)
  {
    IndexMembers(uses);
    DifferenceByMembers(SectionKeys(compiled, "Mappings"), Names(Index(uses)), Names(uses));
  }

  function Conditions(compiled: seq<Field>, used: seq<string>): (r: Outcome)
    ensures var declared := RescuedKeys(compiled, "Conditions");
      r.fault.None? <==> forall c :: c in used ==> c in declared
    ensures var declared := RescuedKeys(compiled, "Conditions");
      r.fault.Some? ==>
        && r.notes == []
        && r.fault.value.UnknownConditions?
        && forall c :: c in r.fault.value.conditions <==> c in used && c !in declared
    ensures var declared := RescuedKeys(compiled, "Conditions");
      var unused := Difference(declared, used);
      r.fault.None? ==> r.notes == NoteIf(unused, UnusedConditions(unused)) && forall c :: c in unused <==> c in declared && c !in used
  {
    var declared := RescuedKeys(compiled, "Conditions");
    var unknown := Difference(used, declared);
    var unused := Difference(declared, used);
    assert |unknown| > 0 ==> unknown[0] in unknown;
    if |unknown| > 0 then Outcome([], Some(UnknownConditions(unknown)))
    else Outcome(NoteIf(unused, UnusedConditions(unused)), None)
  }

  /** The names a reference may resolve to: Resources, Parameters and Conditions keys. */
  function Declared(compiled: seq<Field>): seq<string>
    requires SectionShaped(compiled, "Resources")
  {
    SectionKeys(compiled, "Resources") + RescuedKeys(compiled, "Parameters") + RescuedKeys(compiled, "Conditions")
  }

  /** The names the kept references use. */
  ghost predicate Referenced(uses: seq<Use>, n: string) {
    n in Names(uses) && !IsPseudoParameter(n)
  }

  /** The reference step: an abort that lists the unknown references and logs nothing, or the
      unused-parameters warning followed by the unreferenced-resources list, each only when
      non-empty. */
  function References(compiled: seq<Field>, uses: seq<Use>): (r: Outcome)
    requires SectionShaped(compiled, "Resources")
    ensures r.fault.Some? ==> r.notes == [] && r.fault.value.UnknownReferences? && |r.fault.value.uses| > 0
    ensures r.fault.None? ==> |r.notes| <= 2 && forall i :: 0 <= i < |r.notes| ==> |r.notes[i].names| > 0
    ensures r.fault.None? && |r.notes| == 2 ==> r.notes[0].UnusedParameters? && r.notes[1].UnreferencedResources?
  {
    var refs := Real(Index(uses));
    var unknown := Undeclared(refs, Declared(compiled));
    var unusedParameters := Difference(RescuedKeys(compiled, "Parameters"), Names(refs));
    var unreferenced := Difference(Sort(SectionKeys(compiled, "Resources")), Names(refs));
    ReferenceOutcome(unknown, unusedParameters, unreferenced)
  }

  /** The end of the reference step, given its three lists. */
  function ReferenceOutcome(unknown: seq<Use>, unusedParameters: seq<string>, unreferenced: seq<string>): (r: Outcome)
    ensures r.fault.Some? ==> r.notes == [] && r.fault.value.UnknownReferences? && |r.fault.value.uses| > 0
    ensures r.fault.None? ==> |r.notes| <= 2 && forall i :: 0 <= i < |r.notes| ==> |r.notes[i].names| > 0
    ensures r.fault.None? && |r.notes| == 2 ==> r.notes[0].UnusedParameters? && r.notes[1].UnreferencedResources?
  {
    if |unknown| > 0 then Outcome([], Some(UnknownReferences(unknown)))
    else Outcome(NoteIf(unusedParameters, UnusedParameters(unusedParameters))
           + NoteIf(unreferenced, UnreferencedResources(unreferenced)), None)
  }

  /** Every use is a pseudo-parameter or names a declared item. */
  predicate AllResolved(uses: seq<Use>, declared: seq<string>) {
    forall u :: u in uses ==> IsPseudoParameter(u.name) || u.name in declared
  }

  /** The same for the references that are kept after dropping pseudo-parameters. */
  lemma UnknownReferenceUses(uses: seq<Use>, declared: seq<string>)
    ensures forall u :: u in Undeclared(Real(Index(uses)), declared) <==>
      !IsPseudoParameter(u.name) && u.name !in declared && LastFor(uses, u.name) == Some(u)
    ensures |Undeclared(Real(Index(uses)), declared)| == 0 <==> AllResolved(uses, declared)
  {
    IndexMembers(uses);
    var unknown := Undeclared(Real(Index(uses)), declared);
    if u :| u in uses && !IsPseudoParameter(u.name) && u.name !in declared {
      assert u.name in Names(uses);
      var v := LastFor(uses, u.name).value;
      assert v in Real(Index(uses));
      assert v in unknown;
    }
    if |unknown| > 0 {
      assert unknown[0] in unknown;
    }
  }

  /** A kept reference to an undeclared name aborts. */
  lemma ReferencesFault(compiled: seq<Field>, uses: seq<Use>)
    requires SectionShaped(compiled, "Resources")
    ensures var r := References(compiled, uses);
      && (r.fault.None? <==> AllResolved(uses, Declared(compiled)))
      && (r.fault.Some? ==> r.notes == [] && r.fault.value.UnknownReferences?)
  {
    UnknownReferenceUses(uses, Declared(compiled));
  }

  /** The abort lists every unresolved reference once, with its location. */
  lemma ReferencesOffenders(compiled: seq<Field>, uses: seq<Use>)
    requires SectionShaped(compiled, "Resources")
    ensures References(compiled, uses).fault.Some? ==>
      forall u :: u in References(compiled, uses).fault.value.uses <==>
        !IsPseudoParameter(u.name) && u.name !in Declared(compiled) && LastFor(uses, u.name) == Some(u)
  {
    UnknownReferenceUses(uses, Declared(compiled));
  }

  /** The kept references name the same things whether or not the Hash is built first. */
  lemma KeptNames(uses: seq<Use>)
    ensures forall n :: n in Names(Real(Index(uses))) <==> Referenced(uses, n)
  {
    IndexMembers(uses);
    RealNames(Index(uses));
  }

  /** On success the unused parameters are warned about and the unreferenced resources are
      listed, sorted, at info level. */
  lemma ReferencesNotes(compiled: seq<Field>, uses: seq<Use>)
    requires SectionShaped(compiled, "Resources")
    ensures var r := References(compiled, uses);
      var unusedParameters := Difference(RescuedKeys(compiled, "Parameters"), Names(Real(Index(uses))));
      var unreferenced := Difference(Sort(SectionKeys(compiled, "Resources")), Names(Real(Index(uses))));
      && (r.fault.None? ==> r.notes == NoteIf(unusedParameters, UnusedParameters(unusedParameters))
                                     + NoteIf(unreferenced, UnreferencedResources(unreferenced)))
      && (forall n :: n in unusedParameters <==> n in RescuedKeys(compiled, "Parameters") && !Referenced(uses, n))
      && (forall n :: n in unreferenced <==> n in SectionKeys(compiled, "Resources") && !Referenced(uses, n))
      && Sorted(unreferenced)
  {
    var kept := Names(Real(Index(uses)));
    var resources := Sort(SectionKeys(compiled, "Resources"));
    KeptNames(uses);
    DifferenceSorted(resources, kept);
    assert forall n :: n in resources <==> n in SectionKeys(compiled, "Resources") by {
      assert multiset(resources) == multiset(SectionKeys(compiled, "Resources"));
      forall n ensures n in resources <==> n in SectionKeys(compiled, "Resources") {
        assert n in resources <==> n in multiset(resources);
        assert n in SectionKeys(compiled, "Resources") <==> n in multiset(SectionKeys(compiled, "Resources"));
      }
    }
  }

  /** The sections this validator reads through `.keys` or `.each` without a rescue.
      Resources and Parameters are tested for truthiness first, so a falsy value is handled;
      Mappings is tested only with `nil?`, so `false` would raise. */
  predicate Shaped(compiled: seq<Field>) {
    && SectionShaped(compiled, "Resources")
    && SectionShaped(compiled, "Parameters")
    && LoaderShaped(compiled, "Mappings")
  }

  /** `validate(compiled)`, with the extractors' findings and `@valid_functions` as inputs. */
  function Validate(compiled: seq<Field>, supported: seq<string>, usage: Usage): (r: Outcome)
    requires Shaped(compiled)
    ensures !TruthyAt(compiled, "Resources") ==> r == Outcome([], Some(NoResources))
  {
    if !TruthyAt(compiled, "Resources") then Outcome([], Some(NoResources))
    else
      Then(Parameters(compiled),
      Then(Functions(usage.functions, supported),
      Then(Mappings(compiled, usage.mappings),
      Then(Conditions(compiled, usage.conditions),
           References(compiled, usage.refs)))))
  }

  // ---------------------------------------------------------------------------------------
  // The order of the checks.

  /** What each category demands, in the order `validate` checks them. */
  ghost predicate Passes(k: nat, compiled: seq<Field>, supported: seq<string>, usage: Usage)
    requires Shaped(compiled)
  {
    match k
    case 0 => TruthyAt(compiled, "Resources")
    case 1 => forall p :: p in ParameterBlocks(compiled) ==> ParameterOk(p.value)
    case 2 => forall f :: f in usage.functions ==> f in supported
    case 3 => AllDeclared(usage.mappings, SectionKeys(compiled, "Mappings"))
    case 4 => forall c :: c in usage.conditions ==> c in RescuedKeys(compiled, "Conditions")
    case _ => AllResolved(usage.refs, Declared(compiled))
  }

  const Categories: nat := 6

  /** The category a fault belongs to. */
  function Category(f: Fault): (k: nat)
    ensures k < Categories
  {
    if f.NoResources? then 0
    else if f.InvalidBlock? || f.InvalidType? || f.InvalidDefault? then 1
    else if f.UnsupportedFunctions? then 2
    else if f.UnknownMappings? then 3
    else if f.UnknownConditions? then 4
    else 5
  }

  /** Five steps run in turn: the first that aborts decides the fault, and the notes are
      those of the steps up to it. */
  lemma ThenOfFive(p: Outcome, f: Outcome, m: Outcome, c: Outcome, x: Outcome)
    requires p.fault.Some? ==> Category(p.fault.value) == 1
    requires f.fault.Some? ==> Category(f.fault.value) == 2
    requires m.fault.Some? ==> Category(m.fault.value) == 3
    requires c.fault.Some? ==> Category(c.fault.value) == 4
    requires x.fault.Some? ==> Category(x.fault.value) == 5
    ensures var r := Then(p, Then(f, Then(m, Then(c, x))));
      && (r.fault.None? <==> p.fault.None? && f.fault.None? && m.fault.None? && c.fault.None? && x.fault.None?)
      && (r.fault.Some? ==> 1 <= Category(r.fault.value) <= 5)
      && (r.fault.Some? && Category(r.fault.value) == 1 ==> r.fault == p.fault && r.notes == p.notes)
      && (r.fault.Some? && Category(r.fault.value) == 2 ==> p.fault.None? && r.fault == f.fault && r.notes == p.notes + f.notes)
      && (r.fault.Some? && Category(r.fault.value) == 3 ==>
           p.fault.None? && f.fault.None? && r.fault == m.fault && r.notes == p.notes + f.notes + m.notes)
      && (r.fault.Some? && Category(r.fault.value) == 4 ==>
           p.fault.None? && f.fault.None? && m.fault.None? && r.fault == c.fault && r.notes == p.notes + f.notes + m.notes + c.notes)
      && (r.fault.Some? && Category(r.fault.value) == 5 ==>
           p.fault.None? && f.fault.None? && m.fault.None? && c.fault.None? && r.fault == x.fault)
      && (r.fault.None? || Category(r.fault.value) == 5 ==> r.notes == p.notes + f.notes + m.notes + c.notes + x.notes)
  {
  }

  /** Reads the category off the kind of fault an outcome can carry. */
  lemma FaultIn(o: Outcome, k: nat)
    requires k == 2 ==> o.fault.Some? ==> o.fault.value.UnsupportedFunctions?
    requires k == 3 ==> o.fault.Some? ==> o.fault.value.UnknownMappings?
    requires k == 4 ==> o.fault.Some? ==> o.fault.value.UnknownConditions?
    requires k == 5 ==> o.fault.Some? ==> o.fault.value.UnknownReferences?
    requires 2 <= k <= 5
    ensures o.fault.Some? ==> Category(o.fault.value) == k
  {
  }

  lemma FunctionsStep(compiled: seq<Field>, supported: seq<string>, usage: Usage)
    requires Shaped(compiled)
    ensures var s := Functions(usage.functions, supported);
      && (s.fault.None? <==> Passes(2, compiled, supported, usage))
      && (s.fault.Some? ==> Category(s.fault.value) == 2)
  {
    assert Passes(2, compiled, supported, usage) == forall f :: f in usage.functions ==> f in supported;
    FaultIn(Functions(usage.functions, supported), 2);
  }

  lemma ConditionsStep(compiled: seq<Field>, supported: seq<string>, usage: Usage)
    requires Shaped(compiled)
    ensures var s := Conditions(compiled, usage.conditions);
      && (s.fault.None? <==> Passes(4, compiled, supported, usage))
      && (s.fault.Some? ==> Category(s.fault.value) == 4)
  {
    assert Passes(4, compiled, supported, usage) == forall c :: c in usage.conditions ==> c in RescuedKeys(compiled, "Conditions");
    FaultIn(Conditions(compiled, usage.conditions), 4);
  }

  lemma ParametersStep(compiled: seq<Field>, supported: seq<string>, usage: Usage)
    requires Shaped(compiled)
    ensures var s := Parameters(compiled);
      && (s.fault.None? <==> Passes(1, compiled, supported, usage))
      && (s.fault.Some? ==> Category(s.fault.value) == 1)
  {
    var s := Parameters(compiled);
    if s.fault.Some? {
      var i :| 0 <= i < |ParameterBlocks(compiled)| && s.fault == CheckParameter(ParameterBlocks(compiled)[i]);
    }
  }

  lemma MappingsStep(compiled: seq<Field>, supported: seq<string>, usage: Usage)
    requires Shaped(compiled)
    ensures var s := Mappings(compiled, usage.mappings);
      && (s.fault.None? <==> Passes(3, compiled, supported, usage))
      && (s.fault.Some? ==> Category(s.fault.value) == 3)
  {
    assert Passes(3, compiled, supported, usage) == AllDeclared(usage.mappings, SectionKeys(compiled, "Mappings"));
    MappingsFault(compiled, usage.mappings);
    FaultIn(Mappings(compiled, usage.mappings), 3);
  }

  lemma ReferencesStep(compiled: seq<Field>, supported: seq<string>, usage: Usage)
    requires Shaped(compiled)
    ensures var s := References(compiled, usage.refs);
      && (s.fault.None? <==> Passes(5, compiled, supported, usage))
      && (s.fault.Some? ==> Category(s.fault.value) == 5)
  {
    assert Passes(5, compiled, supported, usage) == AllResolved(usage.refs, Declared(compiled));
    ReferencesFault(compiled, usage.refs);
    FaultIn(References(compiled, usage.refs), 5);
  }

  /** The six `Passes` verdicts, evaluated once and held as plain booleans. `FirstFailure` and
      `EarlierNotes` reason over this record rather than over `Passes` itself. */
  datatype Verdicts = Verdicts(resources: bool, parameters: bool, functions: bool, mappings: bool, conditions: bool, refs: bool)

  ghost function VerdictsOf(compiled: seq<Field>, supported: seq<string>, usage: Usage): Verdicts
    requires Shaped(compiled)
  {
    Verdicts(Passes(0, compiled, supported, usage), Passes(1, compiled, supported, usage),
             Passes(2, compiled, supported, usage), Passes(3, compiled, supported, usage),
             Passes(4, compiled, supported, usage), Passes(5, compiled, supported, usage))
  }

  lemma VerdictsAgree(compiled: seq<Field>, supported: seq<string>, usage: Usage)
    requires Shaped(compiled)
    ensures forall k :: 0 <= k < Categories ==> Passes(k, compiled, supported, usage) == Holds(VerdictsOf(compiled, supported, usage), k)
  {
    var v := VerdictsOf(compiled, supported, usage);
    forall k | 0 <= k < Categories ensures Passes(k, compiled, supported, usage) == Holds(v, k) {
      if k == 0 {} else if k == 1 {} else if k == 2 {} else if k == 3 {} else if k == 4 {} else {}
    }
  }

  predicate Holds(v: Verdicts, k: nat) {
    match k
    case 0 => v.resources
    case 1 => v.parameters
    case 2 => v.functions
    case 3 => v.mappings
    case 4 => v.conditions
    case _ => v.refs
  }

  /** The first failing verdict, over outcomes that carry their category's verdict. */
  lemma {:induction false} FirstFailure(r: Outcome, v: Verdicts, p: Outcome, f: Outcome, m: Outcome, c: Outcome, x: Outcome)
    requires r == if !v.resources then Outcome([], Some(NoResources)) else Then(p, Then(f, Then(m, Then(c, x))))
    requires (p.fault.None? <==> v.parameters) && (p.fault.Some? ==> Category(p.fault.value) == 1)
    requires (f.fault.None? <==> v.functions) && (f.fault.Some? ==> Category(f.fault.value) == 2)
    requires (m.fault.None? <==> v.mappings) && (m.fault.Some? ==> Category(m.fault.value) == 3)
    requires (c.fault.None? <==> v.conditions) && (c.fault.Some? ==> Category(c.fault.value) == 4)
    requires (x.fault.None? <==> v.refs) && (x.fault.Some? ==> Category(x.fault.value) == 5)
    ensures r.fault.None? <==> forall k :: 0 <= k < Categories ==> Holds(v, k)
    ensures r.fault.Some? ==> !Holds(v, Category(r.fault.value)) && forall k :: 0 <= k < Category(r.fault.value) ==> Holds(v, k)
    ensures r.fault.Some? && Category(r.fault.value) == 0 ==> r.notes == []
    ensures r.fault.Some? && Category(r.fault.value) == 1 ==> r.notes == p.notes
    ensures r.fault.Some? && Category(r.fault.value) == 2 ==> r.notes == p.notes + f.notes
    ensures r.fault.Some? && Category(r.fault.value) == 3 ==> r.notes == p.notes + f.notes + m.notes
    ensures r.fault.Some? && Category(r.fault.value) == 4 ==> r.notes == p.notes + f.notes + m.notes + c.notes
    ensures r.fault.None? || Category(r.fault.value) == 5 ==> r.notes == p.notes + f.notes + m.notes + c.notes + x.notes
  {
    if v.resources {
      ThenOfFive(p, f, m, c, x);
    }
    assert Holds(v, 0) == v.resources && Holds(v, 1) == v.parameters && Holds(v, 2) == v.functions;
    assert Holds(v, 3) == v.mappings && Holds(v, 4) == v.conditions && Holds(v, 5) == v.refs;
  }

  /** The notes of a chain whose first two steps note nothing and whose aborting steps note
      nothing either. */
  lemma EarlierNotes(r: Outcome, v: Verdicts, p: Outcome, f: Outcome, m: Outcome, c: Outcome, x: Outcome)
    requires r == if !v.resources then Outcome([], Some(NoResources)) else Then(p, Then(f, Then(m, Then(c, x))))
    requires (p.fault.None? <==> v.parameters) && (p.fault.Some? ==> Category(p.fault.value) == 1)
    requires (f.fault.None? <==> v.functions) && (f.fault.Some? ==> Category(f.fault.value) == 2)
    requires (m.fault.None? <==> v.mappings) && (m.fault.Some? ==> Category(m.fault.value) == 3)
    requires (c.fault.None? <==> v.conditions) && (c.fault.Some? ==> Category(c.fault.value) == 4)
    requires (x.fault.None? <==> v.refs) && (x.fault.Some? ==> Category(x.fault.value) == 5)
    requires p.notes == [] && f.notes == []
    requires m.fault.Some? ==> m.notes == []
    requires c.fault.Some? ==> c.notes == []
    requires x.fault.Some? ==> x.notes == []
    ensures r.fault.Some? && Category(r.fault.value) <= 3 ==> r.notes == []
    ensures r.fault.Some? && Category(r.fault.value) == 4 ==> r.notes == m.notes
    ensures r.fault.Some? && Category(r.fault.value) == 5 ==> r.notes == m.notes + c.notes
    ensures r.fault.None? ==> r.notes == m.notes + c.notes + x.notes
  {
    FirstFailure(r, v, p, f, m, c, x);
    assert [] + [] + m.notes == m.notes;
    if r.fault.Some? && Category(r.fault.value) == 5 {
      assert r.notes == [] + [] + m.notes + c.notes + x.notes;
    }
  }

  /** `Validate` is the chain of the categories' verdicts. */
  lemma ValidateVerdicts(compiled: seq<Field>, supported: seq<string>, usage: Usage)
    requires Shaped(compiled)
    ensures var r := Validate(compiled, supported, usage);
      var v := VerdictsOf(compiled, supported, usage);
      && (r.fault.None? <==> forall k :: 0 <= k < Categories ==> Holds(v, k))
      && (r.fault.Some? ==> !Holds(v, Category(r.fault.value)) && forall k :: 0 <= k < Category(r.fault.value) ==> Holds(v, k))
  {
    ParametersStep(compiled, supported, usage);
    FunctionsStep(compiled, supported, usage);
    MappingsStep(compiled, supported, usage);
    ConditionsStep(compiled, supported, usage);
    ReferencesStep(compiled, supported, usage);
    FirstFailure(Validate(compiled, supported, usage), VerdictsOf(compiled, supported, usage),
                 Parameters(compiled), Functions(usage.functions, supported), Mappings(compiled, usage.mappings),
                 Conditions(compiled, usage.conditions), References(compiled, usage.refs));
  }

  /** Validation passes exactly when every category does; otherwise the fault comes from the
      first category that fails, every earlier one having passed. */
  lemma ValidateStopsAtFirstFailure(compiled: seq<Field>, supported: seq<string>, usage: Usage)
    requires Shaped(compiled)
    ensures var r := Validate(compiled, supported, usage);
      && (r.fault.None? <==> forall k :: 0 <= k < Categories ==> Passes(k, compiled, supported, usage))
      && (r.fault.Some? ==>
        && !Passes(Category(r.fault.value), compiled, supported, usage)
        && forall k :: 0 <= k < Category(r.fault.value) ==> Passes(k, compiled, supported, usage))
  {
    ValidateVerdicts(compiled, supported, usage);
    VerdictsAgree(compiled, supported, usage);
  }

  /** The warnings of the mapping and condition checks are logged even when a later check
      aborts; a fault before them leaves nothing logged. */
  lemma ValidateKeepsEarlierNotes(compiled: seq<Field>, supported: seq<string>, usage: Usage)
    requires Shaped(compiled)
    ensures var r := Validate(compiled, supported, usage);
      var m := Mappings(compiled, usage.mappings).notes;
      var c := Conditions(compiled, usage.conditions).notes;
      var x := References(compiled, usage.refs).notes;
      && (r.fault.Some? && Category(r.fault.value) <= 3 ==> r.notes == [])
      && (r.fault.Some? && Category(r.fault.value) == 4 ==> r.notes == m)
      && (r.fault.Some? && Category(r.fault.value) == 5 ==> r.notes == m + c)
      && (r.fault.None? ==> r.notes == m + c + x)
  {
    ParametersStep(compiled, supported, usage);
    FunctionsStep(compiled, supported, usage);
    MappingsStep(compiled, supported, usage);
    ConditionsStep(compiled, supported, usage);
    ReferencesStep(compiled, supported, usage);
    MappingsFault(compiled, usage.mappings);
    ReferencesFault(compiled, usage.refs);
    VerdictsAgree(compiled, supported, usage);
    EarlierNotes(Validate(compiled, supported, usage), VerdictsOf(compiled, supported, usage),
                 Parameters(compiled), Functions(usage.functions, supported), Mappings(compiled, usage.mappings),
                 Conditions(compiled, usage.conditions), References(compiled, usage.refs));
  }
}

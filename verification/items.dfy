/** The compiler's registry of dynamically generated items: `@dynamic_items` maps a section
    name to a Hash from resource name to its definition. */
module Items {

  import opened Results
  import opened Document

  /** Every section holds a Hash, and no name appears twice at either level. */
  predicate TwoLevel(d: seq<Field>) {
    && DistinctKeys(d)
    && forall i :: 0 <= i < |d| ==> d[i].value.Obj? && DistinctKeys(d[i].value.fields)
  }

  /** The items registered under a section, none when the section is new. */
  function Entries(d: seq<Field>, section: string): seq<Field> {
    match Get(d, section)
    case Some(Obj(fs)) => fs
    case _ => []
  }

  lemma EntriesDistinct(d: seq<Field>, section: string)
    requires TwoLevel(d)
    ensures DistinctKeys(Entries(d, section))
  {
  }

  /** `dynamic_item(section, resource, hash)`: creates the section on first use, then sets the
      resource's definition. */
  function DynamicItem(d: seq<Field>, section: string, resource: string, hash: Node): (r: seq<Field>)
    requires TwoLevel(d)
    ensures TwoLevel(r)
    ensures Keys(r) == if section in Keys(d) then Keys(d) else Keys(d) + [section]
    ensures Get(Entries(r, section), resource) == Some(hash)
    ensures forall n :: n != resource ==> Get(Entries(r, section), n) == Get(Entries(d, section), n)
    ensures forall s :: s != section ==> Get(r, s) == Get(d, s)
  {
    var inner := Assign(Entries(d, section), resource, hash);
    var r := Assign(d, section, Obj(inner));
    EntriesDistinct(d, section);
    AssignDistinct(Entries(d, section), resource, hash);
    AssignReads(Entries(d, section), resource, hash);
    AssignDistinct(d, section, Obj(inner));
    AssignReads(d, section, Obj(inner));
    assert Entries(r, section) == inner;
    assert forall i :: 0 <= i < |r| ==> r[i].value.Obj? && DistinctKeys(r[i].value.fields) by {
      forall i | 0 <= i < |r| ensures r[i].value.Obj? && DistinctKeys(r[i].value.fields) {
        if r[i].key == section {
          assert Get(r, section) == Some(r[i].value);
        } else {
          assert Get(r, r[i].key) == Some(r[i].value);
          assert Get(d, r[i].key) == Some(r[i].value);
        }
      }
    }
    r
  }
}

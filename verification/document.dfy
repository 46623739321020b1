/** The parsed JSON/YAML documents the compiler manipulates: a Ruby Hash, Array or scalar.
    A Hash keeps its insertion order, so an object is a sequence of fields. */
module Document {

  import opened Results

  datatype Node =
    | Obj(fields: seq<Field>)
    | Arr(items: seq<Node>)
    | Str(s: string)
    | Num(n: int)
    | Bool(b: bool)
    | Null

  datatype Field = Field(key: string, value: Node)

  /** Ruby truthiness: everything except `nil` and `false`. */
  predicate Truthy(n: Node) {
    !n.Null? && n != Bool(false)
  }

  function Keys(fs: seq<Field>): (r: seq<string>)
    ensures |r| == |fs|
    ensures forall i :: 0 <= i < |fs| ==> r[i] == fs[i].key
  {
    if |fs| == 0 then [] else [fs[0].key] + Keys(fs[1..])
  }

  /** The keys of a parsed Hash are distinct. */
  predicate DistinctKeys(fs: seq<Field>) {
    forall i, j :: 0 <= i < j < |fs| ==> fs[i].key != fs[j].key
  }

  /** Ruby `hash[key]`: `nil` (here `None`) when the key is absent. */
  function Get(fs: seq<Field>, key: string): (r: Option<Node>)
    ensures r.Some? <==> key in Keys(fs)
    ensures r.Some? ==> exists i :: 0 <= i < |fs| && fs[i] == Field(key, r.value)
    ensures DistinctKeys(fs) ==> forall i :: 0 <= i < |fs| && fs[i].key == key ==> r == Some(fs[i].value)
  {
    if |fs| == 0 then None
    else if fs[0].key == key then Some(fs[0].value)
    else Get(fs[1..], key)
  }

  /** `hash[key]` seen through Ruby truthiness: a missing key reads as `nil`. */
  predicate TruthyAt(fs: seq<Field>, key: string) {
    match Get(fs, key)
    case None => false
    case Some(v) => Truthy(v)
  }

  /** The value a top-level entry holds when it is a Hash, `None` when it is absent or `nil`. */
  function Section(fs: seq<Field>, key: string): (r: Option<seq<Field>>)
    requires SectionShaped(fs, key)
    ensures r.Some? <==> TruthyAt(fs, key)
    ensures r.Some? ==> Get(fs, key) == Some(Obj(r.value))
  {
    match Get(fs, key)
    case Some(Obj(s)) => Some(s)
    case _ => None
  }

  /** The entry `key` is falsy (missing, `nil` or `false`) or a Hash: the values a truthiness
      test followed by `.keys` or `.each` handles without raising. */
  predicate SectionShaped(fs: seq<Field>, key: string) {
    match Get(fs, key)
    case None => true
    case Some(v) => !Truthy(v) || v.Obj?
  }

  /** The entry `key` is missing, `nil` or a Hash, as every section the loader builds is. */
  predicate LoaderShaped(fs: seq<Field>, key: string) {
    match Get(fs, key)
    case None => true
    case Some(v) => v.Null? || v.Obj?
  }

  /** Ruby `hash[key].keys rescue []`: the keys of a section, none when it is absent. */
  function SectionKeys(fs: seq<Field>, key: string): (r: seq<string>)
    requires SectionShaped(fs, key)
    ensures TruthyAt(fs, key) ==> r == Keys(Section(fs, key).value)
    ensures !TruthyAt(fs, key) ==> r == []
  {
    match Section(fs, key)
    case Some(s) => Keys(s)
    case None => []
  }

  /** Ruby `hash[key] = value`: an existing key keeps its place and takes the new value, a new
      key goes last. */
  function Assign(fs: seq<Field>, key: string, value: Node): (r: seq<Field>)
    ensures |r| == if key in Keys(fs) then |fs| else |fs| + 1
    ensures key in Keys(fs) ==> Keys(r) == Keys(fs)
    ensures key !in Keys(fs) ==> Keys(r) == Keys(fs) + [key]
  {
    if |fs| == 0 then [Field(key, value)]
    else if fs[0].key == key then [Field(key, value)] + fs[1..]
    else [fs[0]] + Assign(fs[1..], key, value)
  }

  /** After the assignment the key reads as the new value and every other key as before. */
  lemma {:induction false} AssignReads(fs: seq<Field>, key: string, value: Node)
    ensures Get(Assign(fs, key, value), key) == Some(value)
    ensures forall k :: k != key ==> Get(Assign(fs, key, value), k) == Get(fs, k)
  {
    if |fs| > 0 && fs[0].key != key {
      AssignReads(fs[1..], key, value);
      assert Assign(fs, key, value)[1..] == Assign(fs[1..], key, value);
    } else if |fs| > 0 {
      assert Assign(fs, key, value)[1..] == fs[1..];
    }
  }

  /** Assignment keeps the keys of a Hash distinct. */
  lemma AssignDistinct(fs: seq<Field>, key: string, value: Node)
    requires DistinctKeys(fs)
    ensures DistinctKeys(Assign(fs, key, value))
  {
    var r := Assign(fs, key, value);
    forall i, j | 0 <= i < j < |r| ensures r[i].key != r[j].key {
      assert r[i].key == Keys(r)[i] && r[j].key == Keys(r)[j];
      if j < |fs| {
        assert Keys(fs)[i] == fs[i].key && Keys(fs)[j] == fs[j].key;
      } else {
        assert Keys(fs)[i] == fs[i].key;
      }
    }
  }
}

/** `find_refs` of the simple compiler: a recursive walk collecting every value that names a
    resource or parameter. */
module References {

  import opened Results
  import opened Document
  import opened Lists

  /** Keys whose value IS the reference (or a list of references). */
  const RefKeys: seq<string> := ["Ref", "SourceSecurityGroupName", "CacheSecurityGroupNames", "SecurityGroupNames"]

  /** The attribute intrinsic: only its first argument names a resource. */
  const GetAtt: string := "Fn::GetAtt"

  /** Ruby raises `NoMethodError` when `first` is sent to a value that is not an Array or Hash. */
  datatype WalkError = NoFirstElement(value: Node)

  /** What `flatten.compact` leaves in a list: neither nested lists nor `nil`. */
  predicate Leaf(v: Node) {
    !v.Arr? && !v.Null?
  }

  predicate AllLeaves(xs: seq<Node>) {
    forall i :: 0 <= i < |xs| ==> Leaf(xs[i])
  }

  // ---------------------------------------------------------------------------------------
  // Ruby `[v].flatten.compact`.

  function Flatten(v: Node): (r: seq<Node>)
    ensures AllLeaves(r)
    ensures Leaf(v) ==> r == [v]
  {
    match v
    case Arr(xs) => FlattenAll(xs)
    case Null => []
    case _ => [v]
  }

  function FlattenAll(xs: seq<Node>): (r: seq<Node>)
    ensures AllLeaves(r)
  {
    if |xs| == 0 then [] else Flatten(xs[0]) + FlattenAll(xs[1..])
  }

  /** `x` is a non-list, non-nil value reachable from `v` through nested lists only. */
  ghost predicate Nested(v: Node, x: Node) {
    match v
    case Arr(xs) => exists i :: 0 <= i < |xs| && Nested(xs[i], x)
    case Null => false
    case _ => x == v
  }

  // ---------------------------------------------------------------------------------------
  // The walk.

  /** `hash['Fn::GetAtt'].first`, flattened: an Array gives its first element, a Hash its
      first `[key, value]` pair; an empty one gives `nil`. */
  function First(v: Node): Result<seq<Node>, WalkError> {
    match v
    case Arr(xs) => if |xs| == 0 then Success([]) else Success(Flatten(xs[0]))
    case Obj(fs) => if |fs| == 0 then Success([]) else Success([Str(fs[0].key)] + Flatten(fs[0].value))
    case _ => Failure(NoFirstElement(v))
  }

  /** What one key of a Hash contributes before `uniq`. */
  function Entry(f: Field): (r: Result<seq<Node>, WalkError>)
    ensures r.Success? ==> AllLeaves(r.value)
    decreases f, 1
  {
    if f.key in RefKeys then Success(Flatten(f.value))
    else if f.key == GetAtt then First(f.value)
    else Walk(f.value)
  }

  /** Ruby `find_refs`: the distinct values collected from a document, in first-seen order.
      A scalar yields nothing (Ruby returns `nil`, which the caller compacts away). */
  function Walk(n: Node): (r: Result<seq<Node>, WalkError>)
    ensures r.Success? ==> AllLeaves(r.value) && NoDups(r.value)
    decreases n, 0
  {
    match n
    case Obj(fs) =>
      var c :- Entries(fs);
      assert forall x :: x in c ==> Leaf(x);
      Success(Dedup(c))
    case Arr(xs) =>
      var c :- Elements(xs);
      assert forall x :: x in c ==> Leaf(x);
      Success(Dedup(c))
    case _ => Success([])
  }

  function Entries(fs: seq<Field>): (r: Result<seq<Node>, WalkError>)
    ensures r.Success? ==> AllLeaves(r.value)
    decreases fs
  {
    if |fs| == 0 then Success([])
    else
      var a :- Entry(fs[0]);
      var b :- Entries(fs[1..]);
      Success(a + b)
  }

  function Elements(xs: seq<Node>): (r: Result<seq<Node>, WalkError>)
    ensures r.Success? ==> AllLeaves(r.value)
    decreases xs
  {
    if |xs| == 0 then Success([])
    else
      var a :- Walk(xs[0]);
      var b :- Elements(xs[1..]);
      Success(a + b)
  }

  // ---------------------------------------------------------------------------------------
  // Declarative description of the walk.

  /** `first` can be sent to the value. */
  predicate HasFirst(v: Node) {
    v.Arr? || v.Obj?
  }

  /** Somewhere the walk reaches, `Fn::GetAtt` holds a scalar. */
  ghost predicate Faulty(n: Node) {
    match n
    case Obj(fs) => exists i :: 0 <= i < |fs| && FaultyEntry(fs[i])
    case Arr(xs) => exists i :: 0 <= i < |xs| && Faulty(xs[i])
    case _ => false
  }

  ghost predicate FaultyEntry(f: Field) {
    if f.key in RefKeys then false
    else if f.key == GetAtt then !HasFirst(f.value)
    else Faulty(f.value)
  }

  /** `x` is collected from `n`: the value (flattened) under a reference key, the first
      argument of `Fn::GetAtt`, or something collected from a value under any other key or
      from a list element. Keys of other entries and bare scalars are never collected. */
  ghost predicate Collects(n: Node, x: Node) {
    match n
    case Obj(fs) => exists i :: 0 <= i < |fs| && EntryCollects(fs[i], x)
    case Arr(xs) => exists i :: 0 <= i < |xs| && Collects(xs[i], x)
    case _ => false
  }

  ghost predicate EntryCollects(f: Field, x: Node) {
    if f.key in RefKeys then Nested(f.value, x)
    else if f.key == GetAtt then FirstCollects(f.value, x)
    else Collects(f.value, x)
  }

  ghost predicate FirstCollects(v: Node, x: Node) {
    match v
    case Arr(xs) => |xs| > 0 && Nested(xs[0], x)
    case Obj(fs) => |fs| > 0 && (x == Str(fs[0].key) || Nested(fs[0].value, x))
    case _ => false
  }

  // ---------------------------------------------------------------------------------------
  // The walk meets its description.

  lemma {:induction false} FlattenIsNested(v: Node)
    ensures forall x :: x in Flatten(v) <==> Nested(v, x)
    decreases v, 1
  {
    match v
    case Arr(xs) => FlattenAllIsNested(xs);
    case _ =>
  }

  lemma {:induction false} FlattenAllIsNested(xs: seq<Node>)
    ensures forall x :: x in FlattenAll(xs) <==> exists i :: 0 <= i < |xs| && Nested(xs[i], x)
    decreases xs
  {
    if |xs| > 0 {
      FlattenIsNested(xs[0]);
      FlattenAllIsNested(xs[1..]);
      forall x
        ensures (exists i :: 0 <= i < |xs| && Nested(xs[i], x)) <==> Nested(xs[0], x) || exists i :: 0 <= i < |xs[1..]| && Nested(xs[1..][i], x)
      {
        if exists i :: 0 <= i < |xs| && Nested(xs[i], x) {
          var i :| 0 <= i < |xs| && Nested(xs[i], x);
          if i > 0 { assert xs[1..][i - 1] == xs[i]; }
        }
      }
    }
  }

  lemma FirstMeetsSpec(v: Node)
    ensures First(v).Failure? <==> !HasFirst(v)
    ensures First(v).Success? ==> forall x :: x in First(v).value <==> FirstCollects(v, x)
  {
    match v
    case Arr(xs) => if |xs| > 0 { FlattenIsNested(xs[0]); }
    case Obj(fs) => if |fs| > 0 { FlattenIsNested(fs[0].value); }
    case _ =>
  }

  lemma {:induction false} EntryMeetsSpec(f: Field)
    ensures Entry(f).Failure? <==> FaultyEntry(f)
    ensures Entry(f).Success? ==> forall x :: x in Entry(f).value <==> EntryCollects(f, x)
    decreases f, 1
  {
    if f.key in RefKeys {
      FlattenIsNested(f.value);
    } else if f.key == GetAtt {
      FirstMeetsSpec(f.value);
    } else {
      WalkMeetsSpec(f.value);
    }
  }

  /** `find_refs` fails exactly when a reachable `Fn::GetAtt` holds a scalar; otherwise it
      returns, without repetition, exactly the values the description collects. */
  lemma {:induction false} WalkMeetsSpec(n: Node)
    ensures Walk(n).Failure? <==> Faulty(n)
    ensures Walk(n).Success? ==> forall x :: x in Walk(n).value <==> Collects(n, x)
    decreases n, 0
  {
    match n
    case Obj(fs) => EntriesMeetSpec(fs);
    case Arr(xs) => ElementsMeetSpec(xs);
    case _ =>
  }

  lemma {:induction false} EntriesMeetSpec(fs: seq<Field>)
    ensures Entries(fs).Failure? <==> exists i :: 0 <= i < |fs| && FaultyEntry(fs[i])
    ensures Entries(fs).Success? ==>
      forall x :: x in Entries(fs).value <==> exists i :: 0 <= i < |fs| && EntryCollects(fs[i], x)
    decreases fs
  {
    if |fs| > 0 {
      EntryMeetsSpec(fs[0]);
      EntriesMeetSpec(fs[1..]);
      forall i | 0 < i < |fs| ensures fs[1..][i - 1] == fs[i] { }
    }
  }

  lemma {:induction false} ElementsMeetSpec(xs: seq<Node>)
    ensures Elements(xs).Failure? <==> exists i :: 0 <= i < |xs| && Faulty(xs[i])
    ensures Elements(xs).Success? ==>
      forall x :: x in Elements(xs).value <==> exists i :: 0 <= i < |xs| && Collects(xs[i], x)
    decreases xs
  {
    if |xs| > 0 {
      WalkMeetsSpec(xs[0]);
      ElementsMeetSpec(xs[1..]);
      forall i | 0 < i < |xs| ensures xs[1..][i - 1] == xs[i] { }
    }
  }
}

/** Ruby `Array` operations the compiler relies on: `uniq` and the difference `a - b`. */
module Lists {

  predicate NoDups<T(==,!new)>(xs: seq<T>) {
    forall i, j :: 0 <= i < j < |xs| ==> xs[i] != xs[j]
  }

  /** Ruby `uniq`: the first occurrence of every element, in order. */
  function Dedup<T(==,!new)>(xs: seq<T>): (r: seq<T>)
    ensures NoDups(r)
    ensures forall x :: x in r <==> x in xs
    ensures |r| <= |xs|
  {
    if |xs| == 0 then []
    else
      var d := Dedup(xs[..|xs| - 1]);
      var x := xs[|xs| - 1];
      if x in d then d else d + [x]
  }

  /** Ruby `a - b`: the elements of `a` that do not occur in `b`, duplicates and order kept. */
  function Difference<T(==,!new)>(a: seq<T>, b: seq<T>): (r: seq<T>)
    ensures forall x :: x in r <==> x in a && x !in b
    ensures |r| <= |a|
  {
    if |a| == 0 then []
    else if a[0] in b then Difference(a[1..], b)
    else [a[0]] + Difference(a[1..], b)
  }

  /** Ruby's `uniq` keeps the FIRST occurrence: an element met earlier is never placed after
      an element met later. */
  lemma {:induction false} DedupKeepsFirstOrder<T(!new)>(xs: seq<T>, i: nat, j: nat)
    requires i < j < |xs|
    requires xs[i] != xs[j]
    requires forall k :: 0 <= k < i ==> xs[k] != xs[i]
    requires forall k :: 0 <= k < j ==> xs[k] != xs[j]
    ensures exists a, b :: 0 <= a < b < |Dedup(xs)| && Dedup(xs)[a] == xs[i] && Dedup(xs)[b] == xs[j]
    decreases |xs|
  {
    var p := xs[..|xs| - 1];
    if j < |xs| - 1 {
      DedupKeepsFirstOrder(p, i, j);
      var a, b :| 0 <= a < b < |Dedup(p)| && Dedup(p)[a] == p[i] && Dedup(p)[b] == p[j];
      assert Dedup(xs)[a] == xs[i] && Dedup(xs)[b] == xs[j];
    } else {
      assert xs[j] !in p;
      assert xs[i] in Dedup(p) by { assert p[i] == xs[i]; }
      var a :| 0 <= a < |Dedup(p)| && Dedup(p)[a] == xs[i];
      assert Dedup(xs) == Dedup(p) + [xs[j]];
      assert Dedup(xs)[a] == xs[i];
      assert Dedup(xs)[|Dedup(p)|] == xs[j];
    }
  }
}

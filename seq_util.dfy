/** Small sequence helpers shared by the vertex-subset, label-propagation and checking modules. */
module SeqUtil {

  datatype Option<T> = None | Some(value: T)

  /** No value occurs twice in `xs`. */
  predicate Distinct<X(==)>(xs: seq<X>) {
    forall i, j :: 0 <= i < j < |xs| ==> xs[i] != xs[j]
  }

  /** The set of values of a sequence. */
  function Elems<X>(xs: seq<X>): set<X> {
    set x | x in xs
  }

  /** A sequence without repetitions has as many distinct values as positions. */
  lemma {:induction false} DistinctCard<X>(xs: seq<X>)
    requires Distinct(xs)
    ensures |Elems(xs)| == |xs|
  {
    if xs != [] {
      var p := xs[..|xs| - 1];
      assert Distinct(p);
      DistinctCard(p);
      assert Elems(xs) == Elems(p) + {xs[|xs| - 1]};
      assert xs[|xs| - 1] !in Elems(p);
    }
  }

  /** The sum of a sequence of naturals (pbbslib::reduce_add). */
  function Sum(xs: seq<nat>): nat {
    if xs == [] then 0 else Sum(xs[..|xs| - 1]) + xs[|xs| - 1]
  }

  /** The largest element of a sequence, 0 for the empty one (pbbslib::reduce_max). */
  function MaxOf(xs: seq<nat>): (r: nat)
    ensures forall i :: 0 <= i < |xs| ==> xs[i] <= r
    ensures xs == [] ==> r == 0
    ensures xs != [] ==> exists i :: 0 <= i < |xs| && xs[i] == r
  {
    if xs == [] then 0
    else
      var r0 := MaxOf(xs[..|xs| - 1]);
      assert xs != [] && xs[..|xs| - 1] != [] ==> exists i :: 0 <= i < |xs| - 1 && xs[i] == r0;
      if xs[|xs| - 1] > r0 then xs[|xs| - 1] else r0
  }

  /** n zeros: a cleared array of counters, flags or map entries. */
  function Zeros(n: nat): (r: seq<nat>)
    ensures |r| == n && forall i :: 0 <= i < n ==> r[i] == 0
  {
    seq(n, _ => 0)
  }

  /** A non-empty sequence is its prefix followed by its last element. */
  lemma TakeSnoc<T>(s: seq<T>)
    requires |s| > 0
    ensures s[..|s| - 1] + [s[|s| - 1]] == s
  {
  }

  /** Writing position i changes the prefix up to i only at its end and leaves the suffix after i alone. */
  lemma UpdateSlices<T>(s: seq<T>, i: nat, v: T)
    requires i < |s|
    ensures s[i := v][..i + 1] == s[..i] + [v]
    ensures s[i := v][i + 1..] == s[i + 1..]
  {
  }
}

/**
 * The connectivity checking utilities of the Connectivity framework:
 * num_cc, largest_cc, RelabelDet and cc_check.  Labels are vertex ids, so
 * they index arrays of size n + 1; the parallel loops run sequentially and
 * pbbslib's scan_add_inplace and reduce_max are given by their results.
 */
module ConnectivityCheck {
  import opened SeqUtil

  /** Every label is at most `bound` (so it indexes an array of size bound + 1). */
  predicate LabelsAtMost(xs: seq<nat>, bound: nat) {
    forall i :: 0 <= i < |xs| ==> xs[i] <= bound
  }

  // ---------------------------------------------------------------------
  // num_cc
  // ---------------------------------------------------------------------

  /** The labels below `bound` that occur in xs. */
  function LabelsBelow(xs: seq<nat>, bound: nat): set<nat> {
    set x | x in xs && x < bound
  }

  /** The flags array after the marking loop: 1 at every label that occurs, 0 elsewhere. */
  function Marks(xs: seq<nat>, size: nat): (r: seq<nat>)
    ensures |r| == size && forall x :: 0 <= x < size ==> r[x] == (if x in xs then 1 else 0)
  {
    seq(size, x => if x in xs then 1 else 0)
  }

  /** Summing the marks below k counts the distinct labels below k. */
  lemma {:induction false} SumMarks(xs: seq<nat>, size: nat, k: nat)
    requires k <= size
    ensures Sum(Marks(xs, size)[..k]) == |LabelsBelow(xs, k)|
  {
    var m := Marks(xs, size);
    if k > 0 {
      SumMarks(xs, size, k - 1);
      assert m[..k][..k - 1] == m[..k - 1];
      if k - 1 in xs {
        assert LabelsBelow(xs, k) == LabelsBelow(xs, k - 1) + {k - 1};
      } else {
        assert LabelsBelow(xs, k) == LabelsBelow(xs, k - 1);
      }
    }
  }

  /**
   * pbbslib::scan_add_inplace: every cell becomes the sum of the cells
   * before it (an exclusive prefix sum); the total is returned.
   */
  method ScanAddInPlace(a: array<nat>) returns (total: nat)
    modifies a
    ensures forall k :: 0 <= k < a.Length ==> a[k] == Sum(old(a[..])[..k])
    ensures total == Sum(old(a[..]))
  {
    ghost var A := a[..];
    total := 0;
    for i := 0 to a.Length
      invariant forall k :: 0 <= k < i ==> a[k] == Sum(A[..k])
      invariant forall k :: i <= k < a.Length ==> a[k] == A[k]
      invariant total == Sum(A[..i])
    {
      assert A[..i + 1][..i] == A[..i];
      var x := a[i];
      a[i] := total;
      total := total + x;
    }
    assert A[..a.Length] == A;
  }

  /** The marking loop of num_cc: flags[x] is 1 exactly when some label is x. */
  method MarkLabels(labels: array<nat>) returns (flags: array<nat>)
    requires LabelsAtMost(labels[..], labels.Length)
    ensures fresh(flags) && flags[..] == Marks(labels[..], labels.Length + 1)
  {
    var n := labels.Length;
    flags := new nat[n + 1](_ => 0);
    for i := 0 to n
      invariant forall x :: 0 <= x <= n ==> flags[x] == (if x in labels[..i] then 1 else 0)
    {
      assert forall x :: x in labels[..i + 1] <==> x in labels[..i] || x == labels[i];
      if flags[labels[i]] == 0 {
        flags[labels[i]] := 1;
      }
    }
    assert labels[..n] == labels[..];
  }

  /**
   * num_cc: the number of distinct labels below n.  A label equal to n is
   * marked in flags[n], which the exclusive scan leaves out, so only when
   * every label is below n is this the number of distinct labels.
   */
  method NumCC(labels: array<nat>) returns (r: nat)
    requires LabelsAtMost(labels[..], labels.Length)
    ensures r == |LabelsBelow(labels[..], labels.Length)|
    ensures (forall i :: 0 <= i < labels.Length ==> labels[i] < labels.Length) ==> r == |Elems(labels[..])|
  {
    var n := labels.Length;
    var flags := MarkLabels(labels);
    ghost var marks := flags[..];
    var _ := ScanAddInPlace(flags);
    r := flags[n];
    SumMarks(labels[..], n + 1, n);
    if forall i :: 0 <= i < n ==> labels[i] < n {
      assert LabelsBelow(labels[..], n) == Elems(labels[..]);
    }
  }

  // ---------------------------------------------------------------------
  // largest_cc
  // ---------------------------------------------------------------------

  /** How many positions of xs carry the label x. */
  function Count(xs: seq<nat>, x: nat): nat {
    if xs == [] then 0
    else Count(xs[..|xs| - 1], x) + (if xs[|xs| - 1] == x then 1 else 0)
  }

  /** A label that does not occur has count 0; one that occurs has a positive count. */
  lemma {:induction false} CountOccurs(xs: seq<nat>, x: nat)
    ensures Count(xs, x) > 0 <==> x in xs
  {
    if xs != [] {
      var k := |xs| - 1;
      CountOccurs(xs[..k], x);
      assert x in xs <==> x in xs[..k] || x == xs[k];
    }
  }

  /** The histogram loop of largest_cc: flags[x] counts the positions labelled x. */
  method Histogram(labels: array<nat>) returns (flags: array<nat>)
    requires LabelsAtMost(labels[..], labels.Length)
    ensures fresh(flags) && flags.Length == labels.Length + 1
    ensures forall x :: 0 <= x < flags.Length ==> flags[x] == Count(labels[..], x)
  {
    var n := labels.Length;
    flags := new nat[n + 1](_ => 0);
    for i := 0 to n
      invariant forall x :: 0 <= x <= n ==> flags[x] == Count(labels[..i], x)
    {
      assert labels[..i + 1][..i] == labels[..i];
      flags[labels[i]] := flags[labels[i]] + 1;
    }
    assert labels[..n] == labels[..];
  }

  /**
   * largest_cc: the size of the largest class, i.e. the largest count of
   * any label; it is positive when there is a vertex.
   */
  method LargestCC(labels: array<nat>) returns (r: nat)
    requires LabelsAtMost(labels[..], labels.Length)
    ensures forall x: nat :: Count(labels[..], x) <= r
    ensures exists x: nat :: x <= labels.Length && Count(labels[..], x) == r
    ensures labels.Length > 0 ==> r > 0
  {
    var flags := Histogram(labels);
    r := MaxOf(flags[..]);
    forall x: nat ensures Count(labels[..], x) <= r {
      if x < flags.Length {
        assert flags[..][x] == Count(labels[..], x);
      } else {
        CountOccurs(labels[..], x);
      }
    }
    var w :| 0 <= w < flags.Length && flags[..][w] == r;
    if labels.Length > 0 {
      CountOccurs(labels[..], labels[0]);
      assert flags[..][labels[0]] > 0;
    }
  }

  // ---------------------------------------------------------------------
  // RelabelDet, as written
  // ---------------------------------------------------------------------

  /** The state of RelabelDet's loop: component_map, cur_comp and the ids written so far. */
  datatype RelabelState = RelabelState(cm: seq<nat>, cur: nat, out: seq<nat>)

  /** One iteration: an entry 0 in component_map reads as unseen and gets cur_comp. */
  function RelabelStep(st: RelabelState, x: nat): (r: RelabelState)
    requires x < |st.cm|
    ensures |r.cm| == |st.cm| && |r.out| == |st.out| + 1
  {
    if st.cm[x] == 0 then RelabelState(st.cm[x := st.cur], st.cur + 1, st.out + [st.cur])
    else RelabelState(st.cm, st.cur, st.out + [st.cm[x]])
  }

  /** RelabelDet's loop over xs, from a zeroed component_map of the given size. */
  function RelabelRun(xs: seq<nat>, size: nat): (st: RelabelState)
    requires forall i :: 0 <= i < |xs| ==> xs[i] < size
    ensures |st.cm| == size && |st.out| == |xs|
  {
    if xs == [] then RelabelState(Zeros(size), 0, [])
    else
      var k := |xs| - 1;
      RelabelStep(RelabelRun(xs[..k], size), xs[k])
  }

  /** The ids RelabelDet writes over xs (component_map has size n + 1). */
  function RelabelDetOf(xs: seq<nat>): (r: seq<nat>)
    requires LabelsAtMost(xs, |xs|)
    ensures |r| == |xs|
  {
    RelabelRun(xs, |xs| + 1).out
  }

  /** x occurs in xs after position 0. */
  predicate LaterOccurs(xs: seq<nat>, x: nat) {
    exists j :: 1 <= j < |xs| && xs[j] == x
  }

  /**
   * What RelabelDet's state satisfies after a prefix xs: position 0 got 0;
   * an entry is non-zero exactly for labels seen after position 0; every
   * later position holds its label's (non-zero) entry; non-zero entries are
   * distinct and below cur_comp; cur_comp and every id are bounded by the
   * position.
   */
  ghost predicate DetInv(xs: seq<nat>, st: RelabelState) {
    && |st.out| == |xs| && st.cur <= |xs|
    && (|xs| > 0 ==> st.out[0] == 0 && st.cur >= 1)
    && (forall x :: 0 <= x < |st.cm| && st.cm[x] != 0 ==> st.cm[x] < st.cur)
    && (forall x :: 0 <= x < |st.cm| ==> (st.cm[x] != 0 <==> LaterOccurs(xs, x)))
    // triggered on out[j] only: a witness xs[k] of LaterOccurs must not re-trigger it
    && (forall j {:trigger st.out[j]} :: 1 <= j < |xs| ==> xs[j] < |st.cm| && st.out[j] == st.cm[xs[j]])
    && (forall j :: 0 <= j < |xs| ==> st.out[j] <= j)
    && (forall x, y :: 0 <= x < |st.cm| && 0 <= y < |st.cm| && st.cm[x] != 0 && st.cm[x] == st.cm[y] ==> x == y)
  }

  /** Appending x adds x to the labels seen after position 0, unless x lands at position 0. */
  lemma LaterOccursSnoc(pre: seq<nat>, x: nat)
    ensures forall y :: LaterOccurs(pre + [x], y) <==> LaterOccurs(pre, y) || (|pre| >= 1 && y == x)
  {
    var xs, k := pre + [x], |pre|;
    forall y ensures LaterOccurs(xs, y) <==> LaterOccurs(pre, y) || (k >= 1 && y == x) {
      if LaterOccurs(xs, y) {
        var j :| 1 <= j < |xs| && xs[j] == y;
        if j < k {
          assert pre[j] == y;
        }
      }
      if LaterOccurs(pre, y) {
        var j :| 1 <= j < |pre| && pre[j] == y;
        assert xs[j] == y;
      }
      if k >= 1 && y == x {
        assert xs[k] == y;
      }
    }
  }

  /** One iteration keeps DetInv. */
  lemma RelabelStepInv(pre: seq<nat>, st0: RelabelState, x: nat)
    requires DetInv(pre, st0) && x < |st0.cm|
    requires |pre| == 0 ==> forall y :: 0 <= y < |st0.cm| ==> st0.cm[y] == 0
    ensures DetInv(pre + [x], RelabelStep(st0, x))
  {
    var xs := pre + [x];
    var k := |pre|;
    var st := RelabelStep(st0, x);
    assert forall j :: 0 <= j < k ==> xs[j] == pre[j];
    LaterOccursSnoc(pre, x);
    assert forall j :: 0 <= j < k ==> st.out[j] == st0.out[j];
    if k >= 1 && st0.cm[x] == 0 {
      assert !LaterOccurs(pre, x);
    }
    forall j | 1 <= j < |xs| ensures xs[j] < |st.cm| && st.out[j] == st.cm[xs[j]] {
      if j < k {
        assert xs[j] == pre[j] && st.out[j] == st0.out[j] == st0.cm[pre[j]];
        if st0.cm[x] == 0 {
          assert xs[j] != x;
        }
      } else {
        assert xs[j] == x && st.out[j] == st.out[k];
      }
    }
  }

  /** The loop keeps DetInv. */
  lemma {:induction false} RelabelRunInv(xs: seq<nat>, size: nat)
    requires forall i :: 0 <= i < |xs| ==> xs[i] < size
    ensures DetInv(xs, RelabelRun(xs, size))
  {
    if xs != [] {
      var k := |xs| - 1;
      RelabelRunInv(xs[..k], size);
      TakeSnoc(xs);
      RelabelStepInv(xs[..k], RelabelRun(xs[..k], size), xs[k]);
    }
  }

  /**
   * The body of RelabelDet's loop on component_map: the id of label comp,
   * assigning cur_comp when its entry reads 0.
   */
  method AssignDet(componentMap: array<nat>, curComp: nat, comp: nat, ghost out: seq<nat>) returns (id: nat, nextComp: nat)
    requires comp < componentMap.Length
    modifies componentMap
    ensures RelabelStep(RelabelState(old(componentMap[..]), curComp, out), comp)
         == RelabelState(componentMap[..], nextComp, out + [id])
  {
    if componentMap[comp] == 0 {
      id, nextComp := curComp, curComp + 1;
      componentMap[comp] := curComp;
    } else {
      id, nextComp := componentMap[comp], curComp;
    }
  }

  /**
   * RelabelDet: renumbers the labels in place by a first-seen scan, with
   * component_map[comp] == 0 standing for "not seen yet".
   */
  method RelabelDet(ids: array<nat>)
    requires LabelsAtMost(ids[..], ids.Length)
    modifies ids
    ensures ids[..] == RelabelDetOf(old(ids[..]))
  {
    ghost var xs := ids[..];
    var n := ids.Length;
    var componentMap := new nat[n + 1](_ => 0);
    var curComp := 0;
    for i := 0 to n
      invariant ids[i..] == xs[i..]
      invariant RelabelRun(xs[..i], n + 1) == RelabelState(componentMap[..], curComp, ids[..i])
    {
      assert xs[..i + 1][..i] == xs[..i];
      var comp := ids[i];
      assert comp == xs[i];
      ghost var before := ids[..];
      var id;
      id, curComp := AssignDet(componentMap, curComp, comp, before[..i]);
      ids[i] := id;
      UpdateSlices(before, i, id);
      assert ids[..] == before[i := id];
    }
    assert xs[..n] == xs;
  }

  /**
   * RelabelDet's ids: position 0 gets 0, no other position gets 0, and the
   * id at position i is at most i.
   */
  lemma RelabelDetBounds(xs: seq<nat>)
    requires LabelsAtMost(xs, |xs|)
    ensures var r := RelabelDetOf(xs);
      && (|xs| > 0 ==> r[0] == 0)
      && (forall i :: 1 <= i < |xs| ==> r[i] != 0)
      && (forall i :: 0 <= i < |xs| ==> r[i] <= i)
  {
    RelabelRunInv(xs, |xs| + 1);
  }

  /** Away from position 0, RelabelDet gives two positions the same id exactly when they had the same label. */
  lemma RelabelDetPartition(xs: seq<nat>, i: nat, j: nat)
    requires LabelsAtMost(xs, |xs|)
    requires 1 <= i < |xs| && 1 <= j < |xs|
    ensures RelabelDetOf(xs)[i] == RelabelDetOf(xs)[j] <==> xs[i] == xs[j]
  {
    RelabelRunInv(xs, |xs| + 1);
  }

  /** Two label sequences that put the same positions together. */
  predicate SamePartition(xs: seq<nat>, ys: seq<nat>) {
    && |xs| == |ys|
    && forall i, j :: 0 <= i < |xs| && 0 <= j < |xs| ==> (xs[i] == xs[j] <==> ys[i] == ys[j])
  }

  /** One iteration on two inputs with the same partition keeps the two states in step. */
  lemma RenamingStep(xp: seq<nat>, yp: seq<nat>, sx: RelabelState, sy: RelabelState, x: nat, y: nat)
    requires SamePartition(xp + [x], yp + [y])
    requires DetInv(xp, sx) && DetInv(yp, sy) && |sx.cm| == |sy.cm|
    requires x < |sx.cm| && y < |sy.cm|
    requires forall i :: 0 <= i < |xp| ==> xp[i] < |sx.cm| && yp[i] < |sy.cm|
    requires sx.cur == sy.cur && sx.out == sy.out
    requires forall j :: 0 <= j < |xp| ==> sx.cm[xp[j]] == sy.cm[yp[j]]
    ensures RelabelStep(sx, x).cur == RelabelStep(sy, y).cur
    ensures RelabelStep(sx, x).out == RelabelStep(sy, y).out
    ensures forall j :: 0 <= j <= |xp| ==> RelabelStep(sx, x).cm[(xp + [x])[j]] == RelabelStep(sy, y).cm[(yp + [y])[j]]
  {
    var xs, ys := xp + [x], yp + [y];
    var k := |xp|;
    assert forall j :: 0 <= j < k ==> xs[j] == xp[j] && ys[j] == yp[j];
    assert xs[k] == x && ys[k] == y;
    assert sx.cm[x] == sy.cm[y] by {
      if j :| 0 <= j < k && xp[j] == x {
        assert ys[j] == ys[k];
      } else {
        assert !LaterOccurs(xp, x);
        assert !LaterOccurs(yp, y);
      }
    }
    var tx, ty := RelabelStep(sx, x), RelabelStep(sy, y);
    forall j | 0 <= j <= k ensures tx.cm[xs[j]] == ty.cm[ys[j]] {
      if j < k {
        assert xs[j] == x <==> ys[j] == y by {
          assert xs[j] == xs[k] <==> ys[j] == ys[k];
        }
      }
    }
  }

  /**
   * RelabelDet looks at labels only through equality: two inputs with the
   * same partition (for instance related by an injective renaming) give the
   * same ids.
   */
  lemma {:induction false} RelabelRunRenaming(xs: seq<nat>, ys: seq<nat>, size: nat)
    requires SamePartition(xs, ys)
    requires forall i :: 0 <= i < |xs| ==> xs[i] < size && ys[i] < size
    ensures RelabelRun(xs, size).cur == RelabelRun(ys, size).cur
    ensures RelabelRun(xs, size).out == RelabelRun(ys, size).out
    ensures forall j :: 0 <= j < |xs| ==> RelabelRun(xs, size).cm[xs[j]] == RelabelRun(ys, size).cm[ys[j]]
  {
    if xs != [] {
      var k := |xs| - 1;
      var xp, yp := xs[..k], ys[..k];
      TakeSnoc(xs);
      TakeSnoc(ys);
      assert SamePartition(xp, yp);
      RelabelRunRenaming(xp, yp, size);
      RelabelRunInv(xp, size);
      RelabelRunInv(yp, size);
      RenamingStep(xp, yp, RelabelRun(xp, size), RelabelRun(yp, size), xs[k], ys[k]);
    }
  }

  /** The renaming invariance of RelabelDet on whole inputs. */
  lemma RelabelDetRenaming(xs: seq<nat>, ys: seq<nat>)
    requires SamePartition(xs, ys) && LabelsAtMost(xs, |xs|) && LabelsAtMost(ys, |ys|)
    ensures RelabelDetOf(xs) == RelabelDetOf(ys)
  {
    RelabelRunRenaming(xs, ys, |xs| + 1);
  }

  /**
   * The quirk: the first label's id 0 also reads as "unseen" in
   * component_map, so the first label's later occurrences get a fresh id.
   */
  lemma RelabelDetQuirk()
    ensures RelabelDetOf([5, 5, 5, 2, 2, 2]) == [0, 1, 1, 2, 2, 2]
  {
    assert [5, 5, 5, 2, 2, 2][..5] == [5, 5, 5, 2, 2];
    assert [5, 5, 5, 2, 2][..4] == [5, 5, 5, 2];
    assert [5, 5, 5, 2][..3] == [5, 5, 5];
    assert [5, 5, 5][..2] == [5, 5];
    assert [5, 5][..1] == [5];
    assert [5][..0] == [];
    var s1 := RelabelRun([5], 7);
    assert s1.cm[5] == 0 && s1.cur == 1 && s1.out == [0];
    var s2 := RelabelRun([5, 5], 7);
    assert s2.cm[5] == 1 && s2.cur == 2 && s2.out == [0, 1];
    var s3 := RelabelRun([5, 5, 5], 7);
    assert s3.cm[5] == 1 && s3.cm[2] == 0 && s3.cur == 2 && s3.out == [0, 1, 1];
    var s4 := RelabelRun([5, 5, 5, 2], 7);
    assert s4.cm[2] == 2 && s4.out == [0, 1, 1, 2];
    var s5 := RelabelRun([5, 5, 5, 2, 2], 7);
    assert s5.cm[2] == 2 && s5.out == [0, 1, 1, 2, 2];
  }

  /**
   * Its consequence for cc_check: [1, 1] (vertices 0 and 1 together) and
   * [1, 0] (apart) get the same ids, so a wrong labelling can pass.
   */
  lemma RelabelDetMerges()
    ensures RelabelDetOf([1, 1]) == [0, 1] == RelabelDetOf([1, 0])
    ensures !SamePartition([1, 1], [1, 0])
  {
    var a: seq<nat> := [1, 1];
    var b: seq<nat> := [1, 0];
    assert a[..1] == [1] && b[..1] == [1] && [1][..0] == [];
    assert RelabelRun([1], 3).cm[1] == 0 && RelabelRun([1], 3).cm[0] == 0;
    assert !SamePartition(a, b) by {
      assert a[0] == a[1] && b[0] != b[1];
    }
  }

  // ---------------------------------------------------------------------
  // First-seen relabelling, with a separate "unseen" marker
  // ---------------------------------------------------------------------

  /** The state of the corrected loop: component_map holds None for an unseen label. */
  datatype CanonState = CanonState(cm: seq<Option<nat>>, cur: nat, out: seq<nat>)

  /** One iteration of the corrected loop. */
  function CanonStep(st: CanonState, x: nat): (r: CanonState)
    requires x < |st.cm|
    ensures |r.cm| == |st.cm| && |r.out| == |st.out| + 1
  {
    match st.cm[x]
    case None => CanonState(st.cm[x := Some(st.cur)], st.cur + 1, st.out + [st.cur])
    case Some(c) => CanonState(st.cm, st.cur, st.out + [c])
  }

  /** size unseen entries. */
  function Unseen(size: nat): (r: seq<Option<nat>>)
    ensures |r| == size && forall x :: 0 <= x < size ==> r[x] == None
  {
    seq(size, _ => None)
  }

  /** The corrected loop over xs. */
  function CanonRun(xs: seq<nat>, size: nat): (st: CanonState)
    requires forall i :: 0 <= i < |xs| ==> xs[i] < size
    ensures |st.cm| == size && |st.out| == |xs|
  {
    if xs == [] then CanonState(Unseen(size), 0, [])
    else
      var k := |xs| - 1;
      CanonStep(CanonRun(xs[..k], size), xs[k])
  }

  /** The first-seen relabelling of xs. */
  function CanonOf(xs: seq<nat>): (r: seq<nat>)
    requires LabelsAtMost(xs, |xs|)
    ensures |r| == |xs|
  {
    CanonRun(xs, |xs| + 1).out
  }

  /**
   * What the corrected loop keeps: an entry is set exactly for the labels
   * seen, every position holds its label's entry, set entries are distinct
   * and below cur_comp, and cur_comp and every id are bounded by the
   * position.
   */
  ghost predicate CanonInv(xs: seq<nat>, st: CanonState) {
    && |st.out| == |xs| && st.cur <= |xs|
    && (forall x :: 0 <= x < |st.cm| ==> (st.cm[x].Some? <==> x in xs))
    && (forall x :: 0 <= x < |st.cm| && st.cm[x].Some? ==> st.cm[x].value < st.cur)
    // triggered on out[j] only: a witness xs[k] of `x in xs` must not re-trigger it
    && (forall j {:trigger st.out[j]} :: 0 <= j < |xs| ==> xs[j] < |st.cm| && st.cm[xs[j]] == Some(st.out[j]))
    && (forall j :: 0 <= j < |xs| ==> st.out[j] <= j)
    && (forall x, y :: 0 <= x < |st.cm| && 0 <= y < |st.cm| && st.cm[x].Some? && st.cm[x] == st.cm[y] ==> x == y)
  }

  /** One iteration of the corrected loop keeps its invariant. */
  lemma CanonStepInv(pre: seq<nat>, st: CanonState, x: nat)
    requires CanonInv(pre, st) && x < |st.cm|
    ensures CanonInv(pre + [x], CanonStep(st, x))
  {
    var xs, r := pre + [x], CanonStep(st, x);
    assert forall j :: 0 <= j < |pre| ==> xs[j] == pre[j];
    assert forall y :: y in xs <==> y in pre || y == x;
    if st.cm[x].None? {
      assert x !in pre;
      assert r == CanonState(st.cm[x := Some(st.cur)], st.cur + 1, st.out + [st.cur]);
      forall j | 0 <= j < |xs| ensures xs[j] < |r.cm| && r.cm[xs[j]] == Some(r.out[j]) {
        if j < |pre| {
          assert xs[j] == pre[j] && pre[j] in pre && r.out[j] == st.out[j];
          assert st.cm[pre[j]] == Some(st.out[j]);
        } else {
          assert xs[j] == x && r.out[j] == st.cur;
        }
      }
    } else {
      assert r == CanonState(st.cm, st.cur, st.out + [st.cm[x].value]);
      assert x in pre;
      forall j | 0 <= j < |xs| ensures xs[j] < |r.cm| && r.cm[xs[j]] == Some(r.out[j]) {
        if j < |pre| {
          assert xs[j] == pre[j] && r.out[j] == st.out[j];
          assert st.cm[pre[j]] == Some(st.out[j]);
        } else {
          assert xs[j] == x && r.out[j] == st.cm[x].value;
        }
      }
    }
  }

  /** The corrected loop keeps CanonInv. */
  lemma {:induction false} CanonRunInv(xs: seq<nat>, size: nat)
    requires forall i :: 0 <= i < |xs| ==> xs[i] < size
    ensures CanonInv(xs, CanonRun(xs, size))
  {
    if xs != [] {
      var k := |xs| - 1;
      CanonRunInv(xs[..k], size);
      TakeSnoc(xs);
      CanonStepInv(xs[..k], CanonRun(xs[..k], size), xs[k]);
    }
  }

  /** The body of the corrected loop on component_map. */
  method AssignCanon(componentMap: array<Option<nat>>, curComp: nat, comp: nat, ghost out: seq<nat>) returns (id: nat, nextComp: nat)
    requires comp < componentMap.Length
    modifies componentMap
    ensures CanonStep(CanonState(old(componentMap[..]), curComp, out), comp)
         == CanonState(componentMap[..], nextComp, out + [id])
  {
    if componentMap[comp].None? {
      id, nextComp := curComp, curComp + 1;
      componentMap[comp] := Some(curComp);
    } else {
      id, nextComp := componentMap[comp].value, curComp;
    }
  }

  /**
   * The corrected relabelling: component_map starts all unseen, so the
   * first label keeps the id 0 at all its occurrences.
   */
  method RelabelCanonical(ids: array<nat>)
    requires LabelsAtMost(ids[..], ids.Length)
    modifies ids
    ensures ids[..] == CanonOf(old(ids[..]))
  {
    ghost var xs := ids[..];
    var n := ids.Length;
    var componentMap := new Option<nat>[n + 1](_ => None);
    var curComp := 0;
    for i := 0 to n
      invariant ids[i..] == xs[i..]
      invariant CanonRun(xs[..i], n + 1) == CanonState(componentMap[..], curComp, ids[..i])
    {
      assert xs[..i + 1][..i] == xs[..i];
      var comp := ids[i];
      assert comp == xs[i];
      ghost var before := ids[..];
      var id;
      id, curComp := AssignCanon(componentMap, curComp, comp, before[..i]);
      ids[i] := id;
      UpdateSlices(before, i, id);
      assert ids[..] == before[i := id];
    }
    assert xs[..n] == xs;
  }

  /**
   * The first-seen relabelling gives two positions the same id exactly when
   * they carry the same label, at every position including 0; ids start at
   * 0 and never exceed the position.
   */
  lemma CanonPartition(xs: seq<nat>)
    requires LabelsAtMost(xs, |xs|)
    ensures SamePartition(xs, CanonOf(xs))
    ensures |xs| > 0 ==> CanonOf(xs)[0] == 0
    ensures forall i :: 0 <= i < |xs| ==> CanonOf(xs)[i] <= i
  {
    CanonRunInv(xs, |xs| + 1);
  }

  /** The corrected loop depends on the partition only. */
  lemma {:induction false} CanonRunRenaming(xs: seq<nat>, ys: seq<nat>, size: nat)
    requires SamePartition(xs, ys)
    requires forall i :: 0 <= i < |xs| ==> xs[i] < size && ys[i] < size
    ensures CanonRun(xs, size).cur == CanonRun(ys, size).cur
    ensures CanonRun(xs, size).out == CanonRun(ys, size).out
  {
    if xs != [] {
      var k := |xs| - 1;
      var xp, yp := xs[..k], ys[..k];
      assert SamePartition(xp, yp);
      CanonRunRenaming(xp, yp, size);
      CanonRunInv(xp, size);
      CanonRunInv(yp, size);
      var sx, sy := CanonRun(xp, size), CanonRun(yp, size);
      var x, y := xs[k], ys[k];
      if x in xp {
        var j :| 0 <= j < k && xp[j] == x;
        assert xs[j] == x && ys[j] == y && yp[j] == y;
        assert sx.cm[x] == Some(sx.out[j]) && sy.cm[y] == Some(sy.out[j]);
      } else {
        assert y !in yp;
      }
    }
  }

  /**
   * The corrected relabelling decides partitions: two labellings get the
   * same ids exactly when they put the same positions together.
   */
  lemma CanonDecides(xs: seq<nat>, ys: seq<nat>)
    requires |xs| == |ys| && LabelsAtMost(xs, |xs|) && LabelsAtMost(ys, |ys|)
    ensures CanonOf(xs) == CanonOf(ys) <==> SamePartition(xs, ys)
  {
    CanonPartition(xs);
    CanonPartition(ys);
    if SamePartition(xs, ys) {
      CanonRunRenaming(xs, ys, |xs| + 1);
    }
  }

  // ---------------------------------------------------------------------
  // cc_check
  // ---------------------------------------------------------------------

  /** cc_check's outcome: the abort with the first differing index, or the two maxima. */
  datatype CheckResult = Mismatch(at: nat, cor: nat, got: nat) | Agree(maxCor: nat, maxChk: nat)

  /**
   * The comparison loop of cc_check over the first |correct| positions:
   * stop at a differing position, else track write_max of both sides.
   */
  method CompareLabels(correct: array<nat>, check: array<nat>) returns (res: CheckResult)
    requires correct.Length <= check.Length
    ensures res.Mismatch? ==>
      && res.at < correct.Length && res.cor == correct[res.at] && res.got == check[res.at]
      && res.cor != res.got
      && forall i :: 0 <= i < res.at ==> correct[i] == check[i]
    ensures res.Agree? <==> forall i :: 0 <= i < correct.Length ==> correct[i] == check[i]
    ensures res.Agree? ==> res.maxCor == MaxOf(correct[..]) && res.maxChk == MaxOf(check[..correct.Length])
  {
    var maxCor, maxChk := 0, 0;
    for i := 0 to correct.Length
      invariant correct[..i] == check[..i]
      invariant maxCor == MaxOf(correct[..i]) && maxChk == MaxOf(check[..i])
    {
      if correct[i] != check[i] {
        assert forall k :: 0 <= k < i ==> correct[..i][k] == check[..i][k];
        return Mismatch(i, correct[i], check[i]);
      }
      assert correct[..i + 1] == correct[..i] + [correct[i]] && check[..i + 1] == check[..i] + [check[i]];
      assert correct[..i + 1][..i] == correct[..i] && check[..i + 1][..i] == check[..i];
      if correct[i] > maxCor {
        maxCor := correct[i];
      }
      if check[i] > maxChk {
        maxChk := check[i];
      }
    }
    assert correct[..correct.Length] == correct[..];
    assert forall k :: 0 <= k < correct.Length ==> correct[..correct.Length][k] == check[..correct.Length][k];
    res := Agree(maxCor, maxChk);
  }

  /**
   * cc_check: relabel `check` with RelabelDet, then compare it with
   * `correct` position by position.
   */
  method CcCheck(correct: array<nat>, check: array<nat>) returns (res: CheckResult)
    requires LabelsAtMost(check[..], check.Length) && correct.Length <= check.Length
    modifies check
    ensures check[..] == RelabelDetOf(old(check[..]))
    ensures res.Mismatch? ==>
      && res.at < correct.Length && res.cor == correct[res.at] && res.got == check[res.at]
      && res.cor != res.got
    ensures res.Agree? <==> forall i :: 0 <= i < correct.Length ==> correct[i] == check[i]
    ensures res.Agree? ==> res.maxCor == MaxOf(correct[..]) && res.maxChk == MaxOf(check[..correct.Length])
  {
    RelabelDet(check);
    res := CompareLabels(correct, check);
  }

  /**
   * cc_check over the corrected relabelling.  When `correct` is itself in
   * first-seen form, the check accepts exactly when the two labellings put
   * the same vertices together.
   */
  method CcCheckCanonical(correct: array<nat>, check: array<nat>) returns (res: CheckResult)
    requires LabelsAtMost(check[..], check.Length) && correct.Length <= check.Length
    modifies check
    ensures check[..] == CanonOf(old(check[..]))
    ensures res.Mismatch? ==>
      && res.at < correct.Length && res.cor == correct[res.at] && res.got == check[res.at]
      && res.cor != res.got
    ensures res.Agree? <==> forall i :: 0 <= i < correct.Length ==> correct[i] == check[i]
    ensures correct.Length == check.Length && LabelsAtMost(correct[..], correct.Length)
            && correct[..] == CanonOf(correct[..])
            ==> (res.Agree? <==> SamePartition(correct[..], old(check[..])))
  {
    ghost var before := check[..];
    RelabelCanonical(check);
    res := CompareLabels(correct, check);
    if correct.Length == check.Length && LabelsAtMost(correct[..], correct.Length) && correct[..] == CanonOf(correct[..]) {
      CanonDecides(correct[..], before);
      assert res.Agree? <==> correct[..] == check[..];
    }
  }
}

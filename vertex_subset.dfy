/**
 * The adaptive vertex set of gbbs (vertexSubsetData) and the map/filter
 * operations over it.  A set over the universe 0..n is held as a sparse list
 * of (id, payload) entries, as a dense array of (present, payload) cells, or
 * both; a sequence of length 0 stands for the missing form, as in the source.
 * The `pbbslib::empty` specialisation is the instance with payload type ().
 */
module VertexSubsets {
  import opened SeqUtil

  /** The largest size_t value: the "unset" state of the out-degree cache. */
  const SizeTMax: nat := 0xFFFF_FFFF_FFFF_FFFF

  // ---------------------------------------------------------------------
  // The two representations and their abstract meaning
  // ---------------------------------------------------------------------

  /** Every id of a sparse list is below n. */
  predicate IdsBelow<T>(s: seq<(nat, T)>, n: nat) {
    forall i :: 0 <= i < |s| ==> s[i].0 < n
  }

  /** No id occurs twice in a sparse list. */
  predicate DistinctIds<T>(s: seq<(nat, T)>) {
    forall i, j :: 0 <= i < j < |s| ==> s[i].0 != s[j].0
  }

  /** Ids strictly increase along the list (the output of a pack over the dense array). */
  predicate IncreasingIds<T>(s: seq<(nat, T)>) {
    forall i, j :: 0 <= i < j < |s| ==> s[i].0 < s[j].0
  }

  /** The members of a dense array, each mapped to its payload. */
  function DenseContents<T>(d: seq<(bool, T)>): map<nat, T> {
    map v: nat | v < |d| && d[v].0 :: d[v].1
  }

  /**
   * The members of a sparse list, each mapped to its payload (a later entry
   * would win, but the lists held by a set never repeat an id).
   */
  function SparseContents<T>(s: seq<(nat, T)>): map<nat, T> {
    if s == [] then map[] else SparseContents(s[..|s| - 1])[s[|s| - 1].0 := s[|s| - 1].1]
  }

  /** An id is a member of a sparse list exactly when some entry carries it. */
  lemma {:induction false} SparseKeys<T>(s: seq<(nat, T)>)
    ensures forall v :: v in SparseContents(s) <==> exists i :: 0 <= i < |s| && s[i].0 == v
  {
    if s != [] {
      var k := |s| - 1;
      var p := s[..k];
      SparseKeys(p);
      assert forall i :: 0 <= i < k ==> p[i] == s[i];
    }
  }

  /** In a list without repeated ids, each entry's payload is its id's payload. */
  lemma {:induction false} SparseLookup<T>(s: seq<(nat, T)>, i: nat)
    requires DistinctIds(s) && i < |s|
    ensures s[i].0 in SparseContents(s) && SparseContents(s)[s[i].0] == s[i].1
  {
    var k := |s| - 1;
    if i < k {
      var p := s[..k];
      assert p[i] == s[i];
      SparseLookup(p, i);
    }
  }

  /** A sparse list without repeated ids has as many members as entries. */
  lemma {:induction false} SparseCardinality<T>(s: seq<(nat, T)>)
    requires DistinctIds(s)
    ensures |SparseContents(s)| == |s|
  {
    if s != [] {
      var k := |s| - 1;
      var p := s[..k];
      SparseCardinality(p);
      SparseKeys(p);
      assert s[k].0 !in SparseContents(p);
    }
  }

  /** Appending entries unites the ids. */
  lemma {:induction false} SparseAppendKeys<T>(a: seq<(nat, T)>, b: seq<(nat, T)>)
    ensures SparseContents(a + b).Keys == SparseContents(a).Keys + SparseContents(b).Keys
  {
    if b == [] {
      assert a + b == a;
    } else {
      var k := |b| - 1;
      SparseAppendKeys(a, b[..k]);
      assert (a + b)[..|a + b| - 1] == a + b[..k];
    }
  }

  /** Appending entries whose ids are new keeps the ids distinct. */
  lemma DistinctAppend<T>(a: seq<(nat, T)>, b: seq<(nat, T)>)
    requires DistinctIds(a) && DistinctIds(b)
    requires forall j :: 0 <= j < |b| ==> b[j].0 !in SparseContents(a)
    ensures DistinctIds(a + b)
  {
    SparseKeys(a);
    var ab := a + b;
    forall i, j | 0 <= i < j < |ab| ensures ab[i].0 != ab[j].0 {
      if i < |a| && j >= |a| {
        assert ab[i] == a[i] && ab[j] == b[j - |a|];
      }
    }
  }

  /** A dense array describes a map when it flags exactly the map's keys and holds their payloads. */
  lemma DenseIs<T>(d: seq<(bool, T)>, c: map<nat, T>)
    requires forall v :: 0 <= v < |d| ==> (d[v].0 <==> v in c)
    requires forall v :: v in c ==> v < |d| && c[v] == d[v].1
    ensures DenseContents(d) == c
  {
    assert DenseContents(d).Keys == c.Keys;
  }

  /** The members of a dense array, read one cell at a time from the end. */
  lemma DenseSnoc<T>(d: seq<(bool, T)>)
    requires d != []
    ensures var k := |d| - 1;
      DenseContents(d) == if d[k].0 then DenseContents(d[..k])[k := d[k].1] else DenseContents(d[..k])
  {
    var k := |d| - 1;
    var c := if d[k].0 then DenseContents(d[..k])[k := d[k].1] else DenseContents(d[..k]);
    DenseIs(d, c);
  }

  /**
   * The dense array after marking each entry of a sparse list in order: the
   * entry's cell becomes (true, payload).
   */
  function Mark<T>(d: seq<(bool, T)>, s: seq<(nat, T)>): (r: seq<(bool, T)>)
    requires IdsBelow(s, |d|)
    ensures |r| == |d|
  {
    if s == [] then d
    else
      var k := |s| - 1;
      Mark(d, s[..k])[s[k].0 := (true, s[k].1)]
  }

  /** Marking a list without repeated ids into a cleared array gives a dense form of the same members. */
  lemma {:induction false} MarkContents<T>(d: seq<(bool, T)>, s: seq<(nat, T)>)
    requires IdsBelow(s, |d|) && DistinctIds(s)
    requires forall v :: 0 <= v < |d| ==> !d[v].0
    ensures DenseContents(Mark(d, s)) == SparseContents(s)
  {
    if s == [] {
      assert DenseContents(d) == map[];
    } else {
      var k := |s| - 1;
      var p := s[..k];
      MarkContents(d, p);
      var c := SparseContents(p);
      var r := Mark(d, s);
      assert SparseContents(s) == c[s[k].0 := s[k].1];
      DenseIs(r, SparseContents(s));
    }
  }

  /** The number of present cells of a dense array (the source's reduce_add over the flags). */
  function CountPresent<T>(d: seq<(bool, T)>): nat {
    if d == [] then 0 else CountPresent(d[..|d| - 1]) + (if d[|d| - 1].0 then 1 else 0)
  }

  /** The cells of a dense array counted by CountPresent are exactly its members. */
  lemma {:induction false} CountPresentIsCardinality<T>(d: seq<(bool, T)>)
    ensures |DenseContents(d)| == CountPresent(d)
  {
    if d != [] {
      var k := |d| - 1;
      CountPresentIsCardinality(d[..k]);
      DenseSnoc(d);
    }
  }

  /**
   * pbbslib::pack_index (with its payload variant pack_index_and_data): the
   * present cells of a dense array, as a sparse list in increasing id order.
   */
  function PackIndex<T>(d: seq<(bool, T)>): (r: seq<(nat, T)>)
    ensures IncreasingIds(r) && DistinctIds(r) && IdsBelow(r, |d|)
    ensures |r| == CountPresent(d)
  {
    if d == [] then []
    else
      var k := |d| - 1;
      var r0 := PackIndex(d[..k]);
      if d[k].0 then r0 + [(k, d[k].1)] else r0
  }

  /** pack_index keeps exactly the members of the dense array, with their payloads. */
  lemma {:induction false} PackIndexContents<T>(d: seq<(bool, T)>)
    ensures SparseContents(PackIndex(d)) == DenseContents(d)
  {
    if d != [] {
      var k := |d| - 1;
      var r0 := PackIndex(d[..k]);
      PackIndexContents(d[..k]);
      DenseSnoc(d);
      if d[k].0 {
        assert (r0 + [(k, d[k].1)])[..|r0|] == r0;
      }
    }
  }

  /**
   * pbbslib::pack over a sparse list: the entries whose flag is set, in their
   * original order.
   */
  function Pack<T>(s: seq<(nat, T)>, keep: seq<bool>): (r: seq<(nat, T)>)
    requires |keep| == |s|
    ensures |r| <= |s|
  {
    if s == [] then []
    else
      var k := |s| - 1;
      var r0 := Pack(s[..k], keep[..k]);
      if keep[k] then r0 + [s[k]] else r0
  }

  /** The ids of a map's keys that pass `filter` on their payload. */
  function Selected<T>(c: map<nat, T>, filter: (nat, T) -> bool): set<nat> {
    set v | v in c && filter(v, c[v])
  }

  /** Adding a new key adds it to the selection exactly when it passes. */
  lemma SelectedUpdate<T>(c: map<nat, T>, k: nat, x: T, filter: (nat, T) -> bool)
    requires k !in c
    ensures Selected(c[k := x], filter) == Selected(c, filter) + (if filter(k, x) then {k} else {})
  {
  }

  /** A sparse list's entries with their payload stripped (the filters return plain vertex sets). */
  function Unit<T>(s: seq<(nat, T)>): (r: seq<(nat, ())>)
    ensures |r| == |s| && forall i :: 0 <= i < |s| ==> r[i].0 == s[i].0
  {
    seq(|s|, i requires 0 <= i < |s| => (s[i].0, ()))
  }

  /** The outcome of `filter` on each entry of a sparse list. */
  function Bits<T>(s: seq<(nat, T)>, filter: (nat, T) -> bool): (r: seq<bool>)
    ensures |r| == |s| && forall i :: 0 <= i < |s| ==> r[i] == filter(s[i].0, s[i].1)
  {
    seq(|s|, i requires 0 <= i < |s| => filter(s[i].0, s[i].1))
  }

  /** The sparse filter's result: the ids of `s` whose entries pass `filter`, in order, without payload. */
  function Survivors<T>(s: seq<(nat, T)>, filter: (nat, T) -> bool): seq<(nat, ())> {
    Pack(Unit(s), Bits(s, filter))
  }

  /** The survivors of a non-empty list: those of its prefix, then its last entry if it passes. */
  lemma SurvivorsSnoc<T>(s: seq<(nat, T)>, filter: (nat, T) -> bool)
    requires s != []
    ensures var k := |s| - 1;
      Survivors(s, filter)
      == Survivors(s[..k], filter) + if filter(s[k].0, s[k].1) then [(s[k].0, ())] else []
  {
    var k := |s| - 1;
    assert Unit(s)[..k] == Unit(s[..k]);
    assert Bits(s, filter)[..k] == Bits(s[..k], filter);
  }

  /**
   * The survivors of a list without repeated ids repeat no id and are exactly
   * the members that pass the filter.
   */
  lemma {:induction false} SurvivorsKeys<T>(s: seq<(nat, T)>, filter: (nat, T) -> bool)
    requires DistinctIds(s)
    ensures DistinctIds(Survivors(s, filter))
    ensures SparseContents(Survivors(s, filter)).Keys == Selected(SparseContents(s), filter)
  {
    if s != [] {
      var k := |s| - 1;
      var p := s[..k];
      SurvivorsSnoc(s, filter);
      SurvivorsKeys(p, filter);
      SparseKeys(p);
      assert s[k].0 !in SparseContents(p);
      SelectedUpdate(SparseContents(p), s[k].0, s[k].1, filter);
      assert SparseContents(s) == SparseContents(p)[s[k].0 := s[k].1];
      var r0 := Survivors(p, filter);
      if filter(s[k].0, s[k].1) {
        var e := (s[k].0, ());
        assert e.0 !in SparseContents(r0);
        DistinctAppend(r0, [e]);
        assert (r0 + [e])[..|r0|] == r0;
        assert SparseContents(r0 + [e]) == SparseContents(r0)[e.0 := ()];
        assert Survivors(s, filter) == r0 + [e];
        assert Selected(SparseContents(s), filter) == Selected(SparseContents(p), filter) + {e.0};
        assert SparseContents(r0 + [e]).Keys == SparseContents(r0).Keys + {e.0};
      } else {
        assert Survivors(s, filter) == r0;
      }
    }
  }

  /** The sparse filter's output is a well-formed list over 0..n with one entry per passing member. */
  lemma SurvivorsWellFormed<T>(s: seq<(nat, T)>, filter: (nat, T) -> bool, n: nat)
    requires DistinctIds(s) && IdsBelow(s, n)
    ensures IdsBelow(Survivors(s, filter), n) && DistinctIds(Survivors(s, filter))
    ensures SparseContents(Survivors(s, filter)).Keys == Selected(SparseContents(s), filter)
    ensures |Survivors(s, filter)| == |Selected(SparseContents(s), filter)|
  {
    var r := Survivors(s, filter);
    SurvivorsKeys(s, filter);
    SparseKeys(s);
    SparseKeys(r);
    SparseCardinality(r);
    forall i | 0 <= i < |r| ensures r[i].0 < n {
      assert r[i].0 in SparseContents(r);
    }
  }

  /** Plain ids as a payload-free sparse list. */
  function UnitIds(xs: seq<nat>): (r: seq<(nat, ())>)
    ensures |r| == |xs| && forall i :: 0 <= i < |xs| ==> r[i] == (xs[i], ())
  {
    seq(|xs|, i requires 0 <= i < |xs| => (xs[i], ()))
  }

  // ---------------------------------------------------------------------
  // vertexSubsetData
  // ---------------------------------------------------------------------

  class VertexSubsetData<T(0)> {
    /** Universe size: the members are ids below n. */
    const n: nat
    /** Cached number of members. */
    var m: nat
    /** Sparse form; only its first m entries are members; empty when absent. */
    var s: seq<(nat, T)>
    /** Dense form, one cell per id; empty when absent. */
    var d: seq<(bool, T)>
    /** Which form is current. */
    var isDense: bool
    /** Memoised out-degree sum; SizeTMax means unset. */
    var sumOutDegrees: nat

    /**
     * The representation invariant: the current form exists, a form that
     * exists is well formed and counts m members, and when both forms exist
     * they hold the same members with the same payloads.
     */
    ghost predicate Valid()
      reads this
    {
      && (|d| == 0 || |d| == n)
      && (|s| > 0 ==> m <= |s|)
      && (!isDense ==> m <= |s|)
      && (isDense ==> |d| == n)
      && (m <= |s| ==> IdsBelow(s[..m], n) && DistinctIds(s[..m]))
      && (|d| == n ==> CountPresent(d) == m)
      && (m <= |s| && |d| == n ==> DenseContents(d) == SparseContents(s[..m]))
    }

    /** The abstract value: the members, each with its payload. */
    function Contents(): (c: map<nat, T>)
      reads this
      requires Valid()
      ensures |c| == m
      ensures forall v :: v in c ==> v < n
    {
      if isDense then
        CountPresentIsCardinality(d);
        DenseContents(d)
      else
        SparseCardinality(s[..m]);
        SparseKeys(s[..m]);
        SparseContents(s[..m])
    }

    /** Whichever forms exist, each of them describes Contents(). */
    lemma FormsAgree()
      requires Valid()
      ensures |d| == n ==> DenseContents(d) == Contents()
      ensures m <= |s| ==> SparseContents(s[..m]) == Contents()
    {
    }

    /** The empty set over 0..n (vertex_subset.h:233-237, and the generic 68-72). */
    constructor Empty(n: nat)
      ensures Valid() && this.n == n
      ensures Contents() == map[] && m == 0 && !isDense && !OutDegreesSet()
      ensures s == [] && d == []
    {
      this.n := n;
      m := 0;
      s := [];
      d := [];
      isDense := false;
      sumOutDegrees := SizeTMax;
    }

    /** The set holding just v (vertex_subset.h:240-247). */
    constructor Single(n: nat, v: nat, x: T)
      requires v < n
      ensures Valid() && this.n == n && !isDense && !OutDegreesSet()
      ensures Contents() == map[v := x] && m == 1
    {
      this.n := n;
      m := 1;
      s := [(v, x)];
      d := [];
      isDense := false;
      sumOutDegrees := SizeTMax;
      new;
      assert s[..1] == [(v, x)] && s[..1][..0] == [];
      assert SparseContents(s[..1]) == map[][v := x];
    }

    /** A set from a list of ids whose first m entries are the members (vertex_subset.h:250-255). */
    constructor FromSparseCount(n: nat, m: nat, A: seq<(nat, T)>)
      requires m <= |A| && IdsBelow(A[..m], n) && DistinctIds(A[..m])
      ensures Valid() && this.n == n && this.m == m && !isDense && !OutDegreesSet()
      ensures s == A && d == []
      ensures Contents() == SparseContents(A[..m])
    {
      this.n := n;
      this.m := m;
      s := A;
      d := [];
      isDense := false;
      sumOutDegrees := SizeTMax;
      new;
      assert m > 0 ==> A[..m][0].0 < n;
    }

    /** A set from a list of ids, all of them members (vertex_subset.h:257-262). */
    constructor FromSparse(n: nat, A: seq<(nat, T)>)
      requires IdsBelow(A, n) && DistinctIds(A)
      ensures Valid() && this.n == n && m == |A| && !isDense && !OutDegreesSet()
      ensures s == A && d == []
      ensures Contents() == SparseContents(A)
    {
      this.n := n;
      m := |A|;
      s := A;
      d := [];
      isDense := false;
      sumOutDegrees := SizeTMax;
      new;
      assert A[..|A|] == A;
      assert |A| > 0 ==> A[0].0 < n;
    }

    /** A set from a presence array whose number of present cells is given (vertex_subset.h:265-270). */
    constructor FromDenseCount(n: nat, m: nat, A: seq<(bool, T)>)
      requires |A| == n && CountPresent(A) == m
      ensures Valid() && this.n == n && this.m == m && isDense && !OutDegreesSet()
      ensures d == A && s == []
      ensures Contents() == DenseContents(A)
    {
      this.n := n;
      this.m := m;
      s := [];
      d := A;
      isDense := true;
      sumOutDegrees := SizeTMax;
      new;
      CountPresentIsCardinality(A);
    }

    /**
     * A set from a presence array; m is computed by summing the presence
     * flags (vertex_subset.h:274-282, and the generic 100-108).
     */
    constructor FromDense(n: nat, A: seq<(bool, T)>)
      requires |A| == n
      ensures Valid() && this.n == n && isDense && !OutDegreesSet()
      ensures d == A && s == []
      ensures Contents() == DenseContents(A)
      ensures m == CountPresent(A) == |DenseContents(A)|
    {
      this.n := n;
      m := CountPresent(A);
      s := [];
      d := A;
      isDense := true;
      sumOutDegrees := SizeTMax;
      new;
      CountPresentIsCardinality(A);
    }

    // ----- degree cache -----

    predicate OutDegreesSet()
      reads this
    {
      sumOutDegrees != SizeTMax
    }

    function GetOutDegrees(): nat
      reads this
    {
      sumOutDegrees
    }

    method SetOutDegrees(x: nat)
      modifies this
      ensures GetOutDegrees() == x && (OutDegreesSet() <==> x != SizeTMax)
      ensures m == old(m) && s == old(s) && d == old(d) && isDense == old(isDense)
    {
      sumOutDegrees := x;
    }

    // ----- accessors -----

    function Size(): (r: nat)
      reads this
      requires Valid()
      ensures r == |Contents()|
    {
      m
    }

    function NumVertices(): nat
      reads this
    {
      n
    }

    function IsEmpty(): (b: bool)
      reads this
      requires Valid()
      ensures b <==> Contents() == map[]
    {
      assert m == 0 <==> Contents() == map[] by {
        if m != 0 {
          assert |Contents()| != 0;
        }
      }
      m == 0
    }

    function Dense(): bool
      reads this
    {
      isDense
    }

    /** Membership by the dense form (callers make sure it exists). */
    function IsIn(v: nat): (b: bool)
      reads this
      requires Valid() && |d| == n && v < n
      ensures b <==> v in Contents()
    {
      d[v].0
    }

    /** The payload of a dense cell; it is the member's payload when v is a member. */
    function IthData(v: nat): (x: T)
      reads this
      requires Valid() && |d| == n && v < n
      ensures v in Contents() ==> Contents()[v] == x
    {
      d[v].1
    }

    /** The id of the i-th sparse entry. */
    function Vtx(i: nat): (v: nat)
      reads this
      requires Valid() && m <= |s| && i < m
      ensures v in Contents() && v < n
    {
      SparseLookup(s[..m], i);
      s[i].0
    }

    /** The payload of the i-th sparse entry. */
    function VtxData(i: nat): (x: T)
      reads this
      requires Valid() && m <= |s| && i < m
      ensures Contents()[Vtx(i)] == x
    {
      SparseLookup(s[..m], i);
      s[i].1
    }

    /**
     * get_fn_repr, applied: in dense mode, the member at id x if there is
     * one; in sparse mode, the x-th entry.
     */
    function FnRepr(x: nat): (r: Option<(nat, T)>)
      reads this
      requires Valid()
      requires isDense ==> x < n
      requires !isDense ==> x < m
      ensures isDense ==> (r.Some? <==> x in Contents())
      ensures !isDense ==> r.Some?
      ensures r.Some? ==> r.value.0 in Contents() && Contents()[r.value.0] == r.value.1
    {
      if isDense then
        if d[x].0 then Some((x, d[x].1)) else None
      else
        Some((Vtx(x), VtxData(x)))
    }

    /**
     * Switch to the sparse form.  When it is missing (and the set is not
     * empty) it is packed from the dense form; the source aborts if the
     * packed length disagrees with m, which Valid() rules out.
     */
    method ToSparse()
      requires Valid()
      modifies this
      ensures Valid() && !isDense && Contents() == old(Contents())
      ensures d == old(d) && m == old(m) && sumOutDegrees == old(sumOutDegrees)
      ensures old(|s| == 0 && m > 0) ==> s == PackIndex(d)
      ensures !old(|s| == 0 && m > 0) ==> s == old(s)
    {
      ghost var c := Contents();
      if |s| == 0 && m > 0 {
        var packed := PackIndex(d);
        if |packed| != m {
          assert false;
        }
        s := packed;
        assert s[..m] == s;
        PackIndexContents(d);
      }
      isDense := false;
    }

    /**
     * Switch to the dense form.  When it is missing it is built by clearing n
     * cells and then marking the first m sparse entries; an existing dense
     * form is kept as it is.
     */
    method ToDense()
      requires Valid()
      modifies this
      ensures Valid() && isDense && Contents() == old(Contents())
      ensures s == old(s) && m == old(m) && sumOutDegrees == old(sumOutDegrees)
      ensures old(|d|) != 0 ==> d == old(d)
      ensures old(|d|) == 0 ==> |d| == n && DenseContents(d) == SparseContents(s[..m])
    {
      if |d| == 0 {
        var a := new (bool, T)[n];
        for i := 0 to n
          modifies a
          invariant forall j :: 0 <= j < i ==> !a[j].0
        {
          a[i] := (false, a[i].1);
        }
        ghost var cleared := a[..];
        ghost var sm := s[..m];
        for i := 0 to m
          modifies a
          invariant a[..] == Mark(cleared, sm[..i])
        {
          assert sm[..i + 1][..i] == sm[..i];
          assert s[i] == sm[i];
          a[s[i].0] := (true, s[i].1);
        }
        assert sm[..m] == sm;
        d := a[..];
        MarkContents(cleared, sm);
        CountPresentIsCardinality(d);
        SparseCardinality(sm);
      }
      isDense := true;
    }
  }

  /** The vertex set without payload (`vertexSubset`). */
  type VertexSubset = VertexSubsetData<()>

  // ---------------------------------------------------------------------
  // Functions on vertex subsets
  // ---------------------------------------------------------------------

  /**
   * vertexMap: the calls f receives, in scan order.  A dense set is scanned
   * over 0..n and tested with isIn; a sparse set over its first m entries.
   * Each member is visited exactly once, with its payload.
   */
  method VertexMap<T(0)>(V: VertexSubsetData<T>) returns (calls: seq<(nat, T)>)
    requires V.Valid()
    ensures DistinctIds(calls) && SparseContents(calls) == V.Contents() && |calls| == V.m
    ensures V.isDense ==> IncreasingIds(calls)
    ensures !V.isDense ==> calls == V.s[..V.m]
  {
    var n, m := V.NumVertices(), V.Size();
    calls := [];
    if V.Dense() {
      for i := 0 to n
        invariant calls == PackIndex(V.d[..i])
      {
        assert V.d[..i + 1][..i] == V.d[..i];
        if V.IsIn(i) {
          calls := calls + [(i, V.IthData(i))];
        }
      }
      assert V.d[..n] == V.d;
      PackIndexContents(V.d);
    } else {
      for i := 0 to m
        invariant calls == V.s[..i]
      {
        assert V.s[..i + 1] == V.s[..i] + [V.s[i]];
        calls := calls + [(V.Vtx(i), V.VtxData(i))];
      }
    }
  }

  /** The dense filter's output array: a cell is set when the id is a member and passes. */
  function FilterDense<T>(d: seq<(bool, T)>, filter: (nat, T) -> bool): (r: seq<(bool, ())>)
    ensures |r| == |d| && forall v :: 0 <= v < |d| ==> r[v] == (d[v].0 && filter(v, d[v].1), ())
  {
    seq(|d|, v requires 0 <= v < |d| => (d[v].0 && filter(v, d[v].1), ()))
  }

  /** The dense filter keeps exactly the members that pass. */
  lemma FilterDenseKeys<T>(d: seq<(bool, T)>, filter: (nat, T) -> bool)
    ensures DenseContents(FilterDense(d, filter)).Keys == Selected(DenseContents(d), filter)
  {
  }

  /**
   * The d_out array of vertexFilter_dense: every cell cleared, then each
   * member's cell set to the filter's outcome on it.
   */
  method FilterFlagsDense<T(0)>(V: VertexSubsetData<T>, filter: (nat, T) -> bool) returns (dOut: array<(bool, ())>)
    requires V.Valid() && V.isDense
    ensures fresh(dOut) && dOut[..] == FilterDense(V.d, filter)
  {
    var n := V.NumVertices();
    dOut := new (bool, ())[n];
    for i := 0 to n
      modifies dOut
      invariant forall j :: 0 <= j < i ==> dOut[j] == (false, ())
    {
      dOut[i] := (false, ());
    }
    ghost var want := FilterDense(V.d, filter);
    for i := 0 to n
      modifies dOut
      invariant forall j :: 0 <= j < n ==> dOut[j] == (j < i && want[j].0, ())
    {
      if V.IsIn(i) {
        dOut[i] := (filter(i, V.IthData(i)), ());
      }
    }
    assert dOut[..] == want;
  }

  /**
   * vertexFilter_dense: switches V to its dense form and returns a dense set
   * of the members that pass `filter`.
   */
  method VertexFilterDense<T(0)>(V: VertexSubsetData<T>, filter: (nat, T) -> bool) returns (R: VertexSubset)
    requires V.Valid()
    modifies V
    ensures V.Valid() && V.isDense && V.Contents() == old(V.Contents())
    ensures V.s == old(V.s) && V.m == old(V.m)
    ensures fresh(R) && R.Valid() && R.n == V.n && R.isDense && R.d == FilterDense(V.d, filter)
    ensures V.sumOutDegrees == old(V.sumOutDegrees) && !R.OutDegreesSet()
    ensures R.Contents().Keys == Selected(old(V.Contents()), filter)
    ensures R.m == |Selected(old(V.Contents()), filter)|
  {
    var n := V.NumVertices();
    V.ToDense();
    var dOut := FilterFlagsDense(V, filter);
    R := new VertexSubsetData<()>.FromDense(n, dOut[..]);
    FilterDenseKeys(V.d, filter);
  }

  /** The bits array of vertexFilter_sparse: the filter's outcome on each of the first m sparse entries. */
  method FilterBits<T(0)>(V: VertexSubsetData<T>, filter: (nat, T) -> bool) returns (bits: array<bool>)
    requires V.Valid() && V.m <= |V.s|
    ensures fresh(bits) && bits[..] == Bits(V.s[..V.m], filter)
  {
    bits := new bool[V.m];
    for i := 0 to V.m
      modifies bits
      invariant forall j :: 0 <= j < i ==> bits[j] == filter(V.s[j].0, V.s[j].1)
    {
      bits[i] := filter(V.Vtx(i), V.VtxData(i));
    }
  }

  /**
   * vertexFilter_sparse: the empty set when V is empty (V untouched);
   * otherwise V switches to its sparse form and the result is the sparse
   * list of V's entries that pass `filter`, in their original order.
   */
  method VertexFilterSparse<T(0)>(V: VertexSubsetData<T>, filter: (nat, T) -> bool) returns (R: VertexSubset)
    requires V.Valid()
    modifies V
    ensures V.Valid() && V.Contents() == old(V.Contents()) && V.m == old(V.m)
    ensures old(V.m) == 0 ==> V.isDense == old(V.isDense) && R.s == []
    ensures old(V.m) != 0 ==> !V.isDense && R.s == Survivors(V.s[..V.m], filter)
    ensures fresh(R) && R.Valid() && R.n == V.n && !R.isDense && |R.d| == 0
    ensures V.sumOutDegrees == old(V.sumOutDegrees) && !R.OutDegreesSet()
    ensures R.Contents().Keys == Selected(old(V.Contents()), filter)
    ensures R.m == |Selected(old(V.Contents()), filter)|
  {
    var n, m := V.NumVertices(), V.Size();
    if m == 0 {
      R := new VertexSubsetData<()>.Empty(n);
      assert Selected(V.Contents(), filter) == {};
      return;
    }
    V.ToSparse();
    var bits := FilterBits(V, filter);
    var out := Pack(Unit(V.s[..m]), bits[..]);
    SurvivorsWellFormed(V.s[..m], filter, n);
    R := new VertexSubsetData<()>.FromSparse(n, out);
  }

  /** The flags vertexFilter looks at: dense_only, no_dense, or anything else. */
  datatype FilterFlags = DenseOnly | NoDense | OtherFlags

  /**
   * vertexFilter: dense_only forces the dense path, no_dense the sparse one;
   * otherwise the path follows V's current form.
   */
  method VertexFilter<T(0)>(V: VertexSubsetData<T>, filter: (nat, T) -> bool, fl: FilterFlags) returns (R: VertexSubset)
    requires V.Valid()
    modifies V
    ensures V.Valid() && V.Contents() == old(V.Contents())
    ensures fresh(R) && R.Valid() && R.n == V.n
    ensures R.isDense <==> fl == DenseOnly || (fl == OtherFlags && old(V.isDense))
    ensures V.sumOutDegrees == old(V.sumOutDegrees) && !R.OutDegreesSet()
    ensures R.Contents().Keys == Selected(old(V.Contents()), filter)
    ensures R.m == |Selected(old(V.Contents()), filter)|
  {
    if fl == DenseOnly {
      R := VertexFilterDense(V, filter);
    } else if fl == NoDense {
      R := VertexFilterSparse(V, filter);
    } else if V.Dense() {
      R := VertexFilterDense(V, filter);
    } else {
      R := VertexFilterSparse(V, filter);
    }
  }

  /** Plain distinct ids make a list without repeated ids whose members are those ids. */
  lemma UnitIdsKeys(xs: seq<nat>)
    requires Distinct(xs)
    ensures DistinctIds(UnitIds(xs)) && SparseContents(UnitIds(xs)).Keys == Elems(xs)
  {
    SparseKeys(UnitIds(xs));
  }

  /** Appending new, distinct ids below n to a well-formed list keeps it well formed and unites the ids. */
  lemma AppendNewIds(kept: seq<(nat, ())>, xs: seq<nat>, n: nat)
    requires IdsBelow(kept, n) && DistinctIds(kept) && Distinct(xs)
    requires forall i :: 0 <= i < |xs| ==> xs[i] < n && xs[i] !in SparseContents(kept)
    ensures IdsBelow(kept + UnitIds(xs), n) && DistinctIds(kept + UnitIds(xs))
    ensures SparseContents(kept + UnitIds(xs)).Keys == SparseContents(kept).Keys + Elems(xs)
  {
    var extra := UnitIds(xs);
    UnitIdsKeys(xs);
    DistinctAppend(kept, extra);
    SparseAppendKeys(kept, extra);
    forall i | 0 <= i < |kept + extra| ensures (kept + extra)[i].0 < n {
      if i >= |kept| {
        assert (kept + extra)[i] == extra[i - |kept|];
      }
    }
  }

  /**
   * add_to_vsubset (declared only in the source, used by the spanning-forest
   * round loop): appends new ids to a sparse set that has no dense form and
   * raises m accordingly.
   */
  method AddToVsubset(vs: VertexSubset, newVerts: seq<nat>)
    requires vs.Valid() && !vs.isDense && |vs.d| == 0
    requires Distinct(newVerts)
    requires forall i :: 0 <= i < |newVerts| ==> newVerts[i] < vs.n && newVerts[i] !in vs.Contents()
    modifies vs
    ensures vs.Valid() && !vs.isDense && |vs.d| == 0
    ensures vs.m == old(vs.m) + |newVerts|
    ensures vs.Contents().Keys == old(vs.Contents().Keys) + Elems(newVerts)
    ensures vs.s == old(vs.s[..vs.m]) + UnitIds(newVerts)
    ensures vs.sumOutDegrees == old(vs.sumOutDegrees)
  {
    var kept := vs.s[..vs.m];
    var extra := UnitIds(newVerts);
    AppendNewIds(kept, newVerts, vs.n);
    vs.s := kept + extra;
    vs.m := vs.m + |newVerts|;
    assert vs.s[..vs.m] == vs.s;
  }
}

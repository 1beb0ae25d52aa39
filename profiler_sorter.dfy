/**
 * Views, tree entries and the optional named comparator of the profiler
 * report (ProfilerSorter in src/profiler/profiler_printer.h), together with
 * the top-k selection the printer applies to each node's children.
 */
module ProfilerSorter {
  import opened Wrappers

  /** The counter snapshot a view projects; what the counters mean is outside this model. */
  datatype Stats = Stats(counters: seq<int>)

  /** A named, read-only projection over one counter record. */
  datatype View = View(name: string, stats: Stats)

  /**
   * A node of the report tree. `id` stands in for node identity, which the
   * printer uses to recognise the root.
   */
  datatype Entry = Entry(id: nat, view: View, children: seq<Entry>)

  /** The comparator a sorter carries: `less(a, b)` ranks `a` before `b`. */
  type Less = (View, View) -> bool

  /** A display name and a comparator that may be missing (a null function pointer). */
  datatype Sorter = Sorter(name: string, sort: Option<Less>) {

    /** The sorter is usable exactly when its comparator is present. */
    predicate Present()
      ensures Present() <==> sort != None
    {
      sort.Some?
    }

    /**
     * Comparing two entries compares their views with the comparator; only
     * a present sorter may be called.
     */
    function Compare(lhs: Entry, rhs: Entry): (r: bool)
      requires Present()
      ensures r == sort.value(lhs.view, rhs.view)
    {
      sort.value(lhs.view, rhs.view)
    }
  }

  /** What the standard partial sort relies on: irreflexive and transitive. */
  ghost predicate StrictOrder(less: Less) {
    && (forall x :: !less(x, x))
    && (forall x, y, z :: less(x, y) && less(y, z) ==> less(x, z))
  }

  /**
   * A strict order on views gives a strict order on entries, and entries
   * with the same view compare alike: the entry comparison only looks at
   * the views.
   */
  lemma CompareStrict(sorter: Sorter, x: Entry, y: Entry, z: Entry)
    requires sorter.Present() && StrictOrder(sorter.sort.value)
    ensures !sorter.Compare(x, x)
    ensures sorter.Compare(x, y) && sorter.Compare(y, z) ==> sorter.Compare(x, z)
    ensures x.view == y.view ==> sorter.Compare(x, z) == sorter.Compare(y, z) && sorter.Compare(z, x) == sorter.Compare(z, y)
  {
    var less := sorter.sort.value;
    assert !less(x.view, x.view);
    if less(x.view, y.view) && less(y.view, z.view) {
      assert less(x.view, z.view);
    }
  }

  function Swap(s: seq<Entry>, i: nat, j: nat): (r: seq<Entry>)
    requires i < |s| && j < |s|
    ensures |r| == |s|
    ensures multiset(r) == multiset(s)
  {
    s[i := s[j]][j := s[i]]
  }

  /**
   * The position of a least element of s[j..] and s[m], scanning from j and
   * keeping the current candidate unless a later one ranks strictly before it.
   */
  function MinFrom(s: seq<Entry>, j: nat, m: nat, less: Less): (r: nat)
    requires m < j <= |s|
    ensures m <= r < |s|
    ensures r == m || j <= r
    decreases |s| - j
  {
    if j == |s| then m
    else MinFrom(s, j + 1, if less(s[j].view, s[m].view) then j else m, less)
  }

  lemma {:induction false} MinFromMinimal(s: seq<Entry>, lo: nat, j: nat, m: nat, less: Less)
    requires StrictOrder(less)
    requires lo <= m < j <= |s|
    requires forall t :: lo <= t < j ==> !less(s[t].view, s[m].view)
    ensures forall t :: lo <= t < |s| ==> !less(s[t].view, s[MinFrom(s, j, m, less)].view)
    decreases |s| - j
  {
    if j < |s| {
      if less(s[j].view, s[m].view) {
        assert forall t :: lo <= t < j ==> !less(s[t].view, s[j].view);
        MinFromMinimal(s, lo, j + 1, j, less);
      } else {
        MinFromMinimal(s, lo, j + 1, m, less);
      }
    }
  }

  /** Selection of positions i..k-1: each step swaps a least element of s[i..] into place i. */
  function SortFrom(s: seq<Entry>, i: nat, k: nat, less: Less): (r: seq<Entry>)
    requires i <= k <= |s|
    ensures |r| == |s|
    ensures multiset(r) == multiset(s)
    decreases k - i
  {
    if i == k then s
    else SortFrom(Swap(s, i, MinFrom(s, i + 1, i, less)), i + 1, k, less)
  }

  /**
   * The order std::partial_sort leaves behind for the first k positions. The
   * standard fixes what is guaranteed (see PartialSortedTopK), not the order
   * among equivalent elements; this model fixes one such order.
   */
  function PartialSorted(s: seq<Entry>, k: nat, less: Less): (r: seq<Entry>)
    requires k <= |s|
    ensures |r| == |s|
    ensures multiset(r) == multiset(s)
  {
    SortFrom(s, 0, k, less)
  }

  /** Every element placed before position i ranks no later than anything after it. */
  ghost predicate SettledBelow(s: seq<Entry>, i: nat, less: Less) {
    forall a, b :: 0 <= a < i && a < b < |s| ==> !less(s[b].view, s[a].view)
  }

  /**
   * Swapping a minimum of s[i..] into position i extends the settled prefix
   * by one.
   */
  lemma SwapSettles(s: seq<Entry>, i: nat, m: nat, less: Less)
    requires i <= m < |s|
    requires SettledBelow(s, i, less)
    requires forall t :: i <= t < |s| ==> !less(s[t].view, s[m].view)
    ensures SettledBelow(Swap(s, i, m), i + 1, less)
  {
    var s' := Swap(s, i, m);
    forall a, b | 0 <= a < i + 1 && a < b < |s'|
      ensures !less(s'[b].view, s'[a].view)
    {
      if a < i {
        assert s'[a] == s[a];
        if b == i {
          assert s'[b] == s[m];
        } else if b == m {
          assert s'[b] == s[i];
        } else {
          assert s'[b] == s[b];
        }
      } else {
        assert s'[a] == s[m];
        if b == m {
          assert s'[b] == s[i];
        } else {
          assert s'[b] == s[b];
        }
      }
    }
  }

  lemma {:induction false} SortFromSettles(s: seq<Entry>, i: nat, k: nat, less: Less)
    requires StrictOrder(less)
    requires i <= k <= |s|
    requires SettledBelow(s, i, less)
    ensures SettledBelow(SortFrom(s, i, k, less), k, less)
    decreases k - i
  {
    if i < k {
      var m := MinFrom(s, i + 1, i, less);
      var s' := Swap(s, i, m);
      assert SettledBelow(s', i + 1, less) by {
        MinFromMinimal(s, i, i + 1, i, less);
        SwapSettles(s, i, m, less);
      }
      assert SortFrom(s, i, k, less) == SortFrom(s', i + 1, k, less);
      SortFromSettles(s', i + 1, k, less);
    }
  }

  /**
   * The guarantees of std::partial_sort with a strict order: the result is a
   * permutation, its first k elements are in comparator order, and no element
   * at or after position k ranks before any of the first k.
   */
  lemma PartialSortedTopK(s: seq<Entry>, k: nat, less: Less)
    requires StrictOrder(less)
    requires k <= |s|
    ensures multiset(PartialSorted(s, k, less)) == multiset(s)
    ensures forall a, b :: 0 <= a < b < k ==>
      !less(PartialSorted(s, k, less)[b].view, PartialSorted(s, k, less)[a].view)
    ensures forall a, b :: 0 <= a < k <= b < |s| ==>
      !less(PartialSorted(s, k, less)[b].view, PartialSorted(s, k, less)[a].view)
  {
    SortFromSettles(s, 0, k, less);
  }

  /** The scan for a least element of a[lo..], as the partial sort performs it. */
  method SelectMin(a: array<Entry>, lo: nat, sorter: Sorter) returns (m: nat)
    requires lo < a.Length && sorter.Present()
    ensures m == MinFrom(a[..], lo + 1, lo, sorter.sort.value)
  {
    m := lo;
    var j := lo + 1;
    while j < a.Length
      invariant m < j <= a.Length
      invariant MinFrom(a[..], j, m, sorter.sort.value) == MinFrom(a[..], lo + 1, lo, sorter.sort.value)
    {
      if sorter.Compare(a[j], a[m]) {
        m := j;
      }
      j := j + 1;
    }
  }

  /**
   * Reorders a in place, comparing entries with the sorter, so that it holds
   * PartialSorted of its previous contents.
   */
  method PartialSort(a: array<Entry>, k: nat, sorter: Sorter)
    requires k <= a.Length && sorter.Present()
    modifies a
    ensures a[..] == PartialSorted(old(a[..]), k, sorter.sort.value)
  {
    var i := 0;
    while i < k
      invariant i <= k
      invariant SortFrom(a[..], i, k, sorter.sort.value) == PartialSorted(old(a[..]), k, sorter.sort.value)
    {
      var m := SelectMin(a, i, sorter);
      ghost var before := a[..];
      a[i], a[m] := a[m], a[i];
      assert a[..] == Swap(before, i, m);
      i := i + 1;
    }
  }
}

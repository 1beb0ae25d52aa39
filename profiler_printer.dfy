/**
 * The profiler report printer (ProfilerPrinter in src/profiler/profiler_printer.h):
 * a banner and header, the tree under the root printed parent-before-children
 * with each node's children cut to a per-level count and, when a sorter is
 * present, partially sorted in place, and finally the root's own row.
 *
 * Output is a log of abstract lines. Text formatting by the stats table is
 * not modelled: a row is its sequence of cells.
 */
module ProfilerPrinter {
  import opened Wrappers
  import opened ProfilerSorter

  /** One cell of a row, in the order the printer streams them into the table. */
  datatype Cell =
    | Label(indent: nat, rank: nat)   // `indent` spaces followed by the decimal rank
    | Text(text: string)
    | Number(value: int)
    | Columns(view: View)             // the caller-supplied metric columns of a view
    | PctCaller(view: View)           // the view's percentage of its caller
    | PctOf(view: View, total: Stats) // the view's percentage of the root's stats

  /** One logged message: the banner with the header, or one table row. */
  datatype LogLine = Heading(text: string) | Row(cells: seq<Cell>)

  // ----- decimal rendering of the count in the banner -----

  function Digit(d: nat): (c: char)
    requires d < 10
    ensures '0' <= c <= '9'
  {
    "0123456789"[d]
  }

  /** The decimal digits of the count, as streamed into the banner (src/profiler/profiler_printer.h:79). */
  function Decimal(n: nat): (r: string)
    ensures 1 <= |r|
    ensures forall i :: 0 <= i < |r| ==> '0' <= r[i] <= '9'
  {
    if n < 10 then [Digit(n)] else Decimal(n / 10) + [Digit(n % 10)]
  }

  /** Reads a string of decimal digits back as a number. */
  function DecimalValue(s: string): nat
    requires forall i :: 0 <= i < |s| ==> '0' <= s[i] <= '9'
  {
    if s == [] then 0
    else DecimalValue(s[..|s| - 1]) * 10 + (s[|s| - 1] as int - '0' as int)
  }

  lemma {:induction false} DecimalRoundTrip(n: nat)
    ensures DecimalValue(Decimal(n)) == n
  {
    var r := Decimal(n);
    if n >= 10 {
      DecimalRoundTrip(n / 10);
      assert r[..|r| - 1] == Decimal(n / 10);
    }
  }

  // ----- the banner -----

  lemma MiddleSlice<T>(a: seq<T>, b: seq<T>, c: seq<T>)
    ensures (a + b + c)[..|a|] == a && (a + b + c)[|a|..|a| + |b|] == b
  {
  }

  /** Banner text: title, the row-count policy, the sorter's name if present, ")\n". */
  function Banner(title: string, count: nat, sorter: Sorter): (r: string)
    ensures |title| + 7 <= |r| && (count > 0 ==> |title| + 11 <= |r|)
    ensures r[..|title|] == title
    ensures count == 0 ==> r[|title|..|title| + 5] == " (all"
    ensures count > 0 ==> r[|title|..|title| + 8] == " (worst "
    ensures r[|r| - 2..] == ")\n"
  {
    var policy := if count > 0 then " (worst " + Decimal(count) else " (all";
    var named := if sorter.Present() then ", sorted by " + sorter.name else "";
    var r := title + policy + named + ")\n";
    MiddleSlice(title, policy, named + ")\n");
    assert r == title + policy + (named + ")\n");
    assert count > 0 ==> policy[..8] == " (worst ";
    r
  }

  /** The count printed in a "worst" banner reads back as the count itself. */
  lemma BannerShowsCount(title: string, count: nat, sorter: Sorter)
    requires count > 0
    ensures var b := Banner(title, count, sorter);
            var d := Decimal(count);
            && |title| + 8 + |d| <= |b|
            && b[|title| + 8..|title| + 8 + |d|] == d
            && DecimalValue(d) == count
  {
    var b := Banner(title, count, sorter);
    var d := Decimal(count);
    var rest := (if sorter.Present() then ", sorted by " + sorter.name else "") + ")\n";
    assert |title| + 8 + |d| <= |b| && b[|title| + 8..|title| + 8 + |d|] == d by {
      assert b == (title + " (worst ") + d + rest;
      MiddleSlice(title + " (worst ", d, rest);
    }
    DecimalRoundTrip(count);
  }

  /** The banner carries ", sorted by " and the sorter's name right before ")\n" when the sorter is present. */
  lemma BannerNamesSorter(title: string, count: nat, sorter: Sorter)
    requires sorter.Present()
    ensures var b := Banner(title, count, sorter);
            var tail := ", sorted by " + sorter.name + ")\n";
            |tail| <= |b| && b[|b| - |tail|..] == tail
  {
    var b := Banner(title, count, sorter);
    var tail := ", sorted by " + sorter.name + ")\n";
    var head := title + (if count > 0 then " (worst " + Decimal(count) else " (all");
    assert b == head + tail;
  }

  /** Without a sorter the banner is the title, the policy and ")\n", nothing else. */
  lemma BannerWithoutSorter(title: string, count: nat, sorter: Sorter)
    requires !sorter.Present()
    ensures count == 0 ==> Banner(title, count, sorter) == title + " (all)\n"
    ensures count > 0 ==> Banner(title, count, sorter) == title + " (worst " + Decimal(count) + ")\n"
  {
  }

  // ----- one row -----

  /** The row print_row emits for `cur` at `layer` with 1-based rank `num`. */
  function RowOf(root: Entry, cur: Entry, layer: nat, num: nat): (line: LogLine)
    ensures line.Row? && |line.cells| == 6 && line.cells[3] == Columns(cur.view)
  {
    if root.id == cur.id then
      Row([Text("--"), Text(root.view.name), Text("--"), Columns(cur.view), Text("--"), Text("--")])
    else
      Row([Label(layer, num), Text(cur.view.name), Number(layer), Columns(cur.view),
           PctCaller(cur.view), PctOf(cur.view, root.view.stats)])
  }

  /** A row for the root itself: marked name and placeholder percentages. */
  predicate IsRootRow(line: LogLine) {
    line.Row? && |line.cells| == 6 && line.cells[0] == Text("--") && line.cells[2] == Text("--")
      && line.cells[4] == Text("--") && line.cells[5] == Text("--")
  }

  /** A row for a non-root entry printed at `layer`. */
  predicate IsEntryRow(line: LogLine, layer: nat) {
    line.Row? && |line.cells| == 6 && line.cells[0].Label? && line.cells[0].indent == layer
      && line.cells[2] == Number(layer) && line.cells[3].Columns?
  }

  lemma RowShapes(root: Entry, cur: Entry, layer: nat, num: nat)
    ensures root.id == cur.id ==>
              (IsRootRow(RowOf(root, cur, layer, num)) && RowOf(root, cur, layer, num).cells[1] == Text(root.view.name))
    ensures root.id != cur.id ==>
              (&& IsEntryRow(RowOf(root, cur, layer, num), layer)
               && !IsRootRow(RowOf(root, cur, layer, num))
               && RowOf(root, cur, layer, num).cells[0].rank == num
               && RowOf(root, cur, layer, num).cells[1] == Text(cur.view.name)
               && RowOf(root, cur, layer, num).cells[4] == PctCaller(cur.view)
               && RowOf(root, cur, layer, num).cells[5] == PctOf(cur.view, root.view.stats))
  {
  }

  // ----- the recursive body of the report -----

  /**
   * Rows printed per level: all children when count is 0 or exceeds their
   * number, otherwise count.
   */
  function Clamp(count: nat, n: nat): (k: nat)
    ensures k <= n
    ensures count == 0 ==> k == n
    ensures k < n ==> k == count
    ensures 0 < count <= n ==> k == count
  {
    if count == 0 || count > n then n else count
  }

  /** The children after the optional top-k reordering. */
  function Arrange(sorter: Sorter, es: seq<Entry>, k: nat): (r: seq<Entry>)
    requires k <= |es|
    ensures |r| == |es| && multiset(r) == multiset(es)
  {
    if sorter.Present() then PartialSorted(es, k, sorter.sort.value) else es
  }

  datatype Printed = Printed(entry: Entry, rows: seq<LogLine>)

  /**
   * print_children at `cur`: the updated node and the rows logged. With
   * `clamped` the recursive calls receive the clamped count, as the code
   * does; without it they receive the caller's count.
   */
  function Children(sorter: Sorter, root: Entry, cur: Entry, layer: nat, count: nat, clamped: bool): (p: Printed)
    ensures p.entry.id == cur.id && p.entry.view == cur.view
    decreases cur, 1
  {
    var k := Clamp(count, |cur.children|);
    var ordered := Arrange(sorter, cur.children, k);
    var subs := Subtrees(sorter, root, cur, ordered, k, layer, if clamped then k else count, clamped);
    Printed(Entry(cur.id, cur.view, EntriesOf(subs) + ordered[k..]), RowsUpTo(root, ordered, subs, layer, k))
  }

  /** What printing does below each of the first k reordered children. */
  function Subtrees(sorter: Sorter, root: Entry, cur: Entry, ordered: seq<Entry>, k: nat,
                    layer: nat, pass: nat, clamped: bool): (subs: seq<Printed>)
    requires k <= |ordered| && multiset(ordered) == multiset(cur.children)
    ensures |subs| == k
    decreases cur, 0
  {
    seq(k, j requires 0 <= j < k =>
      assert ordered[j] in multiset(ordered);
      Children(sorter, root, ordered[j], layer + 1, pass, clamped))
  }

  function EntriesOf(subs: seq<Printed>): (es: seq<Entry>)
    ensures |es| == |subs| && forall j :: 0 <= j < |subs| ==> es[j] == subs[j].entry
  {
    seq(|subs|, j requires 0 <= j < |subs| => subs[j].entry)
  }

  /** The rows of the first n iterations: each child's row, then its subtree's rows. */
  function RowsUpTo(root: Entry, ordered: seq<Entry>, subs: seq<Printed>, layer: nat, n: nat): seq<LogLine>
    requires n <= |subs| <= |ordered|
  {
    if n == 0 then []
    else RowsUpTo(root, ordered, subs, layer, n - 1) + [RowOf(root, ordered[n - 1], layer + 1, n)] + subs[n - 1].rows
  }

  lemma SubtreeAt(sorter: Sorter, root: Entry, cur: Entry, ordered: seq<Entry>, k: nat, layer: nat, j: nat)
    requires j < k <= |ordered| && multiset(ordered) == multiset(cur.children)
    ensures Subtrees(sorter, root, cur, ordered, k, layer, k, true)[j]
              == Children(sorter, root, ordered[j], layer + 1, k, true)
  {
  }

  lemma RowsUpToStep(root: Entry, ordered: seq<Entry>, subs: seq<Printed>, layer: nat, n: nat)
    requires n < |subs| <= |ordered|
    ensures RowsUpTo(root, ordered, subs, layer, n + 1)
              == RowsUpTo(root, ordered, subs, layer, n) + [RowOf(root, ordered[n], layer + 1, n + 1)] + subs[n].rows
  {
  }

  lemma AppendAssoc<T>(a: seq<T>, b: seq<T>, c: seq<T>, d: seq<T>)
    ensures a + b + c + d == a + (b + c + d)
  {
  }

  /** Printing the j-th reordered child, with the clamped count k passed down, yields subs[j]. */
  ghost predicate Yields(sorter: Sorter, root: Entry, ordered: seq<Entry>, subs: seq<Printed>, layer: nat, k: nat, j: nat)
  {
    j < |ordered| && j < |subs| && subs[j] == Children(sorter, root, ordered[j], layer + 1, k, true)
  }

  lemma ChildrenUnfold(sorter: Sorter, root: Entry, cur: Entry, layer: nat, count: nat)
    ensures var k := Clamp(count, |cur.children|);
            var ordered := Arrange(sorter, cur.children, k);
            var subs := Subtrees(sorter, root, cur, ordered, k, layer, k, true);
            Children(sorter, root, cur, layer, count, true)
              == Printed(Entry(cur.id, cur.view, EntriesOf(subs) + ordered[k..]), RowsUpTo(root, ordered, subs, layer, k))
  {
  }

  /**
   * The whole report print_table logs: banner and header, the tree printed
   * with the clamped count passed down, the root row last.
   */
  function Report(sorter: Sorter, title: string, root: Entry, count: nat): (r: seq<LogLine>)
    ensures 2 <= |r| && r[0] == Heading(Banner(title, count, sorter)) && r[|r| - 1] == RowOf(root, root, 0, 0)
  {
    [Heading(Banner(title, count, sorter))]
    + Children(sorter, root, root, 0, count, true).rows
    + [RowOf(root, root, 0, 0)]
  }

  // ----- properties of the printed tree -----

  /** Without a sorter nothing is reordered: the tree comes back unchanged. */
  lemma {:induction false} UnsortedUnchanged(sorter: Sorter, root: Entry, cur: Entry, layer: nat, count: nat, clamped: bool)
    requires !sorter.Present()
    ensures Children(sorter, root, cur, layer, count, clamped).entry == cur
    decreases cur
  {
    var k := Clamp(count, |cur.children|);
    var subs := Subtrees(sorter, root, cur, cur.children, k, layer, if clamped then k else count, clamped);
    forall j | 0 <= j < k
      ensures subs[j].entry == cur.children[j]
    {
      UnsortedUnchanged(sorter, root, cur.children[j], layer + 1, if clamped then k else count, clamped);
    }
    assert EntriesOf(subs) == cur.children[..k];
    assert cur.children[..k] + cur.children[k..] == cur.children;
  }

  /** Printing keeps every reordered child's identity and view; only the order below it changes. */
  lemma ChildrenKeepViews(sorter: Sorter, root: Entry, cur: Entry, layer: nat, count: nat, clamped: bool)
    ensures var c := Children(sorter, root, cur, layer, count, clamped).entry.children;
            var ordered := Arrange(sorter, cur.children, Clamp(count, |cur.children|));
            && |c| == |ordered|
            && forall j :: 0 <= j < |c| ==> c[j].id == ordered[j].id && c[j].view == ordered[j].view
  {
    var k := Clamp(count, |cur.children|);
    var ordered := Arrange(sorter, cur.children, k);
    var subs := Subtrees(sorter, root, cur, ordered, k, layer, if clamped then k else count, clamped);
    var c := EntriesOf(subs) + ordered[k..];
    forall j | 0 <= j < |ordered|
      ensures c[j].id == ordered[j].id && c[j].view == ordered[j].view
    {
      if j < k {
        assert c[j] == subs[j].entry;
      } else {
        assert c[j] == ordered[j];
      }
    }
  }

  /**
   * With a sorter, the node's children afterwards are, position by position,
   * the nodes of a permutation of its previous children (same identity and
   * view; only their own subtrees may be reordered); the first k are in
   * comparator order, and none of the rest ranks before any of the first k.
   */
  lemma ChildrenTopK(sorter: Sorter, root: Entry, cur: Entry, layer: nat, count: nat, clamped: bool)
    requires sorter.Present() && StrictOrder(sorter.sort.value)
    ensures var c := Children(sorter, root, cur, layer, count, clamped).entry.children;
            var k := Clamp(count, |cur.children|);
            var ordered := Arrange(sorter, cur.children, k);
            && multiset(ordered) == multiset(cur.children)
            && |c| == |ordered|
            && (forall j :: 0 <= j < |c| ==> c[j].id == ordered[j].id && c[j].view == ordered[j].view)
            && (forall a, b :: 0 <= a < b < k ==> !sorter.Compare(c[b], c[a]))
            && (forall a, b :: 0 <= a < k <= b < |c| ==> !sorter.Compare(c[b], c[a]))
  {
    var k := Clamp(count, |cur.children|);
    PartialSortedTopK(cur.children, k, sorter.sort.value);
    ChildrenKeepViews(sorter, root, cur, layer, count, clamped);
  }

  /** No node strictly below `e` has the root's identity. */
  ghost predicate RootAbsent(rid: nat, e: Entry)
    decreases e
  {
    forall c | c in e.children :: c.id != rid && RootAbsent(rid, c)
  }

  /** A non-root row at some layer deeper than `layer`. */
  predicate RowBelow(line: LogLine, layer: nat) {
    line.Row? && |line.cells| == 6 && line.cells[0].Label? && line.cells[0].indent > layer
      && IsEntryRow(line, line.cells[0].indent)
  }

  ghost predicate AllBelow(lines: seq<LogLine>, layer: nat) {
    forall line | line in lines :: RowBelow(line, layer)
  }

  lemma {:induction false} RowsUpToBelow(root: Entry, ordered: seq<Entry>, subs: seq<Printed>, layer: nat, n: nat)
    requires n <= |subs| <= |ordered|
    requires forall j :: 0 <= j < n ==> ordered[j].id != root.id && AllBelow(subs[j].rows, layer + 1)
    ensures AllBelow(RowsUpTo(root, ordered, subs, layer, n), layer)
  {
    if n > 0 {
      RowsUpToBelow(root, ordered, subs, layer, n - 1);
      var row := RowOf(root, ordered[n - 1], layer + 1, n);
      RowShapes(root, ordered[n - 1], layer + 1, n);
      var before := RowsUpTo(root, ordered, subs, layer, n - 1);
      forall line | line in before + [row] + subs[n - 1].rows
        ensures RowBelow(line, layer)
      {
        if line in subs[n - 1].rows {
          assert RowBelow(line, layer + 1);
        }
      }
    }
  }

  /** Every row printed under a node is a non-root row deeper than the node. */
  lemma {:induction false} RowsBelow(sorter: Sorter, root: Entry, cur: Entry, layer: nat, count: nat, clamped: bool)
    requires RootAbsent(root.id, cur)
    ensures AllBelow(Children(sorter, root, cur, layer, count, clamped).rows, layer)
    decreases cur
  {
    var k := Clamp(count, |cur.children|);
    var ordered := Arrange(sorter, cur.children, k);
    var pass := if clamped then k else count;
    var subs := Subtrees(sorter, root, cur, ordered, k, layer, pass, clamped);
    forall j | 0 <= j < k
      ensures ordered[j].id != root.id && AllBelow(subs[j].rows, layer + 1)
    {
      assert ordered[j] in multiset(cur.children);
      RowsBelow(sorter, root, ordered[j], layer + 1, pass, clamped);
    }
    RowsUpToBelow(root, ordered, subs, layer, k);
  }

  /** The (rank, view) pairs of the rows printed at exactly `layer`, in log order. */
  function RankedAt(lines: seq<LogLine>, layer: nat): seq<(nat, View)>
  {
    if lines == [] then []
    else
      (if IsEntryRow(lines[0], layer) then [(lines[0].cells[0].rank, lines[0].cells[3].view)] else [])
      + RankedAt(lines[1..], layer)
  }

  lemma {:induction false} RankedAtConcat(a: seq<LogLine>, b: seq<LogLine>, layer: nat)
    ensures RankedAt(a + b, layer) == RankedAt(a, layer) + RankedAt(b, layer)
  {
    if a != [] {
      assert (a + b)[0] == a[0];
      assert (a + b)[1..] == a[1..] + b;
      RankedAtConcat(a[1..], b, layer);
    } else {
      assert a + b == b;
    }
  }

  lemma {:induction false} RankedAtNone(lines: seq<LogLine>, layer: nat)
    requires AllBelow(lines, layer)
    ensures RankedAt(lines, layer) == []
  {
    if lines != [] {
      assert lines[0] in lines;
      RankedAtNone(lines[1..], layer);
    }
  }

  lemma {:induction false} RowsUpToRanked(root: Entry, ordered: seq<Entry>, subs: seq<Printed>, layer: nat, n: nat)
    requires n <= |subs| <= |ordered|
    requires forall j :: 0 <= j < n ==> ordered[j].id != root.id && AllBelow(subs[j].rows, layer + 1)
    ensures RankedAt(RowsUpTo(root, ordered, subs, layer, n), layer + 1)
              == seq(n, j requires 0 <= j < n => (j + 1, ordered[j].view))
  {
    if n > 0 {
      RowsUpToRanked(root, ordered, subs, layer, n - 1);
      var before := RowsUpTo(root, ordered, subs, layer, n - 1);
      var row := RowOf(root, ordered[n - 1], layer + 1, n);
      var prev := seq(n - 1, j requires 0 <= j < n - 1 => (j + 1, ordered[j].view));
      assert RankedAt(before, layer + 1) == prev;
      assert RankedAt([row], layer + 1) == [(n, ordered[n - 1].view)] by {
        RowShapes(root, ordered[n - 1], layer + 1, n);
        assert [row][1..] == [];
      }
      assert RankedAt(before + [row] + subs[n - 1].rows, layer + 1) == prev + [(n, ordered[n - 1].view)] by {
        RankedAtNone(subs[n - 1].rows, layer + 1);
        RankedAtConcat(before + [row], subs[n - 1].rows, layer + 1);
        RankedAtConcat(before, [row], layer + 1);
      }
      assert prev + [(n, ordered[n - 1].view)] == seq(n, j requires 0 <= j < n => (j + 1, ordered[j].view));
    }
  }

  /**
   * The rows at the layer directly below a node are exactly its first k
   * reordered children, ranked 1..k in position order.
   */
  lemma LevelRows(sorter: Sorter, root: Entry, cur: Entry, layer: nat, count: nat, clamped: bool)
    requires RootAbsent(root.id, cur)
    ensures var k := Clamp(count, |cur.children|);
            var ordered := Arrange(sorter, cur.children, k);
            RankedAt(Children(sorter, root, cur, layer, count, clamped).rows, layer + 1)
              == seq(k, j requires 0 <= j < k => (j + 1, ordered[j].view))
  {
    var k := Clamp(count, |cur.children|);
    var ordered := Arrange(sorter, cur.children, k);
    var pass := if clamped then k else count;
    var subs := Subtrees(sorter, root, cur, ordered, k, layer, pass, clamped);
    forall j | 0 <= j < k
      ensures ordered[j].id != root.id && AllBelow(subs[j].rows, layer + 1)
    {
      assert ordered[j] in multiset(cur.children);
      RowsBelow(sorter, root, ordered[j], layer + 1, pass, clamped);
    }
    RowsUpToRanked(root, ordered, subs, layer, k);
  }

  /**
   * The report opens with the banner, every line in between is a non-root
   * row, and the root's row comes exactly once, last.
   */
  lemma ReportShape(sorter: Sorter, title: string, root: Entry, count: nat)
    requires RootAbsent(root.id, root)
    ensures var r := Report(sorter, title, root, count);
            && 2 <= |r|
            && r[0] == Heading(Banner(title, count, sorter))
            && IsRootRow(r[|r| - 1]) && r[|r| - 1].cells[1] == Text(root.view.name)
            && r[|r| - 1].cells[3] == Columns(root.view)
            && (forall j :: 0 < j < |r| - 1 ==> RowBelow(r[j], 0) && !IsRootRow(r[j]))
  {
    var r := Report(sorter, title, root, count);
    var body := Children(sorter, root, root, 0, count, true).rows;
    RowsBelow(sorter, root, root, 0, count, true);
    RowShapes(root, root, 0, 0);
    assert forall j :: 0 < j < |r| - 1 ==> r[j] == body[j - 1] && body[j - 1] in body;
  }

  // ----- how many rows are printed -----

  function Sum(s: seq<nat>): nat
  {
    if s == [] then 0 else s[0] + Sum(s[1..])
  }

  /** The number of nodes of a tree, the node itself included. */
  function Size(e: Entry): nat
    decreases e
  {
    1 + Sum(seq(|e.children|, i requires 0 <= i < |e.children| => Size(e.children[i])))
  }

  function Sizes(es: seq<Entry>): (r: seq<nat>)
    ensures |r| == |es| && forall i :: 0 <= i < |es| ==> r[i] == Size(es[i])
  {
    seq(|es|, i requires 0 <= i < |es| => Size(es[i]))
  }

  lemma SizeUnfold(e: Entry)
    ensures Size(e) == 1 + Sum(Sizes(e.children))
  {
    assert Sizes(e.children) == seq(|e.children|, i requires 0 <= i < |e.children| => Size(e.children[i]));
  }

  lemma {:induction false} SumConcat(a: seq<nat>, b: seq<nat>)
    ensures Sum(a + b) == Sum(a) + Sum(b)
  {
    if a != [] {
      assert (a + b)[0] == a[0];
      assert (a + b)[1..] == a[1..] + b;
      SumConcat(a[1..], b);
    } else {
      assert a + b == b;
    }
  }

  lemma SizesConcat(a: seq<Entry>, b: seq<Entry>)
    ensures Sizes(a + b) == Sizes(a) + Sizes(b)
  {
  }

  lemma {:induction false} RemoveAtMultiset(t: seq<Entry>, j: nat)
    requires j < |t|
    ensures multiset(t[..j] + t[j + 1..]) == multiset(t) - multiset{t[j]}
  {
    assert t == t[..j] + [t[j]] + t[j + 1..];
  }

  lemma SizesRemoveAt(t: seq<Entry>, j: nat)
    requires j < |t|
    ensures multiset(t[..j] + t[j + 1..]) == multiset(t) - multiset{t[j]}
    ensures Sum(Sizes(t)) == Size(t[j]) + Sum(Sizes(t[..j] + t[j + 1..]))
  {
    RemoveAtMultiset(t, j);
    var x := t[j];
    var front := Sizes(t[..j]);
    var back := Sizes(t[j + 1..]);
    assert t == t[..j] + [x] + t[j + 1..];
    SizesConcat(t[..j] + [x], t[j + 1..]);
    SizesConcat(t[..j], [x]);
    SizesConcat(t[..j], t[j + 1..]);
    assert Sizes([x]) == [Size(x)];
    SumConcat(front + [Size(x)], back);
    SumConcat(front, [Size(x)]);
    SumConcat(front, back);
  }

  lemma SizesHead(s: seq<Entry>)
    requires s != []
    ensures Sum(Sizes(s)) == Size(s[0]) + Sum(Sizes(s[1..]))
  {
    assert Sizes(s)[1..] == Sizes(s[1..]);
  }

  lemma MemberAt(t: seq<Entry>, x: Entry) returns (j: nat)
    requires x in multiset(t)
    ensures j < |t| && t[j] == x
  {
    assert x in t;
    j :| 0 <= j < |t| && t[j] == x;
  }

  /** Reordering siblings does not change how many nodes they hold. */
  lemma {:induction false} SizesPermutation(s: seq<Entry>, t: seq<Entry>)
    requires multiset(s) == multiset(t)
    ensures Sum(Sizes(s)) == Sum(Sizes(t))
    decreases |s|
  {
    if s == [] {
      assert t == [];
    } else {
      var x := s[0];
      var j := MemberAt(t, x);
      SizesRemoveAt(t, j);
      assert s == [x] + s[1..];
      assert multiset(s[1..]) == multiset(s) - multiset{x};
      SizesPermutation(s[1..], t[..j] + t[j + 1..]);
      SizesHead(s);
    }
  }

  lemma {:induction false} RowsUpToCount(root: Entry, ordered: seq<Entry>, subs: seq<Printed>, layer: nat, n: nat)
    requires n <= |subs| <= |ordered|
    requires forall j :: 0 <= j < n ==> |subs[j].rows| + 1 == Size(ordered[j])
    ensures |RowsUpTo(root, ordered, subs, layer, n)| == Sum(Sizes(ordered[..n]))
  {
    if n > 0 {
      RowsUpToCount(root, ordered, subs, layer, n - 1);
      assert |subs[n - 1].rows| + 1 == Size(ordered[n - 1]);
      assert Sum(Sizes(ordered[..n])) == Sum(Sizes(ordered[..n - 1])) + Size(ordered[n - 1]) by {
        assert ordered[..n] == ordered[..n - 1] + [ordered[n - 1]];
        assert Sizes(ordered[..n]) == Sizes(ordered[..n - 1]) + [Size(ordered[n - 1])];
        SumConcat(Sizes(ordered[..n - 1]), [Size(ordered[n - 1])]);
      }
    }
  }

  /**
   * Passing the caller's count down instead of the clamped one, a count of 0
   * prints as many rows as there are nodes below `cur`.
   */
  lemma {:induction false} UnclampedPrintsAll(sorter: Sorter, root: Entry, cur: Entry, layer: nat)
    ensures |Children(sorter, root, cur, layer, 0, false).rows| + 1 == Size(cur)
    decreases cur
  {
    var n := |cur.children|;
    var ordered := Arrange(sorter, cur.children, n);
    var subs := Subtrees(sorter, root, cur, ordered, n, layer, 0, false);
    forall j | 0 <= j < n
      ensures |subs[j].rows| + 1 == Size(ordered[j])
    {
      assert ordered[j] in multiset(cur.children);
      UnclampedPrintsAll(sorter, root, ordered[j], layer + 1);
    }
    RowsUpToCount(root, ordered, subs, layer, n);
    assert ordered[..n] == ordered;
    SizesPermutation(ordered, cur.children);
    SizeUnfold(cur);
  }

  // ----- which nodes are printed -----

  /** The views a log shows in its rows' metric columns, with multiplicity. */
  function Shown(lines: seq<LogLine>): multiset<View>
  {
    if lines == [] then multiset{}
    else
      (if lines[0].Row? && |lines[0].cells| > 3 && lines[0].cells[3].Columns?
       then multiset{lines[0].cells[3].view} else multiset{})
      + Shown(lines[1..])
  }

  lemma {:induction false} ShownConcat(a: seq<LogLine>, b: seq<LogLine>)
    ensures Shown(a + b) == Shown(a) + Shown(b)
  {
    if a != [] {
      assert (a + b)[0] == a[0];
      assert (a + b)[1..] == a[1..] + b;
      ShownConcat(a[1..], b);
    } else {
      assert a + b == b;
    }
  }

  function Union(s: seq<multiset<View>>): multiset<View>
  {
    if s == [] then multiset{} else s[0] + Union(s[1..])
  }

  /** The views of a node and of every node below it, with multiplicity. */
  function Views(e: Entry): multiset<View>
    decreases e
  {
    multiset{e.view} + Union(seq(|e.children|, i requires 0 <= i < |e.children| => Views(e.children[i])))
  }

  function ViewsOf(es: seq<Entry>): (r: seq<multiset<View>>)
    ensures |r| == |es| && forall i :: 0 <= i < |es| ==> r[i] == Views(es[i])
  {
    seq(|es|, i requires 0 <= i < |es| => Views(es[i]))
  }

  lemma ViewsUnfold(e: Entry)
    ensures Views(e) == multiset{e.view} + Union(ViewsOf(e.children))
  {
    assert ViewsOf(e.children) == seq(|e.children|, i requires 0 <= i < |e.children| => Views(e.children[i]));
  }

  lemma {:induction false} UnionConcat(a: seq<multiset<View>>, b: seq<multiset<View>>)
    ensures Union(a + b) == Union(a) + Union(b)
  {
    if a != [] {
      assert (a + b)[0] == a[0];
      assert (a + b)[1..] == a[1..] + b;
      UnionConcat(a[1..], b);
    } else {
      assert a + b == b;
    }
  }

  lemma ViewsOfConcat(a: seq<Entry>, b: seq<Entry>)
    ensures ViewsOf(a + b) == ViewsOf(a) + ViewsOf(b)
  {
  }

  lemma ShuffleUnion(a: multiset<View>, b: multiset<View>, c: multiset<View>)
    ensures a + b + c == b + (a + c)
  {
  }

  lemma AssocUnion(a: multiset<View>, b: multiset<View>, c: multiset<View>)
    ensures a + b + c == a + (b + c)
  {
  }

  lemma UnionSingle(v: multiset<View>)
    ensures Union([v]) == v
  {
    assert [v][1..] == [];
  }

  lemma UnionRemoveAt(front: seq<multiset<View>>, v: multiset<View>, back: seq<multiset<View>>)
    ensures Union(front + [v] + back) == v + Union(front + back)
  {
    assert Union(front + [v] + back) == Union(front) + v + Union(back) by {
      UnionConcat(front + [v], back);
      UnionConcat(front, [v]);
      UnionSingle(v);
    }
    UnionConcat(front, back);
    ShuffleUnion(Union(front), v, Union(back));
  }

  lemma ViewsOfSplit(t: seq<Entry>, j: nat)
    requires j < |t|
    ensures ViewsOf(t) == ViewsOf(t[..j]) + [Views(t[j])] + ViewsOf(t[j + 1..])
  {
    assert t == t[..j] + [t[j]] + t[j + 1..];
    ViewsOfConcat(t[..j] + [t[j]], t[j + 1..]);
    ViewsOfConcat(t[..j], [t[j]]);
  }

  lemma ViewsRemoveAt(t: seq<Entry>, j: nat)
    requires j < |t|
    ensures Union(ViewsOf(t)) == Views(t[j]) + Union(ViewsOf(t[..j] + t[j + 1..]))
  {
    ViewsOfSplit(t, j);
    ViewsOfConcat(t[..j], t[j + 1..]);
    UnionRemoveAt(ViewsOf(t[..j]), Views(t[j]), ViewsOf(t[j + 1..]));
  }

  lemma ViewsHead(s: seq<Entry>)
    requires s != []
    ensures Union(ViewsOf(s)) == Views(s[0]) + Union(ViewsOf(s[1..]))
  {
    assert ViewsOf(s)[1..] == ViewsOf(s[1..]);
  }

  /** Reordering siblings does not change which views they hold. */
  lemma {:induction false} ViewsPermutation(s: seq<Entry>, t: seq<Entry>)
    requires multiset(s) == multiset(t)
    ensures Union(ViewsOf(s)) == Union(ViewsOf(t))
    decreases |s|
  {
    if s == [] {
      assert t == [];
    } else {
      var x := s[0];
      var j := MemberAt(t, x);
      var rest := t[..j] + t[j + 1..];
      assert multiset(s[1..]) == multiset(rest) by {
        RemoveAtMultiset(t, j);
        assert s == [x] + s[1..];
      }
      ViewsPermutation(s[1..], rest);
      ViewsHead(s);
      ViewsRemoveAt(t, j);
    }
  }

  lemma ShownStep(root: Entry, x: Entry, layer: nat, num: nat, before: seq<LogLine>, after: seq<LogLine>)
    ensures Shown(before + [RowOf(root, x, layer, num)] + after) == Shown(before) + (multiset{x.view} + Shown(after))
  {
    var row := RowOf(root, x, layer, num);
    assert Shown([row]) == multiset{x.view} by { assert [row][1..] == []; }
    ShownConcat(before + [row], after);
    ShownConcat(before, [row]);
    AssocUnion(Shown(before), multiset{x.view}, Shown(after));
  }

  lemma ViewsSnoc(s: seq<Entry>, n: nat)
    requires 0 < n <= |s|
    ensures Union(ViewsOf(s[..n])) == Union(ViewsOf(s[..n - 1])) + Views(s[n - 1])
  {
    var x := s[n - 1];
    assert s[..n] == s[..n - 1] + [x];
    ViewsOfConcat(s[..n - 1], [x]);
    assert ViewsOf([x]) == [Views(x)];
    UnionSingle(Views(x));
    UnionConcat(ViewsOf(s[..n - 1]), [Views(x)]);
  }

  /** The rows printed below `x` show, with `x`'s own view, exactly the views of its subtree. */
  ghost predicate ShowsSubtree(x: Entry, p: Printed)
  {
    multiset{x.view} + Shown(p.rows) == Views(x)
  }

  lemma {:induction false} RowsUpToShown(root: Entry, ordered: seq<Entry>, subs: seq<Printed>, layer: nat, n: nat)
    requires n <= |subs| <= |ordered|
    requires forall j :: 0 <= j < n ==> ShowsSubtree(ordered[j], subs[j])
    ensures Shown(RowsUpTo(root, ordered, subs, layer, n)) == Union(ViewsOf(ordered[..n]))
  {
    if n == 0 {
      assert ordered[..0] == [];
    } else {
      RowsUpToShown(root, ordered, subs, layer, n - 1);
      var x := ordered[n - 1];
      var before := RowsUpTo(root, ordered, subs, layer, n - 1);
      var after := subs[n - 1].rows;
      var prior := Union(ViewsOf(ordered[..n - 1]));
      var mine := multiset{x.view} + Shown(after);
      assert Shown(before) == prior;
      assert Shown(RowsUpTo(root, ordered, subs, layer, n)) == Shown(before) + mine by {
        assert RowsUpTo(root, ordered, subs, layer, n) == before + [RowOf(root, x, layer + 1, n)] + after;
        ShownStep(root, x, layer + 1, n, before, after);
      }
      assert Union(ViewsOf(ordered[..n])) == prior + Views(x) by { ViewsSnoc(ordered, n); }
      assert mine == Views(x) by { assert ShowsSubtree(x, subs[n - 1]); }
    }
  }

  /**
   * Passing the caller's count down, a count of 0 shows every node below
   * `cur` as often as it occurs there: the rows' views, together with
   * `cur`'s own, are exactly the views of the subtree.
   */
  lemma {:induction false} UnclampedShowsAll(sorter: Sorter, root: Entry, cur: Entry, layer: nat)
    ensures multiset{cur.view} + Shown(Children(sorter, root, cur, layer, 0, false).rows) == Views(cur)
    decreases cur
  {
    var n := |cur.children|;
    var ordered := Arrange(sorter, cur.children, n);
    var subs := Subtrees(sorter, root, cur, ordered, n, layer, 0, false);
    forall j | 0 <= j < n
      ensures ShowsSubtree(ordered[j], subs[j])
    {
      assert ordered[j] in multiset(cur.children);
      UnclampedShowsAll(sorter, root, ordered[j], layer + 1);
    }
    RowsUpToShown(root, ordered, subs, layer, n);
    assert ordered[..n] == ordered;
    ViewsPermutation(ordered, cur.children);
    ViewsUnfold(cur);
  }

  /**
   * As written, the clamped count reaches the grandchildren: under a root
   * with one child that has two children, a count of 0 prints two rows for
   * the three nodes below the root.
   */
  lemma ClampedCountHidesRows()
    ensures var b := Entry(2, View("b", Stats([])), []);
            var c := Entry(3, View("c", Stats([])), []);
            var a := Entry(1, View("a", Stats([])), [b, c]);
            var root := Entry(0, View("root", Stats([])), [a]);
            var none := Sorter("", None);
            && Size(root) == 4
            && |Children(none, root, root, 0, 0, true).rows| == 2
            && |Children(none, root, root, 0, 0, false).rows| == 3
  {
    var b := Entry(2, View("b", Stats([])), []);
    var c := Entry(3, View("c", Stats([])), []);
    var a := Entry(1, View("a", Stats([])), [b, c]);
    var root := Entry(0, View("root", Stats([])), [a]);
    var none := Sorter("", None);
    SizeUnfold(b);
    SizeUnfold(c);
    SizeUnfold(a);
    SizeUnfold(root);
    assert Sizes([]) == [];
    assert Sizes([b, c]) == [1, 1];
    assert Sum([1, 1]) == 2 by { assert [1, 1][1..] == [1]; }
    assert Sizes([a]) == [3];
    assert Sum([3]) == 3;
    var leafB := Children(none, root, b, 2, 1, true);
    assert leafB.rows == [];
    assert Arrange(none, [b, c], 1) == [b, c];
    var subsA := Subtrees(none, root, a, [b, c], 1, 1, 1, true);
    assert subsA[0] == leafB;
    assert Clamp(1, 2) == 1;
    assert RowsUpTo(root, [b, c], subsA, 1, 1) == [RowOf(root, b, 2, 1)];
    assert Children(none, root, a, 1, 1, true).rows == [RowOf(root, b, 2, 1)];
    assert Arrange(none, [a], 1) == [a];
    var subsRoot := Subtrees(none, root, root, [a], 1, 0, 1, true);
    assert subsRoot[0] == Children(none, root, a, 1, 1, true);
    assert Clamp(0, 1) == 1;
    assert RowsUpTo(root, [a], subsRoot, 0, 1) == [RowOf(root, a, 1, 1), RowOf(root, b, 2, 1)];
    assert Children(none, root, root, 0, 0, true).rows == [RowOf(root, a, 1, 1), RowOf(root, b, 2, 1)];
    UnclampedPrintsAll(none, root, root, 0);
  }

  /** The report print_table evidently intends: each level receives the caller's count. */
  function IntendedReport(sorter: Sorter, title: string, root: Entry, count: nat): (r: seq<LogLine>)
    ensures 2 <= |r| && r[0] == Heading(Banner(title, count, sorter)) && r[|r| - 1] == RowOf(root, root, 0, 0)
  {
    [Heading(Banner(title, count, sorter))]
    + Children(sorter, root, root, 0, count, false).rows
    + [RowOf(root, root, 0, 0)]
  }

  /**
   * The intended report with count 0 logs the banner and one row per node,
   * and its rows show every node of the tree as often as it occurs.
   */
  lemma ReportPrintsAll(sorter: Sorter, title: string, root: Entry)
    ensures |IntendedReport(sorter, title, root, 0)| == Size(root) + 1
    ensures Shown(IntendedReport(sorter, title, root, 0)) == Views(root)
  {
    UnclampedPrintsAll(sorter, root, root, 0);
    UnclampedShowsAll(sorter, root, root, 0);
    var head := [Heading(Banner(title, 0, sorter))];
    var rows := Children(sorter, root, root, 0, 0, false).rows;
    var last := [RowOf(root, root, 0, 0)];
    assert Shown(head) == multiset{} by { assert head[1..] == []; }
    assert Shown(last) == multiset{root.view} by { assert last[1..] == []; }
    ShownConcat(head + rows, last);
    ShownConcat(head, rows);
  }

  /** The report as print_table logs it leaves out a node of a four-node tree with count 0. */
  lemma ReportHidesRows()
    ensures var b := Entry(2, View("b", Stats([])), []);
            var c := Entry(3, View("c", Stats([])), []);
            var a := Entry(1, View("a", Stats([])), [b, c]);
            var root := Entry(0, View("root", Stats([])), [a]);
            var none := Sorter("", None);
            && |Report(none, "t", root, 0)| == 4
            && |IntendedReport(none, "t", root, 0)| == 5
  {
    ClampedCountHidesRows();
    var b := Entry(2, View("b", Stats([])), []);
    var c := Entry(3, View("c", Stats([])), []);
    var a := Entry(1, View("a", Stats([])), [b, c]);
    var root := Entry(0, View("root", Stats([])), [a]);
    ReportPrintsAll(Sorter("", None), "t", root);
  }

  // ----- the printer -----

  /**
   * ProfilerPrinter: holds the sorter and appends every message it logs to
   * `log`. The field list and the metric-column callback are not modelled
   * beyond the Columns cell.
   */
  class Printer {
    const sorter: Sorter
    var log: seq<LogLine>

    constructor (sorter: Sorter)
      ensures this.sorter == sorter && log == []
    {
      this.sorter := sorter;
      log := [];
    }

    /** print_table: logs Report(...) and returns the root with its subtrees reordered. */
    method PrintTable(title: string, root: Entry, count: nat) returns (printed: Entry)
      modifies this
      ensures log == old(log) + Report(sorter, title, root, count)
      ensures printed == Children(sorter, root, root, 0, count, true).entry
    {
      log := log + [Heading(Banner(title, count, sorter))];
      printed := PrintChildren(root, root, 0, count);
      PrintRow(root, printed, 0, 0);
    }

    /**
     * print_children: clamps the count, top-k reorders cur's children in
     * place, then for each of the first k prints its row and recurses into
     * it with the clamped count, which replaces it by its reordered version
     * (see ClampedCountHidesRows for what passing the clamped count costs).
     */
    method PrintChildren(root: Entry, cur: Entry, layer: nat, count: nat) returns (updated: Entry)
      modifies this
      ensures log == old(log) + Children(sorter, root, cur, layer, count, true).rows
      ensures updated == Children(sorter, root, cur, layer, count, true).entry
      decreases cur, 2
    {
      var n := |cur.children|;
      var k := count;
      if k == 0 || k > n {
        k := n;
      }
      var entries := new Entry[n](i requires 0 <= i < n => cur.children[i]);
      assert entries[..] == cur.children;
      if sorter.Present() {
        PartialSort(entries, k, sorter);
      }
      ghost var ordered := entries[..];
      assert ordered == Arrange(sorter, cur.children, k);
      ghost var subs := Subtrees(sorter, root, cur, ordered, k, layer, k, true);
      forall j | 0 <= j < k
        ensures Yields(sorter, root, ordered, subs, layer, k, j)
      {
        SubtreeAt(sorter, root, cur, ordered, k, layer, j);
      }
      forall j | 0 <= j < k
        ensures ordered[j] in cur.children
      {
        assert ordered[j] in multiset(ordered);
      }
      PrintSelected(root, cur, entries, ordered, subs, k, layer);
      ChildrenUnfold(sorter, root, cur, layer, count);
      updated := Entry(cur.id, cur.view, entries[..]);
    }

    /**
     * The loop of print_children over the first k reordered children;
     * `subs` is what printing each of them yields.
     */
    method PrintSelected(root: Entry, cur: Entry, entries: array<Entry>, ghost ordered: seq<Entry>,
                         ghost subs: seq<Printed>, k: nat, layer: nat)
      requires entries[..] == ordered && k <= |ordered| && |subs| == k
      requires forall j :: 0 <= j < k ==> ordered[j] in cur.children
      requires forall j :: 0 <= j < k ==> Yields(sorter, root, ordered, subs, layer, k, j)
      modifies this, entries
      ensures log == old(log) + RowsUpTo(root, ordered, subs, layer, k)
      ensures entries[..] == EntriesOf(subs) + ordered[k..]
      decreases cur, 1
    {
      var i := 0;
      while i < k
        invariant i <= k
        invariant forall j :: 0 <= j < i ==> entries[j] == subs[j].entry
        invariant forall j :: i <= j < entries.Length ==> entries[j] == ordered[j]
        invariant log == old(log) + RowsUpTo(root, ordered, subs, layer, i)
      {
        PrintAt(root, cur, entries, ordered, subs, i, k, layer, old(log));
        i := i + 1;
      }
      assert entries[..] == EntriesOf(subs) + ordered[k..];
    }

    /**
     * One iteration: the row of the child at position i (ranked i + 1), then
     * everything below it; the printed child is stored back in place.
     */
    method PrintAt(root: Entry, ghost cur: Entry, entries: array<Entry>, ghost ordered: seq<Entry>,
                   ghost subs: seq<Printed>, i: nat, k: nat, layer: nat, ghost base: seq<LogLine>)
      requires i < k <= |ordered| == entries.Length && |subs| == k
      requires entries[i] == ordered[i] && ordered[i] in cur.children
      requires Yields(sorter, root, ordered, subs, layer, k, i)
      requires log == base + RowsUpTo(root, ordered, subs, layer, i)
      modifies this, entries
      ensures log == base + RowsUpTo(root, ordered, subs, layer, i + 1)
      ensures entries[i] == subs[i].entry
      ensures forall j :: 0 <= j < entries.Length && j != i ==> entries[j] == old(entries[j])
      decreases cur, 0
    {
      var entry := entries[i];
      PrintRow(root, entry, layer + 1, i + 1);
      var child := PrintChildren(root, entry, layer + 1, k);
      entries[i] := child;
      assert log == base + RowsUpTo(root, ordered, subs, layer, i + 1) by {
        RowsUpToStep(root, ordered, subs, layer, i);
        AppendAssoc(base, RowsUpTo(root, ordered, subs, layer, i), [RowOf(root, entry, layer + 1, i + 1)], subs[i].rows);
      }
    }

    /** print_row: logs the row for cur. */
    method PrintRow(root: Entry, cur: Entry, layer: nat, num: nat)
      modifies this
      ensures log == old(log) + [RowOf(root, cur, layer, num)]
    {
      var cells: seq<Cell>;
      if root.id == cur.id {
        cells := [Text("--"), Text(root.view.name), Text("--")];
      } else {
        cells := [Label(layer, num), Text(cur.view.name), Number(layer)];
      }
      cells := cells + [Columns(cur.view)];
      if root.id == cur.id {
        cells := cells + [Text("--"), Text("--")];
      } else {
        cells := cells + [PctCaller(cur.view), PctOf(cur.view, root.view.stats)];
      }
      assert Row(cells) == RowOf(root, cur, layer, num);
      log := log + [Row(cells)];
    }
  }
}

/**
 * The table-of-contents forest that the tests in
 * test/components/toc/buildTree.test.ts describe: a heading's children are
 * the headings after it up to the next heading at its own depth or shallower,
 * and every heading appears exactly once, in input order. This is the
 * corrected builder; module Toc keeps the code as written.
 */
module TocReference {
  import opened Wrappers
  import opened Toc

  /** A heading, by input position, with the subtrees of its children. */
  datatype Node = Node(index: nat, children: seq<Node>)

  /** The maximal run of headings from `start` on that are deeper than
      `bound` (every heading, when there is no bound), grouped into trees;
      also the position where the run stops. */
  function Run(d: seq<int>, start: nat, bound: Option<int>): (r: (seq<Node>, nat))
    requires start <= |d|
    ensures start <= r.1 <= |d|
    ensures r.0 == [] <==> r.1 == start
    decreases |d| - start
  {
    if start == |d| || (bound.Some? && d[start] <= bound.value) then ([], start)
    else
      var below := Run(d, start + 1, Some(d[start]));
      var rest := Run(d, below.1, bound);
      ([Node(start, below.0)] + rest.0, rest.1)
  }

  /** The corrected buildTree: an absent input gives no trees. */
  function Build(headings: Option<seq<int>>): (ns: seq<Node>)
    ensures headings.None? ==> ns == []
    ensures headings.Some? ==> (ns == [] <==> headings.value == [])
  {
    match headings
    case None => []
    case Some(d) => Run(d, 0, None).0
  }

  /** Pre-order listing of a forest, as collectTexts produces it. */
  function Listing(ns: seq<Node>): seq<nat>
    decreases ns
  {
    if ns == [] then []
    else [ns[0].index] + Listing(ns[0].children) + Listing(ns[1..])
  }

  /** The number of headings in a forest, as countHeadings computes it. */
  function Count(ns: seq<Node>): nat
    decreases ns
  {
    if ns == [] then 0
    else 1 + Count(ns[0].children) + Count(ns[1..])
  }

  /** Every heading strictly deeper than its parent, throughout the forest. */
  predicate Nested(d: seq<int>, ns: seq<Node>)
    decreases ns
  {
    ns == [] ||
    (&& ns[0].index < |d|
     && (forall k :: 0 <= k < |ns[0].children| ==>
           ns[0].children[k].index < |d| && d[ns[0].children[k].index] > d[ns[0].index])
     && Nested(d, ns[0].children)
     && Nested(d, ns[1..]))
  }

  /** Every top-level heading of the forest lies below the bound. */
  predicate Below(d: seq<int>, ns: seq<Node>, bound: Option<int>) {
    forall k :: 0 <= k < |ns| ==> ns[k].index < |d| && (bound.Some? ==> d[ns[k].index] > bound.value)
  }

  /** A run lists exactly the positions it consumed, in order. */
  lemma {:induction false} RunListing(d: seq<int>, start: nat, bound: Option<int>)
    requires start <= |d|
    ensures Listing(Run(d, start, bound).0) == Range(start, Run(d, start, bound).1)
    decreases |d| - start
  {
    if start == |d| || (bound.Some? && d[start] <= bound.value) {
    } else {
      var below := Run(d, start + 1, Some(d[start]));
      var rest := Run(d, below.1, bound);
      RunListing(d, start + 1, Some(d[start]));
      RunListing(d, below.1, bound);
      var ns := [Node(start, below.0)] + rest.0;
      assert ns[0] == Node(start, below.0) && ns[1..] == rest.0;
      calc {
        Listing(ns);
        [start] + Listing(below.0) + Listing(rest.0);
        [start] + (Range(start + 1, below.1) + Range(below.1, rest.1));
        { RangeSplit(start + 1, below.1, rest.1); }
        [start] + Range(start + 1, rest.1);
      }
    }
  }

  /** A run stops only at the end of the input or at a heading not below
      the bound. */
  lemma {:induction false} RunStops(d: seq<int>, start: nat, bound: Option<int>)
    requires start <= |d|
    ensures Run(d, start, bound).1 == |d| || (bound.Some? && d[Run(d, start, bound).1] <= bound.value)
    decreases |d| - start
  {
    if start == |d| || (bound.Some? && d[start] <= bound.value) {
    } else {
      RunStops(d, Run(d, start + 1, Some(d[start])).1, bound);
    }
  }

  /** A run nests every heading under a shallower one, and its top-level
      headings all lie below the bound. */
  lemma {:induction false} RunNested(d: seq<int>, start: nat, bound: Option<int>)
    requires start <= |d|
    ensures Nested(d, Run(d, start, bound).0)
    ensures Below(d, Run(d, start, bound).0, bound)
    decreases |d| - start
  {
    if start == |d| || (bound.Some? && d[start] <= bound.value) {
    } else {
      var below := Run(d, start + 1, Some(d[start]));
      var rest := Run(d, below.1, bound);
      RunNested(d, start + 1, Some(d[start]));
      RunNested(d, below.1, bound);
      var ns := [Node(start, below.0)] + rest.0;
      assert ns[1..] == rest.0;
      assert Nested(d, ns);
    }
  }

  /** Consecutive ranges join. */
  lemma {:induction false} RangeSplit(lo: nat, mid: nat, hi: nat)
    requires lo <= mid <= hi
    ensures Range(lo, mid) + Range(mid, hi) == Range(lo, hi)
  {
    assert |Range(lo, mid) + Range(mid, hi)| == |Range(lo, hi)|;
    forall k | 0 <= k < hi - lo
      ensures (Range(lo, mid) + Range(mid, hi))[k] == Range(lo, hi)[k]
    {
      if k < mid - lo {
        assert (Range(lo, mid) + Range(mid, hi))[k] == Range(lo, mid)[k];
      } else {
        assert (Range(lo, mid) + Range(mid, hi))[k] == Range(mid, hi)[k - (mid - lo)];
      }
    }
  }

  /** The count is the listing's length. */
  lemma {:induction false} CountIsLength(ns: seq<Node>)
    ensures Count(ns) == |Listing(ns)|
    decreases ns
  {
    if ns != [] {
      CountIsLength(ns[0].children);
      CountIsLength(ns[1..]);
    }
  }

  /** The property the tests state about every input: the pre-order listing
      of the forest is the input, each heading once and in order, so the
      count is the input's length; and every child is deeper than its parent. */
  lemma ListsEveryHeading(d: seq<int>)
    ensures Listing(Build(Some(d))) == Range(0, |d|)
    ensures Run(d, 0, None).1 == |d|
    ensures Count(Build(Some(d))) == |d|
    ensures Nested(d, Build(Some(d)))
  {
    RunListing(d, 0, None);
    RunStops(d, 0, None);
    RunNested(d, 0, None);
    CountIsLength(Build(Some(d)));
  }

  /** One step of a run that takes the heading at `start`. */
  lemma RunTakes(d: seq<int>, start: nat, bound: Option<int>, kids: seq<Node>, mid: nat, rest: seq<Node>, end: nat)
    requires start < |d| && (bound.None? || d[start] > bound.value)
    requires Run(d, start + 1, Some(d[start])) == (kids, mid)
    requires Run(d, mid, bound) == (rest, end)
    ensures Run(d, start, bound) == ([Node(start, kids)] + rest, end)
  {
  }

  /** A heading followed by a deeper one: one root with one child, as the
      test at test/components/toc/buildTree.test.ts:46-54 expects. */
  lemma NestsLastHeading(a: int, b: int)
    requires a < b
    ensures Build(Some([a, b])) == [Node(0, [Node(1, [])])]
  {
    var d := [a, b];
    var none: seq<Node> := [];
    var one := [Node(1, [])];
    assert one + none == one;
    RunTakes(d, 1, Some(a), [], 2, [], 2);
    RunTakes(d, 0, None, one, 2, [], 2);
    assert [Node(0, one)] + none == [Node(0, one)];
  }

  /** The "Getting Started" section of the blog post structure: two
      children, the second with three of its own. */
  lemma GettingStarted(d: seq<int>)
    requires d == [2, 2, 3, 3, 4, 4, 4, 2, 3, 3, 2]
    ensures Run(d, 2, Some(2)) == ([Node(2, []), Node(3, [Node(4, []), Node(5, []), Node(6, [])])], 7)
  {
    assert |d| == 11 && d[2] == 3 && d[3] == 3 && d[4] == 4 && d[5] == 4 && d[6] == 4 && d[7] == 2;
    var none: seq<Node> := [];
    var n6: seq<Node> := [Node(6, [])];
    var n56: seq<Node> := [Node(5, [])] + n6;
    var n456: seq<Node> := [Node(4, [])] + n56;
    var n3: seq<Node> := [Node(3, n456)];
    assert n6 + none == n6 && n3 + none == n3;
    RunTakes(d, 6, Some(3), [], 7, [], 7);
    RunTakes(d, 5, Some(3), [], 6, n6, 7);
    RunTakes(d, 4, Some(3), [], 5, n56, 7);
    RunTakes(d, 3, Some(2), n456, 7, [], 7);
    RunTakes(d, 2, Some(2), [], 3, n3, 7);
    assert n456 == [Node(4, []), Node(5, []), Node(6, [])];
    assert [Node(2, [])] + n3 == [Node(2, []), Node(3, n456)];
  }

  /** The "Basic Usage" section and "Conclusion" after it: from position 7
      on, two roots, the first with two children. */
  lemma BasicUsage(d: seq<int>)
    requires d == [2, 2, 3, 3, 4, 4, 4, 2, 3, 3, 2]
    ensures Run(d, 7, None) == ([Node(7, [Node(8, []), Node(9, [])]), Node(10, [])], 11)
  {
    assert |d| == 11 && d[7] == 2 && d[8] == 3 && d[9] == 3 && d[10] == 2;
    var none: seq<Node> := [];
    var n9: seq<Node> := [Node(9, [])];
    var n89: seq<Node> := [Node(8, [])] + n9;
    var n10: seq<Node> := [Node(10, [])];
    assert n9 + none == n9 && n10 + none == n10;
    RunTakes(d, 9, Some(2), [], 10, [], 10);
    RunTakes(d, 8, Some(2), [], 9, n9, 10);
    RunTakes(d, 10, None, [], 11, [], 11);
    RunTakes(d, 7, None, n89, 10, n10, 11);
    assert n89 == [Node(8, []), Node(9, [])];
    assert [Node(7, n89)] + n10 == [Node(7, n89), Node(10, [])];
  }

  /** The assertions of the test at test/components/toc/buildTree.test.ts:145-173
      on the real blog post structure: four roots, "Introduction" without
      children, "Getting Started" with two children of which the second has
      three, "Basic Usage" with two, then "Conclusion". */
  lemma BlogPostShape(d: seq<int>)
    requires d == [2, 2, 3, 3, 4, 4, 4, 2, 3, 3, 2]
    ensures var ns := Build(Some(d));
      && |ns| == 4
      && ns[0].index == 0 && |ns[0].children| == 0
      && ns[1].index == 1 && |ns[1].children| == 2 && |ns[1].children[1].children| == 3
      && ns[2].index == 7 && |ns[2].children| == 2
      && ns[3].index == 10
  {
    assert |d| == 11 && d[0] == 2 && d[1] == 2;
    var n23 := Run(d, 2, Some(2)).0;
    var n7 := Run(d, 7, None).0;
    GettingStarted(d);
    BasicUsage(d);
    var n1: seq<Node> := [Node(1, n23)] + n7;
    RunTakes(d, 1, None, n23, 7, n7, 11);
    RunTakes(d, 0, None, [], 1, n1, 11);
    assert Build(Some(d)) == [Node(0, [])] + n1;
  }
}

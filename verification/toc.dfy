/**
 * The table-of-contents tree builder exactly as written in
 * src/components/toc/buildTree.ts.
 *
 * A heading is identified by its position in the input; only its depth
 * matters to the builder, so the input is a sequence of depths. The source
 * mutates the `children` field of the heading records in place, and the same
 * record can be reached twice; here the `children` fields of all headings form
 * one table indexed by input position, threaded through the computation, so a
 * reset of a heading's children is seen wherever that heading is referenced.
 */
module Toc {
  import opened Wrappers

  /** Entry p holds the input positions attached as children of heading p. */
  type Children = seq<seq<nat>>

  /** What buildTree hands back: the roots, plus every heading's children field. */
  datatype Forest = Forest(roots: seq<nat>, children: Children)

  predicate Ascending(xs: seq<nat>) {
    forall k, l :: 0 <= k < l < |xs| ==> xs[k] < xs[l]
  }

  /** The children list of heading p: later, strictly deeper headings in input
      order, never the last heading of the input. */
  predicate ChildListOk(d: seq<int>, p: nat, xs: seq<nat>)
    requires p < |d|
  {
    && Ascending(xs)
    && forall k :: 0 <= k < |xs| ==> p < xs[k] < |d| - 1 && d[xs[k]] > d[p]
  }

  /** The invariant every state of the children table keeps. */
  predicate TableOk(d: seq<int>, ch: Children) {
    && |ch| == |d|
    && forall p :: 0 <= p < |d| ==> ChildListOk(d, p, ch[p])
  }

  /** buildSubtree: attach to `parent` the headings from `offset` on, and report
      how many positions the caller should skip. The source always calls it
      with `offset` right after `parent`. */
  function Subtree(d: seq<int>, ch: Children, parent: nat, offset: nat, depth: int): (res: (Children, nat))
    requires |ch| == |d|
    requires offset == parent + 1 <= |d|
    ensures |res.0| == |d|
    ensures offset == |d| ==> res == (ch, 0)
    decreases |d| - offset, 1
  {
    if offset == |d| then (ch, 0)
    else SubtreeLoop(d, ch, parent, offset, offset + 1, depth, 0)
  }

  /** The `while` loop of buildSubtree, one iteration per call. The loop head
      always sees `next == offset + 1`. */
  function SubtreeLoop(d: seq<int>, ch: Children, parent: nat, offset: nat, next: nat, depth: int, increment: nat): (res: (Children, nat))
    requires |ch| == |d|
    requires parent < offset && parent < |d|
    requires next == offset + 1
    ensures |res.0| == |d|
    ensures res.1 >= increment
    decreases |d| - next + 1, 0
  {
    if next < |d| && d[offset] >= depth then
      var ch1 := ch[offset := []][parent := ch[parent] + [offset]];
      var step :=
        if d[next] != depth then
          var sub := Subtree(d, ch1, offset, next, d[offset] + 1);
          (sub.0, increment + sub.1)
        else (ch1, increment);
      var next1 := if d[next] != depth then next + step.1 else next;
      SubtreeLoop(d, step.0, parent, next1, next1 + 1, depth, step.1 + 1)
    else (ch, increment)
  }

  /** The root loop of buildTree from cursor i on. */
  function RootLoop(d: seq<int>, ch: Children, i: nat, roots: seq<nat>): (f: Forest)
    requires |ch| == |d|
    ensures |f.children| == |d|
    decreases |d| - i
  {
    if i < |d| then
      var ch1 := ch[i := []];
      var sub := Subtree(d, ch1, i, i + 1, d[i] + 1);
      RootLoop(d, sub.0, i + sub.1 + 1, roots + [i])
    else Forest(roots, ch)
  }

  /** The children table before the call: the records are built with no children. */
  function NoChildren(n: nat): (ch: Children)
    ensures |ch| == n && forall p :: 0 <= p < n ==> ch[p] == []
  {
    seq(n, _ => [])
  }

  /** buildTree. An absent input yields an empty forest; otherwise the first
      heading is always the first root. */
  function BuildTree(headings: Option<seq<int>>): (f: Forest)
    ensures headings.None? ==> f.roots == [] && f.children == []
    ensures headings.Some? ==> |f.children| == |headings.value|
    ensures headings == Some([]) ==> f.roots == []
    ensures headings.Some? && |headings.value| > 0 ==> |f.roots| > 0 && f.roots[0] == 0
  {
    match headings
    case None => Forest([], [])
    case Some(d) =>
      RootLoopShape(d, NoChildren(|d|), 0, []);
      RootLoop(d, NoChildren(|d|), 0, [])
  }

  /** Every recursive call of buildSubtree leaves the children table in good
      shape and does not touch the headings before its parent. */
  lemma {:induction false} SubtreeKeepsTable(d: seq<int>, ch: Children, parent: nat, offset: nat, depth: int)
    requires TableOk(d, ch)
    requires offset == parent + 1 <= |d|
    requires depth == d[parent] + 1
    requires ch[parent] == []
    ensures TableOk(d, Subtree(d, ch, parent, offset, depth).0)
    ensures forall x :: 0 <= x < parent ==> Subtree(d, ch, parent, offset, depth).0[x] == ch[x]
    decreases |d| - offset, 1
  {
    if offset < |d| {
      LoopKeepsTable(d, ch, parent, offset, offset + 1, depth, 0);
    }
  }

  /** One iteration of the loop attaches `offset` to `parent` (strictly deeper,
      later, never the last heading, after every earlier child) and recurses
      only into headings after `offset`. */
  lemma {:induction false} LoopKeepsTable(d: seq<int>, ch: Children, parent: nat, offset: nat, next: nat, depth: int, increment: nat)
    requires TableOk(d, ch)
    requires parent < offset && parent < |d|
    requires next == offset + 1
    requires depth == d[parent] + 1
    requires forall k :: 0 <= k < |ch[parent]| ==> ch[parent][k] < offset
    ensures TableOk(d, SubtreeLoop(d, ch, parent, offset, next, depth, increment).0)
    ensures forall x :: 0 <= x < offset && x < |d| && x != parent ==>
              SubtreeLoop(d, ch, parent, offset, next, depth, increment).0[x] == ch[x]
    decreases |d| - next + 1, 0
  {
    if next < |d| && d[offset] >= depth {
      var ch1 := ch[offset := []][parent := ch[parent] + [offset]];
      assert ChildListOk(d, parent, ch1[parent]);
      assert TableOk(d, ch1);
      if d[next] != depth {
        SubtreeKeepsTable(d, ch1, offset, next, d[offset] + 1);
        var sub := Subtree(d, ch1, offset, next, d[offset] + 1);
        var next1 := next + increment + sub.1;
        LoopKeepsTable(d, sub.0, parent, next1, next1 + 1, depth, increment + sub.1 + 1);
      } else {
        LoopKeepsTable(d, ch1, parent, next, next + 1, depth, increment + 1);
      }
    }
  }

  /** The root loop keeps the table in good shape and collects roots in
      strictly increasing input order. */
  lemma {:induction false} RootLoopShape(d: seq<int>, ch: Children, i: nat, roots: seq<nat>)
    requires TableOk(d, ch)
    requires Ascending(roots)
    requires forall k :: 0 <= k < |roots| ==> roots[k] < i && roots[k] < |d|
    ensures TableOk(d, RootLoop(d, ch, i, roots).children)
    ensures Ascending(RootLoop(d, ch, i, roots).roots)
    ensures forall k :: 0 <= k < |RootLoop(d, ch, i, roots).roots| ==> RootLoop(d, ch, i, roots).roots[k] < |d|
    ensures |roots| <= |RootLoop(d, ch, i, roots).roots|
    ensures RootLoop(d, ch, i, roots).roots[..|roots|] == roots
    ensures i < |d| ==> |RootLoop(d, ch, i, roots).roots| > |roots| && RootLoop(d, ch, i, roots).roots[|roots|] == i
    decreases |d| - i
  {
    if i < |d| {
      var ch1 := ch[i := []];
      assert TableOk(d, ch1);
      SubtreeKeepsTable(d, ch1, i, i + 1, d[i] + 1);
      var sub := Subtree(d, ch1, i, i + 1, d[i] + 1);
      RootLoopShape(d, sub.0, i + sub.1 + 1, roots + [i]);
    }
  }

  /** The forest buildTree returns: roots in strictly increasing input order,
      every child strictly deeper and later than its parent, each children list
      in input order, and the last heading never anyone's child. */
  lemma BuildTreeShape(d: seq<int>)
    ensures TableOk(d, BuildTree(Some(d)).children)
    ensures Ascending(BuildTree(Some(d)).roots)
    ensures forall k :: 0 <= k < |BuildTree(Some(d)).roots| ==> BuildTree(Some(d)).roots[k] < |d|
  {
    RootLoopShape(d, NoChildren(|d|), 0, []);
  }

  /** Pre-order listing of the headings under (and including) the list xs, as
      collectTexts in test/components/toc/headingUtilties.ts produces it, with
      headings identified by position. In a table buildTree produced every
      child lies after its parent (BuildTreeShape), so the guard never skips
      an entry there; it only makes the traversal total on any table. */
  function Preorder(d: seq<int>, ch: Children, xs: seq<nat>, above: int): seq<nat>
    requires |ch| == |d|
    decreases |d| - above, |xs|
  {
    if xs == [] then []
    else if above < xs[0] < |d| then
      [xs[0]] + Preorder(d, ch, ch[xs[0]], xs[0]) + Preorder(d, ch, xs[1..], above)
    else Preorder(d, ch, xs[1..], above)
  }

  /** countHeadings from the same test helper file, with the same guard. */
  function CountHeadings(d: seq<int>, ch: Children, xs: seq<nat>, above: int): nat
    requires |ch| == |d|
    decreases |d| - above, |xs|
  {
    if xs == [] then 0
    else if above < xs[0] < |d| then
      1 + CountHeadings(d, ch, ch[xs[0]], xs[0]) + CountHeadings(d, ch, xs[1..], above)
    else CountHeadings(d, ch, xs[1..], above)
  }

  /** The pre-order listing of the forest built from depths d. */
  function Flatten(d: seq<int>): seq<nat> {
    var f := BuildTree(Some(d));
    Preorder(d, f.children, f.roots, -1)
  }

  /** countHeadings and collectTexts agree: the count is the listing's length. */
  lemma {:induction false} CountIsLength(d: seq<int>, ch: Children, xs: seq<nat>, above: int)
    requires |ch| == |d|
    ensures CountHeadings(d, ch, xs, above) == |Preorder(d, ch, xs, above)|
    decreases |d| - above, |xs|
  {
    if xs != [] {
      if above < xs[0] < |d| {
        CountIsLength(d, ch, ch[xs[0]], xs[0]);
      }
      CountIsLength(d, ch, xs[1..], above);
    }
  }

  /** The positions lo, lo + 1, ..., hi - 1. */
  function Range(lo: nat, hi: nat): (r: seq<nat>)
    requires lo <= hi
    ensures |r| == hi - lo
    ensures forall k :: 0 <= k < |r| ==> r[k] == lo + k
    decreases hi - lo
  {
    if lo == hi then [] else [lo] + Range(lo + 1, hi)
  }

  /** From cursor i of a run in which no heading is deeper than its
      predecessor, every remaining heading becomes a root with no children. */
  lemma {:induction false} FlatRunFrom(d: seq<int>, i: nat)
    requires i <= |d|
    requires forall k :: i <= k < |d| - 1 ==> d[k + 1] <= d[k]
    ensures RootLoop(d, NoChildren(|d|), i, Range(0, i)) == Forest(Range(0, |d|), NoChildren(|d|))
    decreases |d| - i
  {
    if i < |d| {
      var ch := NoChildren(|d|);
      assert ch[i := []] == ch;
      assert Subtree(d, ch, i, i + 1, d[i] + 1) == (ch, 0);
      assert Range(0, i) + [i] == Range(0, i + 1);
      FlatRunFrom(d, i + 1);
    } else {
      assert i == |d|;
    }
  }

  /** When no heading is deeper than its predecessor, the forest is every
      heading as a childless root, in input order. */
  lemma FlatRun(d: seq<int>)
    requires forall k :: 0 <= k < |d| - 1 ==> d[k + 1] <= d[k]
    ensures BuildTree(Some(d)).roots == Range(0, |d|)
    ensures forall p :: 0 <= p < |d| ==> BuildTree(Some(d)).children[p] == []
  {
    FlatRunFrom(d, 0);
  }

  /** Two headings always make two childless roots, whatever their depths:
      the second heading is the last one, and the last heading is never
      attached as a child. */
  lemma TwoHeadings(a: int, b: int)
    ensures BuildTree(Some([a, b])) == Forest([0, 1], [[], []])
  {
    var d := [a, b];
    var ch: Children := NoChildren(2);
    assert ch == [[], []];
    assert ch[0 := []] == ch && ch[1 := []] == ch;
    assert Subtree(d, ch, 0, 1, a + 1) == (ch, 0);
    assert Subtree(d, ch, 1, 2, b + 1) == (ch, 0);
    assert RootLoop(d, ch, 2, [0, 1]) == Forest([0, 1], ch);
    assert RootLoop(d, ch, 1, [0]) == Forest([0, 1], ch);
    var none: seq<nat> := [];
    assert none + [0] == [0];
    assert RootLoop(d, ch, 0, []) == Forest([0, 1], ch);
  }
}

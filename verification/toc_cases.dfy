/**
 * The tree builder of module Toc run on fixed inputs.
 *
 * Each input is traced one step at a time. `<Input>Attach<k>` states what
 * the loop of buildSubtree returns from the iteration that attaches heading
 * k, `<Input>Sub<k>` what the nested call of buildSubtree starting at heading
 * k returns, `<Input>Root<i>` and `<Input>From<i>` what the call for root i
 * and the root loop from cursor i on return, and `<Input>Built` the whole
 * forest. `<Input>Below<r>` and `<Input>Forest` list that forest in
 * pre-order, and `<Input>Listing` is the listing of the built forest. The
 * step lemmas take the depths as a parameter `d` equal to the input.
 */
module TocCases {
  import opened Wrappers
  import opened Toc

  /** Two sections, the first with two subsections, the second with one, then a third section: a six-heading input on which the accumulated skip count of the loop sends the cursor to a heading still in range but not the next one. */
  const Siblings: seq<int> := [2, 3, 3, 2, 3, 2]

  lemma SiblingsAttach4(d: seq<int>)
    requires d == Siblings
    ensures SubtreeLoop(d, [[1, 2], [], [], [], [], []], 0, 4, 5, 3, 2) == ([[1, 2, 4], [], [], [], [], []], 3)
  {
    assert |d| == 6 && d[0] == 2 && d[1] == 3 && d[2] == 3 && d[3] == 2 && d[4] == 3 && d[5] == 2;
    var t0: Children := [[1, 2], [], [], [], [], []];
    var t1: Children := [[1, 2, 4], [], [], [], [], []];
    assert t0[0] + [4] == [1, 2, 4];
    assert t0[4 := []][0 := t0[0] + [4]] == t1;
    assert Subtree(d, t1, 4, 5, 4) == (t1, 0);
    assert SubtreeLoop(d, t1, 0, 7, 8, 3, 3) == (t1, 3);
  }

  lemma SiblingsAttach2(d: seq<int>)
    requires d == Siblings
    ensures SubtreeLoop(d, [[1], [], [], [], [], []], 0, 2, 3, 3, 1) == ([[1, 2, 4], [], [], [], [], []], 3)
  {
    assert |d| == 6 && d[0] == 2 && d[1] == 3 && d[2] == 3 && d[3] == 2 && d[4] == 3 && d[5] == 2;
    SiblingsAttach4(d);
    var t0: Children := [[1], [], [], [], [], []];
    var t1: Children := [[1, 2], [], [], [], [], []];
    var t2: Children := [[1, 2, 4], [], [], [], [], []];
    assert t0[0] + [2] == [1, 2];
    assert t0[2 := []][0 := t0[0] + [2]] == t1;
    assert Subtree(d, t1, 2, 3, 4) == (t1, 0);
    assert SubtreeLoop(d, t1, 0, 4, 5, 3, 2) == (t2, 3);
  }

  lemma SiblingsAttach1(d: seq<int>)
    requires d == Siblings
    ensures SubtreeLoop(d, [[], [], [], [], [], []], 0, 1, 2, 3, 0) == ([[1, 2, 4], [], [], [], [], []], 3)
  {
    assert |d| == 6 && d[0] == 2 && d[1] == 3 && d[2] == 3 && d[3] == 2 && d[4] == 3 && d[5] == 2;
    SiblingsAttach2(d);
    var t0: Children := [[], [], [], [], [], []];
    var t1: Children := [[1], [], [], [], [], []];
    var t2: Children := [[1, 2, 4], [], [], [], [], []];
    assert t0[0] + [1] == [1];
    assert t0[1 := []][0 := t0[0] + [1]] == t1;
    assert SubtreeLoop(d, t1, 0, 2, 3, 3, 1) == (t2, 3);
  }

  lemma SiblingsFrom5(d: seq<int>)
    requires d == Siblings
    ensures RootLoop(d, [[1, 2, 4], [], [], [], [], []], 5, [0, 4]) == Forest([0, 4, 5], [[1, 2, 4], [], [], [], [], []])
  {
    assert |d| == 6 && d[0] == 2 && d[1] == 3 && d[2] == 3 && d[3] == 2 && d[4] == 3 && d[5] == 2;
    var t0: Children := [[1, 2, 4], [], [], [], [], []];
    assert t0[5 := []] == t0;
    assert Subtree(d, t0, 5, 6, 3) == (t0, 0);
    var rs: seq<nat> := [0, 4];
    assert rs + [5] == [0, 4, 5];
  }

  lemma SiblingsFrom4(d: seq<int>)
    requires d == Siblings
    ensures RootLoop(d, [[1, 2, 4], [], [], [], [], []], 4, [0]) == Forest([0, 4, 5], [[1, 2, 4], [], [], [], [], []])
  {
    assert |d| == 6 && d[0] == 2 && d[1] == 3 && d[2] == 3 && d[3] == 2 && d[4] == 3 && d[5] == 2;
    SiblingsFrom5(d);
    var t0: Children := [[1, 2, 4], [], [], [], [], []];
    assert t0[4 := []] == t0;
    assert Subtree(d, t0, 4, 5, 4) == (t0, 0);
    var rs: seq<nat> := [0];
    assert rs + [4] == [0, 4];
  }

  lemma SiblingsRoot0(d: seq<int>)
    requires d == Siblings
    ensures Subtree(d, [[], [], [], [], [], []], 0, 1, 3) == ([[1, 2, 4], [], [], [], [], []], 3)
  {
    assert |d| == 6 && d[0] == 2 && d[1] == 3 && d[2] == 3 && d[3] == 2 && d[4] == 3 && d[5] == 2;
    SiblingsAttach1(d);
  }

  lemma SiblingsFrom0(d: seq<int>)
    requires d == Siblings
    ensures RootLoop(d, [[], [], [], [], [], []], 0, []) == Forest([0, 4, 5], [[1, 2, 4], [], [], [], [], []])
  {
    assert |d| == 6 && d[0] == 2 && d[1] == 3 && d[2] == 3 && d[3] == 2 && d[4] == 3 && d[5] == 2;
    SiblingsFrom4(d);
    SiblingsRoot0(d);
    var t0: Children := [[], [], [], [], [], []];
    assert t0[0 := []] == t0;
    var t1: Children := [[1, 2, 4], [], [], [], [], []];
    assert Subtree(d, t0, 0, 1, 3) == (t1, 3);
    var rs: seq<nat> := [];
    assert rs + [0] == [0];
  }

  lemma SiblingsBuilt(d: seq<int>)
    requires d == Siblings
    ensures BuildTree(Some(d)) == Forest([0, 4, 5], [[1, 2, 4], [], [], [], [], []])
  {
    SiblingsFrom0(d);
    assert NoChildren(6) == [[], [], [], [], [], []];
  }

  lemma SiblingsBelow0(d: seq<int>)
    requires d == Siblings
    ensures Preorder(d, [[1, 2, 4], [], [], [], [], []], [1, 2, 4], 0) == [1, 2, 4]
  {
    assert |d| == 6 && d[0] == 2 && d[1] == 3 && d[2] == 3 && d[3] == 2 && d[4] == 3 && d[5] == 2;
    var t: Children := [[1, 2, 4], [], [], [], [], []];
    assert Preorder(d, t, [4], 0) == [4];
    assert Preorder(d, t, [2, 4], 0) == [2, 4];
    assert Preorder(d, t, [1, 2, 4], 0) == [1, 2, 4];
  }

  lemma SiblingsForest(d: seq<int>)
    requires d == Siblings
    ensures Preorder(d, [[1, 2, 4], [], [], [], [], []], [0, 4, 5], -1) == [0, 1, 2, 4, 4, 5]
  {
    assert |d| == 6 && d[0] == 2 && d[1] == 3 && d[2] == 3 && d[3] == 2 && d[4] == 3 && d[5] == 2;
    SiblingsBelow0(d);
    var t: Children := [[1, 2, 4], [], [], [], [], []];
    assert Preorder(d, t, [5], -1) == [5];
    assert Preorder(d, t, [4, 5], -1) == [4, 5];
    assert Preorder(d, t, [0, 4, 5], -1) == [0, 1, 2, 4, 4, 5];
  }

  lemma SiblingsListing()
    ensures Flatten(Siblings) == [0, 1, 2, 4, 4, 5]
  {
    SiblingsBuilt(Siblings);
    SiblingsForest(Siblings);
  }

  /** The input of the test that returns to the top level (test/components/toc/buildTree.test.ts:247-263). */
  const ReturnToTop: seq<int> := [2, 3, 4, 2, 3, 4]

  lemma ReturnToTopAttach2(d: seq<int>)
    requires d == ReturnToTop
    ensures SubtreeLoop(d, [[1], [], [], [], [], []], 1, 2, 3, 4, 0) == ([[1], [2], [], [], [], []], 1)
  {
    assert |d| == 6 && d[0] == 2 && d[1] == 3 && d[2] == 4 && d[3] == 2 && d[4] == 3 && d[5] == 4;
    var t0: Children := [[1], [], [], [], [], []];
    var t1: Children := [[1], [2], [], [], [], []];
    assert t0[1] + [2] == [2];
    assert t0[2 := []][1 := t0[1] + [2]] == t1;
    assert Subtree(d, t1, 2, 3, 5) == (t1, 0);
    assert SubtreeLoop(d, t1, 1, 3, 4, 4, 1) == (t1, 1);
  }

  lemma ReturnToTopSub2(d: seq<int>)
    requires d == ReturnToTop
    ensures Subtree(d, [[1], [], [], [], [], []], 1, 2, 4) == ([[1], [2], [], [], [], []], 1)
  {
    assert |d| == 6 && d[0] == 2 && d[1] == 3 && d[2] == 4 && d[3] == 2 && d[4] == 3 && d[5] == 4;
    ReturnToTopAttach2(d);
  }

  lemma ReturnToTopAttach1(d: seq<int>)
    requires d == ReturnToTop
    ensures SubtreeLoop(d, [[], [], [], [], [], []], 0, 1, 2, 3, 0) == ([[1], [2], [], [], [], []], 2)
  {
    assert |d| == 6 && d[0] == 2 && d[1] == 3 && d[2] == 4 && d[3] == 2 && d[4] == 3 && d[5] == 4;
    ReturnToTopSub2(d);
    var t0: Children := [[], [], [], [], [], []];
    var t1: Children := [[1], [], [], [], [], []];
    var t2: Children := [[1], [2], [], [], [], []];
    assert t0[0] + [1] == [1];
    assert t0[1 := []][0 := t0[0] + [1]] == t1;
    assert Subtree(d, t1, 1, 2, 4) == (t2, 1);
    assert SubtreeLoop(d, t2, 0, 3, 4, 3, 2) == (t2, 2);
  }

  lemma ReturnToTopAttach4(d: seq<int>)
    requires d == ReturnToTop
    ensures SubtreeLoop(d, [[1], [2], [], [], [], []], 3, 4, 5, 3, 0) == ([[1], [2], [], [4], [], []], 1)
  {
    assert |d| == 6 && d[0] == 2 && d[1] == 3 && d[2] == 4 && d[3] == 2 && d[4] == 3 && d[5] == 4;
    var t0: Children := [[1], [2], [], [], [], []];
    var t1: Children := [[1], [2], [], [4], [], []];
    assert t0[3] + [4] == [4];
    assert t0[4 := []][3 := t0[3] + [4]] == t1;
    assert Subtree(d, t1, 4, 5, 4) == (t1, 0);
    assert SubtreeLoop(d, t1, 3, 5, 6, 3, 1) == (t1, 1);
  }

  lemma ReturnToTopFrom5(d: seq<int>)
    requires d == ReturnToTop
    ensures RootLoop(d, [[1], [2], [], [4], [], []], 5, [0, 3]) == Forest([0, 3, 5], [[1], [2], [], [4], [], []])
  {
    assert |d| == 6 && d[0] == 2 && d[1] == 3 && d[2] == 4 && d[3] == 2 && d[4] == 3 && d[5] == 4;
    var t0: Children := [[1], [2], [], [4], [], []];
    assert t0[5 := []] == t0;
    assert Subtree(d, t0, 5, 6, 5) == (t0, 0);
    var rs: seq<nat> := [0, 3];
    assert rs + [5] == [0, 3, 5];
  }

  lemma ReturnToTopRoot3(d: seq<int>)
    requires d == ReturnToTop
    ensures Subtree(d, [[1], [2], [], [], [], []], 3, 4, 3) == ([[1], [2], [], [4], [], []], 1)
  {
    assert |d| == 6 && d[0] == 2 && d[1] == 3 && d[2] == 4 && d[3] == 2 && d[4] == 3 && d[5] == 4;
    ReturnToTopAttach4(d);
  }

  lemma ReturnToTopFrom3(d: seq<int>)
    requires d == ReturnToTop
    ensures RootLoop(d, [[1], [2], [], [], [], []], 3, [0]) == Forest([0, 3, 5], [[1], [2], [], [4], [], []])
  {
    assert |d| == 6 && d[0] == 2 && d[1] == 3 && d[2] == 4 && d[3] == 2 && d[4] == 3 && d[5] == 4;
    ReturnToTopFrom5(d);
    ReturnToTopRoot3(d);
    var t0: Children := [[1], [2], [], [], [], []];
    assert t0[3 := []] == t0;
    var t1: Children := [[1], [2], [], [4], [], []];
    assert Subtree(d, t0, 3, 4, 3) == (t1, 1);
    var rs: seq<nat> := [0];
    assert rs + [3] == [0, 3];
  }

  lemma ReturnToTopRoot0(d: seq<int>)
    requires d == ReturnToTop
    ensures Subtree(d, [[], [], [], [], [], []], 0, 1, 3) == ([[1], [2], [], [], [], []], 2)
  {
    assert |d| == 6 && d[0] == 2 && d[1] == 3 && d[2] == 4 && d[3] == 2 && d[4] == 3 && d[5] == 4;
    ReturnToTopAttach1(d);
  }

  lemma ReturnToTopFrom0(d: seq<int>)
    requires d == ReturnToTop
    ensures RootLoop(d, [[], [], [], [], [], []], 0, []) == Forest([0, 3, 5], [[1], [2], [], [4], [], []])
  {
    assert |d| == 6 && d[0] == 2 && d[1] == 3 && d[2] == 4 && d[3] == 2 && d[4] == 3 && d[5] == 4;
    ReturnToTopFrom3(d);
    ReturnToTopRoot0(d);
    var t0: Children := [[], [], [], [], [], []];
    assert t0[0 := []] == t0;
    var t1: Children := [[1], [2], [], [], [], []];
    assert Subtree(d, t0, 0, 1, 3) == (t1, 2);
    var rs: seq<nat> := [];
    assert rs + [0] == [0];
  }

  lemma ReturnToTopBuilt(d: seq<int>)
    requires d == ReturnToTop
    ensures BuildTree(Some(d)) == Forest([0, 3, 5], [[1], [2], [], [4], [], []])
  {
    ReturnToTopFrom0(d);
    assert NoChildren(6) == [[], [], [], [], [], []];
  }

  lemma ReturnToTopBelow0(d: seq<int>)
    requires d == ReturnToTop
    ensures Preorder(d, [[1], [2], [], [4], [], []], [1], 0) == [1, 2]
  {
    assert |d| == 6 && d[0] == 2 && d[1] == 3 && d[2] == 4 && d[3] == 2 && d[4] == 3 && d[5] == 4;
    var t: Children := [[1], [2], [], [4], [], []];
    assert Preorder(d, t, [2], 1) == [2];
    assert Preorder(d, t, [1], 0) == [1, 2];
  }

  lemma ReturnToTopBelow3(d: seq<int>)
    requires d == ReturnToTop
    ensures Preorder(d, [[1], [2], [], [4], [], []], [4], 3) == [4]
  {
    assert |d| == 6 && d[0] == 2 && d[1] == 3 && d[2] == 4 && d[3] == 2 && d[4] == 3 && d[5] == 4;
    var t: Children := [[1], [2], [], [4], [], []];
    assert Preorder(d, t, [4], 3) == [4];
  }

  lemma ReturnToTopForest(d: seq<int>)
    requires d == ReturnToTop
    ensures Preorder(d, [[1], [2], [], [4], [], []], [0, 3, 5], -1) == [0, 1, 2, 3, 4, 5]
  {
    assert |d| == 6 && d[0] == 2 && d[1] == 3 && d[2] == 4 && d[3] == 2 && d[4] == 3 && d[5] == 4;
    ReturnToTopBelow0(d);
    ReturnToTopBelow3(d);
    var t: Children := [[1], [2], [], [4], [], []];
    assert Preorder(d, t, [5], -1) == [5];
    assert Preorder(d, t, [3, 5], -1) == [3, 4, 5];
    assert Preorder(d, t, [0, 3, 5], -1) == [0, 1, 2, 3, 4, 5];
  }

  lemma ReturnToTopListing()
    ensures Flatten(ReturnToTop) == [0, 1, 2, 3, 4, 5]
  {
    ReturnToTopBuilt(ReturnToTop);
    ReturnToTopForest(ReturnToTop);
  }

  /** The input of the test that checks order in a complex structure (test/components/toc/buildTree.test.ts:206-231). */
  const OrderTest: seq<int> := [2, 3, 4, 4, 3, 2, 3]

  lemma OrderTestAttach3(d: seq<int>)
    requires d == OrderTest
    ensures SubtreeLoop(d, [[1], [2], [], [], [], [], []], 1, 3, 4, 4, 1) == ([[1], [2, 3], [], [], [], [], []], 2)
  {
    assert |d| == 7 && d[0] == 2 && d[1] == 3 && d[2] == 4 && d[3] == 4 && d[4] == 3 && d[5] == 2 && d[6] == 3;
    var t0: Children := [[1], [2], [], [], [], [], []];
    var t1: Children := [[1], [2, 3], [], [], [], [], []];
    assert t0[1] + [3] == [2, 3];
    assert t0[3 := []][1 := t0[1] + [3]] == t1;
    assert Subtree(d, t1, 3, 4, 5) == (t1, 0);
    assert SubtreeLoop(d, t1, 1, 5, 6, 4, 2) == (t1, 2);
  }

  lemma OrderTestAttach2(d: seq<int>)
    requires d == OrderTest
    ensures SubtreeLoop(d, [[1], [], [], [], [], [], []], 1, 2, 3, 4, 0) == ([[1], [2, 3], [], [], [], [], []], 2)
  {
    assert |d| == 7 && d[0] == 2 && d[1] == 3 && d[2] == 4 && d[3] == 4 && d[4] == 3 && d[5] == 2 && d[6] == 3;
    OrderTestAttach3(d);
    var t0: Children := [[1], [], [], [], [], [], []];
    var t1: Children := [[1], [2], [], [], [], [], []];
    var t2: Children := [[1], [2, 3], [], [], [], [], []];
    assert t0[1] + [2] == [2];
    assert t0[2 := []][1 := t0[1] + [2]] == t1;
    assert SubtreeLoop(d, t1, 1, 3, 4, 4, 1) == (t2, 2);
  }

  lemma OrderTestSub2(d: seq<int>)
    requires d == OrderTest
    ensures Subtree(d, [[1], [], [], [], [], [], []], 1, 2, 4) == ([[1], [2, 3], [], [], [], [], []], 2)
  {
    assert |d| == 7 && d[0] == 2 && d[1] == 3 && d[2] == 4 && d[3] == 4 && d[4] == 3 && d[5] == 2 && d[6] == 3;
    OrderTestAttach2(d);
  }

  lemma OrderTestAttach4(d: seq<int>)
    requires d == OrderTest
    ensures SubtreeLoop(d, [[1], [2, 3], [], [], [], [], []], 0, 4, 5, 3, 3) == ([[1, 4], [2, 3], [], [], [], [], []], 4)
  {
    assert |d| == 7 && d[0] == 2 && d[1] == 3 && d[2] == 4 && d[3] == 4 && d[4] == 3 && d[5] == 2 && d[6] == 3;
    var t0: Children := [[1], [2, 3], [], [], [], [], []];
    var t1: Children := [[1, 4], [2, 3], [], [], [], [], []];
    assert t0[0] + [4] == [1, 4];
    assert t0[4 := []][0 := t0[0] + [4]] == t1;
    assert Subtree(d, t1, 4, 5, 4) == (t1, 0);
    assert SubtreeLoop(d, t1, 0, 8, 9, 3, 4) == (t1, 4);
  }

  lemma OrderTestAttach1(d: seq<int>)
    requires d == OrderTest
    ensures SubtreeLoop(d, [[], [], [], [], [], [], []], 0, 1, 2, 3, 0) == ([[1, 4], [2, 3], [], [], [], [], []], 4)
  {
    assert |d| == 7 && d[0] == 2 && d[1] == 3 && d[2] == 4 && d[3] == 4 && d[4] == 3 && d[5] == 2 && d[6] == 3;
    OrderTestSub2(d);
    OrderTestAttach4(d);
    var t0: Children := [[], [], [], [], [], [], []];
    var t1: Children := [[1], [], [], [], [], [], []];
    var t2: Children := [[1], [2, 3], [], [], [], [], []];
    var t3: Children := [[1, 4], [2, 3], [], [], [], [], []];
    assert t0[0] + [1] == [1];
    assert t0[1 := []][0 := t0[0] + [1]] == t1;
    assert Subtree(d, t1, 1, 2, 4) == (t2, 2);
    assert SubtreeLoop(d, t2, 0, 4, 5, 3, 3) == (t3, 4);
  }

  lemma OrderTestFrom6(d: seq<int>)
    requires d == OrderTest
    ensures RootLoop(d, [[1, 4], [2, 3], [], [], [], [], []], 6, [0, 5]) == Forest([0, 5, 6], [[1, 4], [2, 3], [], [], [], [], []])
  {
    assert |d| == 7 && d[0] == 2 && d[1] == 3 && d[2] == 4 && d[3] == 4 && d[4] == 3 && d[5] == 2 && d[6] == 3;
    var t0: Children := [[1, 4], [2, 3], [], [], [], [], []];
    assert t0[6 := []] == t0;
    assert Subtree(d, t0, 6, 7, 4) == (t0, 0);
    var rs: seq<nat> := [0, 5];
    assert rs + [6] == [0, 5, 6];
  }

  lemma OrderTestFrom5(d: seq<int>)
    requires d == OrderTest
    ensures RootLoop(d, [[1, 4], [2, 3], [], [], [], [], []], 5, [0]) == Forest([0, 5, 6], [[1, 4], [2, 3], [], [], [], [], []])
  {
    assert |d| == 7 && d[0] == 2 && d[1] == 3 && d[2] == 4 && d[3] == 4 && d[4] == 3 && d[5] == 2 && d[6] == 3;
    OrderTestFrom6(d);
    var t0: Children := [[1, 4], [2, 3], [], [], [], [], []];
    assert t0[5 := []] == t0;
    assert Subtree(d, t0, 5, 6, 3) == (t0, 0);
    var rs: seq<nat> := [0];
    assert rs + [5] == [0, 5];
  }

  lemma OrderTestRoot0(d: seq<int>)
    requires d == OrderTest
    ensures Subtree(d, [[], [], [], [], [], [], []], 0, 1, 3) == ([[1, 4], [2, 3], [], [], [], [], []], 4)
  {
    assert |d| == 7 && d[0] == 2 && d[1] == 3 && d[2] == 4 && d[3] == 4 && d[4] == 3 && d[5] == 2 && d[6] == 3;
    OrderTestAttach1(d);
  }

  lemma OrderTestFrom0(d: seq<int>)
    requires d == OrderTest
    ensures RootLoop(d, [[], [], [], [], [], [], []], 0, []) == Forest([0, 5, 6], [[1, 4], [2, 3], [], [], [], [], []])
  {
    assert |d| == 7 && d[0] == 2 && d[1] == 3 && d[2] == 4 && d[3] == 4 && d[4] == 3 && d[5] == 2 && d[6] == 3;
    OrderTestFrom5(d);
    OrderTestRoot0(d);
    var t0: Children := [[], [], [], [], [], [], []];
    assert t0[0 := []] == t0;
    var t1: Children := [[1, 4], [2, 3], [], [], [], [], []];
    assert Subtree(d, t0, 0, 1, 3) == (t1, 4);
    var rs: seq<nat> := [];
    assert rs + [0] == [0];
  }

  lemma OrderTestBuilt(d: seq<int>)
    requires d == OrderTest
    ensures BuildTree(Some(d)) == Forest([0, 5, 6], [[1, 4], [2, 3], [], [], [], [], []])
  {
    OrderTestFrom0(d);
    assert NoChildren(7) == [[], [], [], [], [], [], []];
  }

  lemma OrderTestBelow0(d: seq<int>)
    requires d == OrderTest
    ensures Preorder(d, [[1, 4], [2, 3], [], [], [], [], []], [1, 4], 0) == [1, 2, 3, 4]
  {
    assert |d| == 7 && d[0] == 2 && d[1] == 3 && d[2] == 4 && d[3] == 4 && d[4] == 3 && d[5] == 2 && d[6] == 3;
    var t: Children := [[1, 4], [2, 3], [], [], [], [], []];
    assert Preorder(d, t, [3], 1) == [3];
    assert Preorder(d, t, [2, 3], 1) == [2, 3];
    assert Preorder(d, t, [4], 0) == [4];
    assert Preorder(d, t, [1, 4], 0) == [1, 2, 3, 4];
  }

  lemma OrderTestForest(d: seq<int>)
    requires d == OrderTest
    ensures Preorder(d, [[1, 4], [2, 3], [], [], [], [], []], [0, 5, 6], -1) == [0, 1, 2, 3, 4, 5, 6]
  {
    assert |d| == 7 && d[0] == 2 && d[1] == 3 && d[2] == 4 && d[3] == 4 && d[4] == 3 && d[5] == 2 && d[6] == 3;
    OrderTestBelow0(d);
    var t: Children := [[1, 4], [2, 3], [], [], [], [], []];
    assert Preorder(d, t, [6], -1) == [6];
    assert Preorder(d, t, [5, 6], -1) == [5, 6];
    assert Preorder(d, t, [0, 5, 6], -1) == [0, 1, 2, 3, 4, 5, 6];
  }

  lemma OrderTestListing()
    ensures Flatten(OrderTest) == [0, 1, 2, 3, 4, 5, 6]
  {
    OrderTestBuilt(OrderTest);
    OrderTestForest(OrderTest);
  }

  /** On Siblings the pre-order listing drops heading 3 and lists heading 4
      twice: it is not the input order. */
  lemma SiblingsMisordered()
    ensures Flatten(Siblings) != Range(0, |Siblings|)
    ensures 3 !in Flatten(Siblings)
  {
    SiblingsListing();
    assert Flatten(Siblings)[3] == 4 != Range(0, 6)[3];
  }

  /** Yet the heading count on Siblings is right: the duplicate makes up for the heading left out. */
  lemma SiblingsCount()
    ensures CountHeadings(Siblings, BuildTree(Some(Siblings)).children, BuildTree(Some(Siblings)).roots, -1) == 6
  {
    SiblingsBuilt(Siblings);
    SiblingsForest(Siblings);
    CountIsLength(Siblings, [[1, 2, 4], [], [], [], [], []], [0, 4, 5], -1);
  }

  /** The listing assertion of the test at test/components/toc/buildTree.test.ts:247-263:
      the headings come out in input order. */
  lemma ReturnToTopInOrder()
    ensures Flatten(ReturnToTop) == Range(0, |ReturnToTop|)
  {
    ReturnToTopListing();
    assert Range(0, 6) == [0, 1, 2, 3, 4, 5];
  }

  /** The count assertion of the same test: six headings. */
  lemma ReturnToTopCount()
    ensures CountHeadings(ReturnToTop, BuildTree(Some(ReturnToTop)).children, BuildTree(Some(ReturnToTop)).roots, -1) == 6
  {
    ReturnToTopBuilt(ReturnToTop);
    ReturnToTopForest(ReturnToTop);
    CountIsLength(ReturnToTop, [[1], [2], [], [4], [], []], [0, 3, 5], -1);
  }

  /** The listing assertion of the test at test/components/toc/buildTree.test.ts:206-231:
      the headings come out in input order. */
  lemma OrderTestInOrder()
    ensures Flatten(OrderTest) == Range(0, |OrderTest|)
  {
    OrderTestListing();
    assert Range(0, 7) == [0, 1, 2, 3, 4, 5, 6];
  }

  /** The count assertion of the same test: seven headings. */
  lemma OrderTestCount()
    ensures CountHeadings(OrderTest, BuildTree(Some(OrderTest)).children, BuildTree(Some(OrderTest)).roots, -1) == 7
  {
    OrderTestBuilt(OrderTest);
    OrderTestForest(OrderTest);
    CountIsLength(OrderTest, [[1, 4], [2, 3], [], [], [], [], []], [0, 5, 6], -1);
  }

}

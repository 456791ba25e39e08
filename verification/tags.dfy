/**
 * Tag aggregation over the blog posts (src/components/tags/getTags.ts):
 * the sorted list of distinct tags and the number of times each tag is
 * used. A post's tag list may be absent, which counts as no tags.
 */
module Tags {
  import opened Wrappers

  /** The `tags` field of one post. */
  type TagList = Option<seq<string>>

  // ------------------------------------------------------------ all tags

  /** `posts.flatMap((post) => post.data.tags || [])`. */
  function AllTags(posts: seq<TagList>): (r: seq<string>)
    ensures |r| == TagCount(posts)
  {
    if posts == [] then []
    else Tags(posts[0]) + AllTags(posts[1..])
  }

  /** One post's tags, empty when absent. */
  function Tags(post: TagList): seq<string> {
    match post
    case None => []
    case Some(ts) => ts
  }

  /** The total number of tags over the posts, duplicates included. */
  function TagCount(posts: seq<TagList>): nat {
    if posts == [] then 0 else |Tags(posts[0])| + TagCount(posts[1..])
  }

  /** t is a tag of the p-th post. */
  predicate TagOf(posts: seq<TagList>, p: int, t: string) {
    0 <= p < |posts| && t in Tags(posts[p])
  }

  /** A string is among all the tags iff some post carries it. */
  lemma {:induction false} InAllTags(posts: seq<TagList>, t: string)
    ensures t in AllTags(posts) <==> exists p :: TagOf(posts, p, t)
  {
    if posts != [] {
      InAllTags(posts[1..], t);
      assert AllTags(posts) == Tags(posts[0]) + AllTags(posts[1..]);
      if t in Tags(posts[0]) {
        assert TagOf(posts, 0, t);
      }
      if t in AllTags(posts[1..]) {
        var p :| TagOf(posts[1..], p, t);
        assert TagOf(posts, p + 1, t);
      }
      if exists p :: TagOf(posts, p, t) {
        var p :| TagOf(posts, p, t);
        if p > 0 {
          assert TagOf(posts[1..], p - 1, t);
        } else {
          assert t in Tags(posts[0]);
        }
      }
    }
  }

  // ------------------------------------------------------- string order

  /** `a <= b` in the order Array.prototype.sort uses for strings:
      character by character, a proper prefix first. */
  predicate NotAfter(a: string, b: string) {
    a == [] || (b != [] && (a[0] < b[0] || (a[0] == b[0] && NotAfter(a[1..], b[1..]))))
  }

  /** Any two strings are ordered one way or the other. */
  lemma {:induction false} NotAfterTotal(a: string, b: string)
    ensures NotAfter(a, b) || NotAfter(b, a)
  {
    if a != [] && b != [] && a[0] == b[0] {
      NotAfterTotal(a[1..], b[1..]);
    }
  }

  /** Ordered both ways means equal. */
  lemma {:induction false} NotAfterAntisymmetric(a: string, b: string)
    requires NotAfter(a, b) && NotAfter(b, a)
    ensures a == b
  {
    if a != [] {
      NotAfterAntisymmetric(a[1..], b[1..]);
      assert a == [a[0]] + a[1..] && b == [b[0]] + b[1..];
    }
  }

  /** The order is transitive. */
  lemma {:induction false} NotAfterTransitive(a: string, b: string, c: string)
    requires NotAfter(a, b) && NotAfter(b, c)
    ensures NotAfter(a, c)
  {
    if a != [] && a[0] == b[0] && b[0] == c[0] {
      NotAfterTransitive(a[1..], b[1..], c[1..]);
    }
  }

  /** Non-decreasing in that order. */
  predicate Sorted(s: seq<string>) {
    forall i, j :: 0 <= i < j < |s| ==> NotAfter(s[i], s[j])
  }

  /** No string twice. */
  predicate Distinct(s: seq<string>) {
    forall i, j :: 0 <= i < j < |s| ==> s[i] != s[j]
  }

  // --------------------------------------------------------- unique tags

  /** `[...new Set(s)]`: each string at its first occurrence. */
  function Dedup(s: seq<string>): (r: seq<string>)
    ensures Distinct(r)
    ensures forall t :: t in r <==> t in s
    decreases |s|
  {
    if s == [] then []
    else
      var init := Dedup(s[..|s| - 1]);
      assert forall t :: t in s <==> t in s[..|s| - 1] || t == s[|s| - 1];
      if s[|s| - 1] in init then init else init + [s[|s| - 1]]
  }

  /** Puts x into a sorted list. */
  function Insert(x: string, s: seq<string>): (r: seq<string>)
    requires Sorted(s)
    ensures Sorted(r)
    ensures multiset(r) == multiset(s) + multiset{x}
    ensures forall j :: 0 <= j < |r| ==> r[j] == x || r[j] in s
  {
    if s == [] then [x]
    else if NotAfter(x, s[0]) then
      assert forall j :: 0 < j < |s| ==> NotAfter(x, s[j]) by {
        forall j | 0 < j < |s| ensures NotAfter(x, s[j]) {
          NotAfterTransitive(x, s[0], s[j]);
        }
      }
      [x] + s
    else
      var rest := Insert(x, s[1..]);
      NotAfterTotal(x, s[0]);
      assert s == [s[0]] + s[1..];
      assert forall j :: 0 <= j < |rest| ==> NotAfter(s[0], rest[j]) by {
        forall j | 0 <= j < |rest| ensures NotAfter(s[0], rest[j]) {
          if rest[j] != x {
            var k :| 0 <= k < |s[1..]| && s[1..][k] == rest[j];
            assert s[k + 1] == rest[j];
          }
        }
      }
      [s[0]] + rest
  }

  /** `Array.prototype.sort()` on strings: a sorted rearrangement. */
  function Sort(s: seq<string>): (r: seq<string>)
    ensures Sorted(r)
    ensures multiset(r) == multiset(s)
  {
    if s == [] then []
    else
      assert s == [s[0]] + s[1..];
      Insert(s[0], Sort(s[1..]))
  }

  /** getUniqueTags over the posts' tag lists. */
  function UniqueTags(posts: seq<TagList>): (r: seq<string>)
    ensures Sorted(r) && Distinct(r)
    ensures forall t :: t in r <==> t in AllTags(posts)
  {
    var d := Dedup(AllTags(posts));
    var r := Sort(d);
    assert forall t :: t in r <==> t in d by {
      forall t ensures t in r <==> t in d {
        assert t in r <==> t in multiset(r);
        assert t in d <==> t in multiset(d);
      }
    }
    assert Distinct(r) by {
      forall i, j | 0 <= i < j < |r| ensures r[i] != r[j] {
        if r[i] == r[j] {
          DistinctCount(d, r[i]);
          assert multiset(r)[r[i]] >= 2 by {
            TwiceCounted(r, i, j);
          }
        }
      }
    }
    r
  }

  /** A distinct list holds each string at most once. */
  lemma {:induction false} DistinctCount(s: seq<string>, t: string)
    requires Distinct(s)
    ensures multiset(s)[t] <= 1
    decreases |s|
  {
    if s != [] {
      var init := s[..|s| - 1];
      assert s == init + [s[|s| - 1]];
      DistinctCount(init, t);
      if t == s[|s| - 1] {
        assert t !in init;
      }
    }
  }

  /** A string at two positions is counted at least twice. */
  lemma TwiceCounted(s: seq<string>, i: nat, j: nat)
    requires i < j < |s| && s[i] == s[j]
    ensures multiset(s)[s[i]] >= 2
  {
    assert s == s[..i] + [s[i]] + s[i + 1..j] + [s[j]] + s[j + 1..];
  }

  /** The unique tags are sorted strictly: each comes before the next. */
  lemma StrictlyAscending(posts: seq<TagList>, i: nat, j: nat)
    requires i < j < |UniqueTags(posts)|
    ensures NotAfter(UniqueTags(posts)[i], UniqueTags(posts)[j])
    ensures !NotAfter(UniqueTags(posts)[j], UniqueTags(posts)[i])
  {
    var r := UniqueTags(posts);
    if NotAfter(r[j], r[i]) {
      NotAfterAntisymmetric(r[i], r[j]);
    }
  }

  /** A string is a unique tag iff some post carries it. */
  lemma UniqueTagsOfPosts(posts: seq<TagList>, t: string)
    ensures t in UniqueTags(posts) <==> exists p :: TagOf(posts, p, t)
  {
    InAllTags(posts, t);
  }

  // --------------------------------------------------------- occurrences

  /** The reduce step `acc[tag] = (acc[tag] || 0) + 1` over the tags in
      order. */
  function Tally(acc: map<string, nat>, tags: seq<string>): (r: map<string, nat>)
    decreases |tags|
  {
    if tags == [] then acc
    else
      var tag := tags[0];
      var seen := if tag in acc then acc[tag] else 0;
      Tally(acc[tag := seen + 1], tags[1..])
  }

  /** Tallying adds each string's number of occurrences to its count and
      keeps the strings already counted. */
  lemma {:induction false} TallyCounts(acc: map<string, nat>, tags: seq<string>)
    ensures forall t :: t in Tally(acc, tags) <==> t in acc || t in tags
    ensures forall t :: t in Tally(acc, tags) ==>
      Tally(acc, tags)[t] == (if t in acc then acc[t] else 0) + multiset(tags)[t]
    decreases |tags|
  {
    if tags != [] {
      var tag := tags[0];
      var seen := if tag in acc then acc[tag] else 0;
      TallyCounts(acc[tag := seen + 1], tags[1..]);
      assert tags == [tag] + tags[1..];
      assert forall t :: t in tags <==> t == tag || t in tags[1..];
    }
  }

  /** getUniqueOccurences over the posts' tag lists. */
  function Occurrences(posts: seq<TagList>): (r: map<string, nat>)
    ensures forall t :: t in r <==> t in AllTags(posts)
    ensures forall t :: t in r ==> r[t] == multiset(AllTags(posts))[t] && r[t] >= 1
  {
    var all := AllTags(posts);
    TallyCounts(map[], all);
    Tally(map[], all)
  }

  /** The occurrence keys are exactly the unique tags. */
  lemma KeysAreUniqueTags(posts: seq<TagList>)
    ensures Occurrences(posts).Keys == set t | t in UniqueTags(posts)
  {
  }

  /** The sum of the counts of the given keys. */
  function SumOver(m: map<string, nat>, keys: seq<string>): nat
    requires forall k :: k in keys ==> k in m
  {
    if keys == [] then 0 else m[keys[0]] + SumOver(m, keys[1..])
  }

  /** The number of occurrences summed over the given strings. */
  function CountOver(keys: seq<string>, tags: multiset<string>): nat {
    if keys == [] then 0 else tags[keys[0]] + CountOver(keys[1..], tags)
  }

  /** One more tag adds one to the sum over distinct keys holding it. */
  lemma {:induction false} CountOverAdd(keys: seq<string>, tags: multiset<string>, x: string)
    requires Distinct(keys)
    ensures CountOver(keys, tags + multiset{x}) == CountOver(keys, tags) + (if x in keys then 1 else 0)
  {
    if keys != [] {
      assert Distinct(keys[1..]);
      CountOverAdd(keys[1..], tags, x);
      if x == keys[0] {
        assert x !in keys[1..];
      }
      assert x in keys <==> x == keys[0] || x in keys[1..];
    }
  }

  /** Summed over distinct keys that cover every tag, the occurrences
      add up to the number of tags. */
  lemma {:induction false} CountOverAll(keys: seq<string>, tags: seq<string>)
    requires Distinct(keys)
    requires forall t :: t in tags ==> t in keys
    ensures CountOver(keys, multiset(tags)) == |tags|
    decreases |tags|
  {
    if tags == [] {
      CountOverEmpty(keys);
    } else {
      var init := tags[..|tags| - 1];
      var x := tags[|tags| - 1];
      assert tags == init + [x];
      CountOverAll(keys, init);
      CountOverAdd(keys, multiset(init), x);
    }
  }

  /** No tags, no occurrences. */
  lemma {:induction false} CountOverEmpty(keys: seq<string>)
    ensures CountOver(keys, multiset{}) == 0
  {
    if keys != [] {
      CountOverEmpty(keys[1..]);
    }
  }

  /** A map holding the occurrences gives the same sum. */
  lemma {:induction false} SumIsCount(m: map<string, nat>, keys: seq<string>, tags: multiset<string>)
    requires forall k :: k in keys ==> k in m && m[k] == tags[k]
    ensures SumOver(m, keys) == CountOver(keys, tags)
  {
    if keys != [] {
      SumIsCount(m, keys[1..], tags);
    }
  }

  /** The counts, summed over the unique tags, give the total number of
      tags across the posts. */
  lemma CountsSumToTotal(posts: seq<TagList>)
    ensures SumOver(Occurrences(posts), UniqueTags(posts)) == TagCount(posts)
  {
    var keys := UniqueTags(posts);
    var all := AllTags(posts);
    SumIsCount(Occurrences(posts), keys, multiset(all));
    CountOverAll(keys, all);
  }
}

/** The stable sort of line 63, `used.sort(key=lambda x: x["weight"], reverse=True)`:
    entries end up in non-increasing weight, and entries of equal weight keep
    their relative order (Python's sort stays stable under `reverse=True`). */
module Ranking {
  import opened Provenance

  ghost predicate NonIncreasing(s: seq<Entry>) {
    forall i, j :: 0 <= i < j < |s| ==> s[i].weight >= s[j].weight
  }

  lemma {:induction false} NonIncreasingSnoc(s: seq<Entry>, e: Entry)
    requires NonIncreasing(s)
    requires forall i :: 0 <= i < |s| ==> s[i].weight >= e.weight
    ensures NonIncreasing(s + [e])
  {
  }

  /** The entries of weight `w`, in their order in `s`. */
  function WithWeight(s: seq<Entry>, w: int): seq<Entry> {
    if |s| == 0 then []
    else WithWeight(s[..|s| - 1], w) + (if s[|s| - 1].weight == w then [s[|s| - 1]] else [])
  }

  lemma {:induction false} WithWeightSnoc(s: seq<Entry>, e: Entry, w: int)
    ensures WithWeight(s + [e], w) == WithWeight(s, w) + (if e.weight == w then [e] else [])
  {
    assert (s + [e])[..|s|] == s;
  }

  /** Inserts `e` after every entry of weight at least its own. */
  function Insert(sorted: seq<Entry>, e: Entry): (r: seq<Entry>)
    ensures |r| == |sorted| + 1
  {
    if |sorted| == 0 || sorted[|sorted| - 1].weight >= e.weight then sorted + [e]
    else Insert(sorted[..|sorted| - 1], e) + [sorted[|sorted| - 1]]
  }

  lemma {:induction false} InsertPermutes(sorted: seq<Entry>, e: Entry)
    ensures multiset(Insert(sorted, e)) == multiset(sorted) + multiset{e}
  {
    if |sorted| > 0 && sorted[|sorted| - 1].weight < e.weight {
      var init := sorted[..|sorted| - 1];
      InsertPermutes(init, e);
      assert sorted == init + [sorted[|sorted| - 1]];
    }
  }

  lemma {:induction false} InsertKeepsOrder(sorted: seq<Entry>, e: Entry)
    requires NonIncreasing(sorted)
    ensures NonIncreasing(Insert(sorted, e))
  {
    if |sorted| > 0 && sorted[|sorted| - 1].weight < e.weight {
      var last := sorted[|sorted| - 1];
      var init := sorted[..|sorted| - 1];
      var mid := Insert(init, e);
      InsertKeepsOrder(init, e);
      InsertPermutes(init, e);
      forall i | 0 <= i < |mid|
        ensures mid[i].weight >= last.weight
      {
        assert mid[i] in multiset(mid);
        if mid[i] != e {
          assert mid[i] in multiset(init);
          var k :| 0 <= k < |init| && init[k] == mid[i];
          assert sorted[k] == init[k];
        }
      }
      assert Insert(sorted, e) == mid + [last];
    }
  }

  lemma {:induction false} InsertKeepsWeightOrder(sorted: seq<Entry>, e: Entry, w: int)
    ensures WithWeight(Insert(sorted, e), w) == WithWeight(sorted, w) + (if e.weight == w then [e] else [])
  {
    if |sorted| == 0 || sorted[|sorted| - 1].weight >= e.weight {
      WithWeightSnoc(sorted, e, w);
    } else {
      var last := sorted[|sorted| - 1];
      var init := sorted[..|sorted| - 1];
      InsertKeepsWeightOrder(init, e, w);
      WithWeightSnoc(Insert(init, e), last, w);
      WithWeightSnoc(init, last, w);
      assert sorted == init + [last];
    }
  }

  /** The stable descending sort by weight. */
  function SortByWeight(s: seq<Entry>): (r: seq<Entry>)
    ensures |r| == |s|
  {
    if |s| == 0 then [] else Insert(SortByWeight(s[..|s| - 1]), s[|s| - 1])
  }

  /** The sort is a permutation whose weights never increase. */
  lemma {:induction false} SortOrdersByWeight(s: seq<Entry>)
    ensures NonIncreasing(SortByWeight(s))
    ensures multiset(SortByWeight(s)) == multiset(s)
  {
    if |s| > 0 {
      var init := s[..|s| - 1];
      SortOrdersByWeight(init);
      InsertKeepsOrder(SortByWeight(init), s[|s| - 1]);
      InsertPermutes(SortByWeight(init), s[|s| - 1]);
      assert s == init + [s[|s| - 1]];
    }
  }

  /** Stability: the entries of any one weight appear in the order they had. */
  lemma {:induction false} SortIsStable(s: seq<Entry>, w: int)
    ensures WithWeight(SortByWeight(s), w) == WithWeight(s, w)
  {
    if |s| > 0 {
      var init, last := s[..|s| - 1], s[|s| - 1];
      var sorted := SortByWeight(init);
      var tail := if last.weight == w then [last] else [];
      assert SortByWeight(s) == Insert(sorted, last);
      calc {
        WithWeight(Insert(sorted, last), w);
        { InsertKeepsWeightOrder(sorted, last, w); }
        WithWeight(sorted, w) + tail;
        { SortIsStable(init, w); }
        WithWeight(init, w) + tail;
        { WithWeightSnoc(init, last, w); }
        WithWeight(init + [last], w);
        { assert init + [last] == s; }
        WithWeight(s, w);
      }
    }
  }

  /** A list already in non-increasing weight order is left exactly as it is. */
  lemma {:induction false} SortedIsFixpoint(s: seq<Entry>)
    requires NonIncreasing(s)
    ensures SortByWeight(s) == s
  {
    if |s| > 0 {
      var init := s[..|s| - 1];
      assert NonIncreasing(init);
      SortedIsFixpoint(init);
      assert s == init + [s[|s| - 1]];
    }
  }
}

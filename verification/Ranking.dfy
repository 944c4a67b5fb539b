/** Score-ordered hit lists: stable sorting, merging, paging and one-per-partition grouping. */
module Ranking {

  /** A search hit; scores are ordered reals, so not-a-number never occurs. */
  datatype SearchHit = SearchHit(id: string, score: real, payload: string, partition: string)

  type Hits = seq<SearchHit>

  ghost predicate Sorted(xs: Hits) {
    forall i, j :: 0 <= i < j < |xs| ==> xs[i].score >= xs[j].score
  }

  /** Stable merge: on equal scores the left list goes first. */
  function Merge(xs: Hits, ys: Hits): Hits
    decreases |xs| + |ys|
  {
    if xs == [] then ys
    else if ys == [] then xs
    else if xs[0].score >= ys[0].score then [xs[0]] + Merge(xs[1..], ys)
    else [ys[0]] + Merge(xs, ys[1..])
  }

  /** `sort_by` on descending score, which is stable. */
  function StableSort(xs: Hits): Hits {
    if xs == [] then [] else Merge([xs[0]], StableSort(xs[1..]))
  }

  function Take(xs: Hits, k: nat): Hits {
    if k < |xs| then xs[..k] else xs
  }

  /** `skip(offset).take(limit)`. */
  function Page(xs: Hits, offset: nat, limit: nat): Hits {
    if offset >= |xs| then [] else Take(xs[offset..], limit)
  }

  function Flatten(lists: seq<Hits>): Hits {
    if lists == [] then [] else lists[0] + Flatten(lists[1..])
  }

  // ------------------------------------------------------------------------
  // Sorting and merging
  // ------------------------------------------------------------------------

  lemma {:induction false} MergeMembers(xs: Hits, ys: Hits)
    ensures multiset(Merge(xs, ys)) == multiset(xs) + multiset(ys)
    decreases |xs| + |ys|
  {
    if xs != [] && ys != [] {
      assert xs == [xs[0]] + xs[1..] && ys == [ys[0]] + ys[1..];
      if xs[0].score >= ys[0].score {
        MergeMembers(xs[1..], ys);
      } else {
        MergeMembers(xs, ys[1..]);
      }
    }
  }

  /** No element scores above the bound. */
  ghost predicate AtMost(xs: Hits, bound: real) {
    forall i :: 0 <= i < |xs| ==> xs[i].score <= bound
  }

  lemma SortedCons(x: SearchHit, xs: Hits)
    requires Sorted(xs) && AtMost(xs, x.score)
    ensures Sorted([x] + xs)
  {
  }

  lemma {:induction false} MergeSorted(xs: Hits, ys: Hits)
    requires Sorted(xs) && Sorted(ys)
    ensures Sorted(Merge(xs, ys))
    ensures forall bound: real :: AtMost(xs, bound) && AtMost(ys, bound) ==> AtMost(Merge(xs, ys), bound)
    decreases |xs| + |ys|
  {
    if xs != [] && ys != [] {
      if xs[0].score >= ys[0].score {
        MergeSorted(xs[1..], ys);
        SortedCons(xs[0], Merge(xs[1..], ys));
      } else {
        MergeSorted(xs, ys[1..]);
        SortedCons(ys[0], Merge(xs, ys[1..]));
      }
    }
  }

  lemma {:induction false} StableSortSorted(xs: Hits)
    ensures Sorted(StableSort(xs)) && multiset(StableSort(xs)) == multiset(xs)
  {
    if xs != [] {
      StableSortSorted(xs[1..]);
      MergeSorted([xs[0]], StableSort(xs[1..]));
      MergeMembers([xs[0]], StableSort(xs[1..]));
      assert xs == [xs[0]] + xs[1..];
    }
  }

  lemma {:induction false} SortOfSorted(xs: Hits)
    requires Sorted(xs)
    ensures StableSort(xs) == xs
  {
    if xs != [] {
      SortOfSorted(xs[1..]);
      var rest := xs[1..];
      assert [xs[0]][1..] == [];
      assert rest != [] ==> Merge([xs[0]], rest) == [xs[0]] + Merge([], rest);
      assert xs == [xs[0]] + rest;
    }
  }

  lemma {:induction false} MergeAssociative(xs: Hits, ys: Hits, zs: Hits)
    requires Sorted(xs) && Sorted(ys) && Sorted(zs)
    ensures Merge(Merge(xs, ys), zs) == Merge(xs, Merge(ys, zs))
    decreases |xs| + |ys| + |zs|
  {
    if xs != [] && ys != [] && zs != [] {
      var xy, yz := Merge(xs, ys), Merge(ys, zs);
      if xs[0].score >= ys[0].score {
        assert xy[1..] == Merge(xs[1..], ys);
        if xs[0].score >= zs[0].score {
          MergeAssociative(xs[1..], ys, zs);
        } else {
          assert yz[1..] == Merge(ys, zs[1..]);
          MergeAssociative(xs, ys, zs[1..]);
        }
      } else {
        assert xy[1..] == Merge(xs, ys[1..]);
        if ys[0].score >= zs[0].score {
          assert yz[1..] == Merge(ys[1..], zs);
          MergeAssociative(xs, ys[1..], zs);
        } else {
          assert yz[1..] == Merge(ys, zs[1..]);
          MergeAssociative(xs, ys, zs[1..]);
        }
      }
    }
  }

  lemma {:induction false} SortOfAppend(xs: Hits, ys: Hits)
    ensures StableSort(xs + ys) == Merge(StableSort(xs), StableSort(ys))
  {
    if xs == [] {
      assert xs + ys == ys;
    } else {
      assert (xs + ys)[1..] == xs[1..] + ys;
      SortOfAppend(xs[1..], ys);
      StableSortSorted(xs[1..]);
      StableSortSorted(ys);
      MergeAssociative([xs[0]], StableSort(xs[1..]), StableSort(ys));
    }
  }

  /** The hits of one score, in order. */
  function WithScore(xs: Hits, score: real): Hits {
    if xs == [] then []
    else (if xs[0].score == score then [xs[0]] else []) + WithScore(xs[1..], score)
  }

  lemma {:induction false} MergeStable(xs: Hits, ys: Hits, score: real)
    requires Sorted(xs) && Sorted(ys)
    ensures WithScore(Merge(xs, ys), score) == WithScore(xs, score) + WithScore(ys, score)
    decreases |xs| + |ys|
  {
    if xs != [] && ys != [] {
      if xs[0].score >= ys[0].score {
        MergeStable(xs[1..], ys, score);
        var rest := Merge(xs[1..], ys);
        assert ([xs[0]] + rest)[1..] == rest;
      } else {
        MergeStable(xs, ys[1..], score);
        var rest := Merge(xs, ys[1..]);
        assert ([ys[0]] + rest)[1..] == rest;
        if ys[0].score == score {
          NoneAbove(xs, score);
        }
      }
    }
  }

  lemma {:induction false} NoneAbove(xs: Hits, score: real)
    requires forall i :: 0 <= i < |xs| ==> xs[i].score < score
    ensures WithScore(xs, score) == []
  {
    if xs != [] {
      NoneAbove(xs[1..], score);
    }
  }

  lemma WithScoreOne(x: SearchHit, score: real)
    ensures WithScore([x], score) == if x.score == score then [x] else []
  {
    assert [x][1..] == [];
  }

  lemma {:induction false} StableSortStable(xs: Hits, score: real)
    ensures WithScore(StableSort(xs), score) == WithScore(xs, score)
  {
    if xs != [] {
      StableSortStable(xs[1..], score);
      StableSortSorted(xs[1..]);
      MergeStable([xs[0]], StableSort(xs[1..]), score);
      WithScoreOne(xs[0], score);
    }
  }

  ghost predicate IsStableSortOf(xs: Hits, ys: Hits) {
    Sorted(ys) && forall score: real :: WithScore(ys, score) == WithScore(xs, score)
  }

  /** Sorting is determined by order and stability alone. */
  lemma StableSortUnique(xs: Hits, ys: Hits)
    ensures ys == StableSort(xs) <==> IsStableSortOf(xs, ys)
  {
    var zs := StableSort(xs);
    StableSortSorted(xs);
    forall score: real
      ensures WithScore(zs, score) == WithScore(xs, score)
    {
      StableSortStable(xs, score);
    }
    if IsStableSortOf(xs, ys) {
      SameScoresSameList(ys, zs);
    }
  }

  lemma {:induction false} HeadOfScore(xs: Hits)
    requires xs != []
    ensures WithScore(xs, xs[0].score) != [] && WithScore(xs, xs[0].score)[0] == xs[0]
  {
  }

  lemma {:induction false} ScoreOccurs(xs: Hits, score: real)
    ensures WithScore(xs, score) != [] ==> exists i :: 0 <= i < |xs| && xs[i].score == score
  {
    if xs != [] {
      ScoreOccurs(xs[1..], score);
      if xs[0].score != score && WithScore(xs, score) != [] {
        var i :| 0 <= i < |xs[1..]| && xs[1..][i].score == score;
        assert xs[i + 1].score == score;
      }
    }
  }

  lemma {:induction false} SameScoresSameList(xs: Hits, ys: Hits)
    requires Sorted(xs) && Sorted(ys)
    requires forall score :: WithScore(xs, score) == WithScore(ys, score)
    ensures xs == ys
    decreases |xs|
  {
    if xs == [] || ys == [] {
      if xs != [] {
        HeadOfScore(xs);
      }
      if ys != [] {
        HeadOfScore(ys);
      }
    } else {
      HeadOfScore(xs);
      HeadOfScore(ys);
      ScoreOccurs(xs, ys[0].score);
      ScoreOccurs(ys, xs[0].score);
      assert xs[0].score == ys[0].score;
      forall score
        ensures WithScore(xs[1..], score) == WithScore(ys[1..], score)
      {
        var u, v := WithScore(xs, score), WithScore(ys, score);
        assert u == v;
        if xs[0].score == score {
          assert u[1..] == WithScore(xs[1..], score) && v[1..] == WithScore(ys[1..], score);
        } else {
          assert u == WithScore(xs[1..], score) && v == WithScore(ys[1..], score);
        }
      }
      SameScoresSameList(xs[1..], ys[1..]);
    }
  }

  // ------------------------------------------------------------------------
  // The best k
  // ------------------------------------------------------------------------

  lemma TakeOfLeftHead(xs: Hits, ys: Hits, k: nat)
    requires k > 0 && xs != [] && (ys == [] || xs[0].score >= ys[0].score)
    ensures Take(Merge(xs, ys), k) == [xs[0]] + Take(Merge(xs[1..], ys), k - 1)
  {
    if ys == [] {
      assert Merge(xs, ys) == [xs[0]] + xs[1..];
    }
    TakeOfCons(xs[0], Merge(xs[1..], ys), k);
  }

  lemma TakeOfRightHead(xs: Hits, ys: Hits, k: nat)
    requires k > 0 && xs != [] && ys != [] && xs[0].score < ys[0].score
    ensures Take(Merge(xs, ys), k) == [ys[0]] + Take(Merge(xs, ys[1..]), k - 1)
  {
    TakeOfCons(ys[0], Merge(xs, ys[1..]), k);
  }

  lemma TakeOfTake(xs: Hits, k: nat, a: nat)
    requires k <= a
    ensures Take(Take(xs, a), k) == Take(xs, k)
  {
  }

  lemma {:induction false} TakeOfLeft(xs: Hits, ys: Hits, k: nat, a: nat)
    requires k <= a
    ensures Take(Merge(Take(xs, a), ys), k) == Take(Merge(xs, ys), k)
    decreases k
  {
    if ys == [] {
      TakeOfTake(xs, k, a);
    } else if k > 0 && xs != [] {
      TakeTail(xs, a);
      if xs[0].score >= ys[0].score {
        TakeOfLeftHead(xs, ys, k);
        TakeOfLeftHead(Take(xs, a), ys, k);
        TakeOfLeft(xs[1..], ys, k - 1, a - 1);
      } else {
        TakeOfRightHead(xs, ys, k);
        TakeOfRightHead(Take(xs, a), ys, k);
        TakeOfLeft(xs, ys[1..], k - 1, a);
      }
    }
  }

  lemma {:induction false} TakeOfRight(xs: Hits, ys: Hits, k: nat, b: nat)
    requires k <= b
    ensures Take(Merge(xs, Take(ys, b)), k) == Take(Merge(xs, ys), k)
    decreases k
  {
    if xs == [] {
      TakeOfTake(ys, k, b);
    } else if k > 0 && ys != [] {
      var best := Take(ys, b);
      TakeTail(ys, b);
      assert best != [] && best[0] == ys[0] && best[1..] == Take(ys[1..], b - 1);
      if xs[0].score >= ys[0].score {
        TakeOfLeftHead(xs, ys, k);
        TakeOfLeftHead(xs, best, k);
        TakeOfRight(xs[1..], ys, k - 1, b);
      } else {
        TakeOfRightHead(xs, ys, k);
        TakeOfRightHead(xs, best, k);
        TakeOfRight(xs, ys[1..], k - 1, b - 1);
      }
    }
  }

  /** The best `k` of a merge depend on the best `k` of each side only. */
  lemma TakeOfMerge(xs: Hits, ys: Hits, k: nat)
    ensures Take(Merge(xs, ys), k) == Take(Merge(Take(xs, k), Take(ys, k)), k)
  {
    TakeOfLeft(xs, ys, k, k);
    TakeOfRight(Take(xs, k), ys, k, k);
  }

  lemma TakeTail(xs: Hits, k: nat)
    requires xs != [] && k > 0
    ensures Take(xs, k) != [] && Take(xs, k)[0] == xs[0] && Take(xs, k)[1..] == Take(xs[1..], k - 1)
  {
  }

  lemma TakeOfCons(x: SearchHit, xs: Hits, k: nat)
    requires k > 0
    ensures Take([x] + xs, k) == [x] + Take(xs, k - 1)
  {
  }

  function TakeEach(lists: seq<Hits>, k: nat): seq<Hits> {
    if lists == [] then [] else [Take(lists[0], k)] + TakeEach(lists[1..], k)
  }

  ghost predicate AllSorted(lists: seq<Hits>) {
    forall i :: 0 <= i < |lists| ==> Sorted(lists[i])
  }

  lemma {:induction false} TakeOfSort(lists: seq<Hits>, k: nat)
    requires AllSorted(lists)
    ensures Take(StableSort(Flatten(TakeEach(lists, k))), k) == Take(StableSort(Flatten(lists)), k)
  {
    if lists != [] {
      var l, rest := lists[0], lists[1..];
      var short, shortRest := Take(l, k), TakeEach(rest, k);
      TakeOfSort(rest, k);
      SortOfAppend(l, Flatten(rest));
      SortOfAppend(short, Flatten(shortRest));
      SortOfSorted(l);
      SortOfSorted(short);
      TakeOfMerge(l, StableSort(Flatten(rest)), k);
      TakeOfMerge(short, StableSort(Flatten(shortRest)), k);
      TakeOfTake(l, k, k);
      assert ([short] + shortRest)[1..] == shortRest;
    }
  }

  /** A page needs no more than the best offset + limit. */
  /** A page holds the hits from its offset on, as many as there are up to its limit. */
  lemma PageHolds(xs: Hits, offset: nat, limit: nat)
    ensures var page := Page(xs, offset, limit);
            |page| == (if |xs| <= offset then 0 else if |xs| - offset < limit then |xs| - offset else limit) &&
            forall i :: 0 <= i < |page| ==> page[i] == xs[offset + i]
  {
  }

  lemma PageOfTake(xs: Hits, offset: nat, limit: nat)
    ensures Page(xs, offset, limit) == Page(Take(xs, offset + limit), offset, limit)
  {
  }

  lemma SamePages(xs: Hits, ys: Hits, offset: nat, limit: nat)
    requires Take(xs, limit + offset) == Take(ys, limit + offset)
    ensures Page(xs, offset, limit) == Page(ys, offset, limit)
  {
    PageOfTake(xs, offset, limit);
    PageOfTake(ys, offset, limit);
  }

  // ------------------------------------------------------------------------
  // One hit per partition
  // ------------------------------------------------------------------------

  /** The first hit of every partition not seen before. */
  function FirstOfEach(xs: Hits, seen: set<string>): Hits {
    if xs == [] then []
    else if xs[0].partition in seen then FirstOfEach(xs[1..], seen)
    else [xs[0]] + FirstOfEach(xs[1..], seen + {xs[0].partition})
  }

  function FirstPerPartition(xs: Hits): Hits {
    FirstOfEach(xs, {})
  }

  /** The grouping loop of the node's search. */
  method GroupByPartition(allScored: Hits) returns (grouped: Hits)
    ensures grouped == FirstPerPartition(allScored)
  {
    var seen: set<string> := {};
    grouped := [];
    for i := 0 to |allScored|
      invariant grouped + FirstOfEach(allScored[i..], seen) == FirstPerPartition(allScored)
    {
      var hit := allScored[i];
      assert allScored[i..][1..] == allScored[i + 1..];
      if hit.partition !in seen {
        seen := seen + {hit.partition};
        grouped := grouped + [hit];
      }
    }
  }

  /** Position `i` holds `x`, the first hit of its partition. */
  ghost predicate FirstAt(xs: Hits, x: SearchHit, i: nat) {
    i < |xs| && xs[i] == x && forall j :: 0 <= j < i ==> xs[j].partition != x.partition
  }

  lemma FirstAtCons(xs: Hits, x: SearchHit, i: nat)
    requires xs != []
    ensures FirstAt(xs, x, i) <==>
            if i == 0 then x == xs[0] else x.partition != xs[0].partition && FirstAt(xs[1..], x, i - 1)
  {
    if i > 0 && i < |xs| {
      assert forall j :: 1 <= j < i ==> xs[1..][j - 1] == xs[j];
      if FirstAt(xs[1..], x, i - 1) && x.partition != xs[0].partition {
        forall j | 0 <= j < i
          ensures xs[j].partition != x.partition
        {
          assert j > 0 ==> xs[1..][j - 1].partition != x.partition;
        }
      }
    }
  }

  /** Exactly the first hits of partitions not seen before are kept. */
  lemma {:induction false} FirstOfEachMeaning(xs: Hits, seen: set<string>, x: SearchHit)
    ensures x in FirstOfEach(xs, seen) <==> x.partition !in seen && exists i: nat :: FirstAt(xs, x, i)
  {
    if xs != [] {
      FirstOfEachMeaning(xs[1..], if xs[0].partition in seen then seen else seen + {xs[0].partition}, x);
      FirstAtCons(xs, x, 0);
      if exists i: nat :: FirstAt(xs, x, i) {
        var i: nat :| FirstAt(xs, x, i);
        FirstAtCons(xs, x, i);
      }
      if exists i: nat :: FirstAt(xs[1..], x, i) {
        var i: nat :| FirstAt(xs[1..], x, i);
        FirstAtCons(xs, x, i + 1);
      }
    }
  }

  /** In a ranking the first hit of a partition is its best. */
  lemma GroupingKeepsTheBest(xs: Hits, x: SearchHit, y: SearchHit)
    requires Sorted(xs) && x in FirstPerPartition(xs) && y in xs && x.partition == y.partition
    ensures x in xs && y.score <= x.score
  {
    FirstOfEachMeaning(xs, {}, x);
    var i: nat :| FirstAt(xs, x, i);
    var j :| 0 <= j < |xs| && xs[j] == y;
  }

  /** Every partition is represented. */
  lemma GroupingKeepsEveryPartition(xs: Hits, y: SearchHit) returns (x: SearchHit)
    requires y in xs
    ensures x in FirstPerPartition(xs) && x.partition == y.partition
  {
    var k :| 0 <= k < |xs| && xs[k] == y;
    var i := FirstIndex(xs, y.partition, k);
    x := xs[i];
    assert FirstAt(xs, x, i);
    FirstOfEachMeaning(xs, {}, x);
  }

  lemma FirstIndex(xs: Hits, partition: string, k: nat) returns (i: nat)
    requires k < |xs| && xs[k].partition == partition
    ensures i <= k && xs[i].partition == partition
    ensures forall j :: 0 <= j < i ==> xs[j].partition != partition
  {
    i := 0;
    while xs[i].partition != partition
      invariant i <= k
      invariant forall j :: 0 <= j < i ==> xs[j].partition != partition
      decreases k - i
    {
      i := i + 1;
    }
  }

  /** No partition is kept twice. */
  lemma {:induction false} FirstOfEachDistinct(xs: Hits, seen: set<string>, i: nat, j: nat)
    requires i < j < |FirstOfEach(xs, seen)|
    ensures FirstOfEach(xs, seen)[i].partition != FirstOfEach(xs, seen)[j].partition
    ensures FirstOfEach(xs, seen)[j].partition !in seen
  {
    if xs[0].partition in seen {
      FirstOfEachDistinct(xs[1..], seen, i, j);
    } else {
      var seen' := seen + {xs[0].partition};
      var rest := FirstOfEach(xs[1..], seen');
      assert FirstOfEach(xs, seen) == [xs[0]] + rest;
      if i > 0 {
        FirstOfEachDistinct(xs[1..], seen', i - 1, j - 1);
      } else {
        FirstOfEachMeaning(xs[1..], seen', rest[j - 1]);
      }
    }
  }

  lemma {:induction false} FirstOfEachAtMost(xs: Hits, seen: set<string>, bound: real)
    requires Sorted(xs)
    ensures Sorted(FirstOfEach(xs, seen))
    ensures AtMost(xs, bound) ==> AtMost(FirstOfEach(xs, seen), bound)
  {
    if xs != [] {
      var seen' := if xs[0].partition in seen then seen else seen + {xs[0].partition};
      FirstOfEachAtMost(xs[1..], seen', xs[0].score);
      if AtMost(xs, bound) {
        FirstOfEachAtMost(xs[1..], seen', bound);
      }
      if xs[0].partition !in seen {
        SortedCons(xs[0], FirstOfEach(xs[1..], seen'));
      }
    }
  }

  ghost predicate NoSharedPartition(xs: Hits, ys: Hits) {
    forall i, j :: 0 <= i < |xs| && 0 <= j < |ys| ==> xs[i].partition != ys[j].partition
  }

  lemma {:induction false} SeenElsewhere(xs: Hits, seen: set<string>, p: string)
    requires forall i :: 0 <= i < |xs| ==> xs[i].partition != p
    ensures FirstOfEach(xs, seen + {p}) == FirstOfEach(xs, seen)
  {
    if xs != [] {
      if xs[0].partition in seen {
        SeenElsewhere(xs[1..], seen, p);
      } else {
        assert seen + {p} + {xs[0].partition} == seen + {xs[0].partition} + {p};
        SeenElsewhere(xs[1..], seen + {xs[0].partition}, p);
      }
    }
  }

  lemma MergeHead(x: SearchHit, xs: Hits, ys: Hits, leftFirst: bool)
    requires AtMost(ys, x.score)
    requires !leftFirst ==> forall i :: 0 <= i < |ys| ==> ys[i].score < x.score
    ensures leftFirst ==> Merge([x] + xs, ys) == [x] + Merge(xs, ys)
    ensures !leftFirst ==> Merge(ys, [x] + xs) == [x] + Merge(ys, xs)
  {
    assert ([x] + xs)[1..] == xs;
  }

  /** Grouping commutes with merging when no partition is on both sides. */
  lemma {:induction false} FirstOfEachMerge(xs: Hits, ys: Hits, seen: set<string>)
    requires Sorted(xs) && Sorted(ys) && NoSharedPartition(xs, ys)
    ensures FirstOfEach(Merge(xs, ys), seen) == Merge(FirstOfEach(xs, seen), FirstOfEach(ys, seen))
    decreases |xs| + |ys|
  {
    if xs != [] && ys != [] {
      if xs[0].score >= ys[0].score {
        var x, rest := xs[0], Merge(xs[1..], ys);
        assert ([x] + rest)[1..] == rest;
        if x.partition in seen {
          FirstOfEachMerge(xs[1..], ys, seen);
        } else {
          FirstOfEachMerge(xs[1..], ys, seen + {x.partition});
          SeenElsewhere(ys, seen, x.partition);
          FirstOfEachAtMost(ys, seen, x.score);
          MergeHead(x, FirstOfEach(xs[1..], seen + {x.partition}), FirstOfEach(ys, seen), true);
        }
      } else {
        var y, rest := ys[0], Merge(xs, ys[1..]);
        assert ([y] + rest)[1..] == rest;
        if y.partition in seen {
          FirstOfEachMerge(xs, ys[1..], seen);
        } else {
          FirstOfEachMerge(xs, ys[1..], seen + {y.partition});
          SeenElsewhere(xs, seen, y.partition);
          FirstOfEachAtMost(xs, seen, xs[0].score);
          MergeHead(y, FirstOfEach(ys[1..], seen + {y.partition}), FirstOfEach(xs, seen), false);
        }
      }
    }
  }
}

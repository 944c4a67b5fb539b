/** When exactly the page of a scatter-gather is the page of everything the nodes hold. */
module Paging {
  import opened Wrappers
  import opened Ranking
  import opened Gateway

  /** Every node answers the widened request, with a failure where it refuses. */
  ghost predicate AllAnswer(shards: seq<Shard>, req: SearchRequest, answers: seq<Answer>) {
    |answers| == |shards| &&
    forall i :: 0 <= i < |shards| ==> AnswersFor(shards[i], Widened(req), answers[i])
  }

  /** The list a page should be cut from. */
  function GlobalRanking(shards: seq<Shard>, req: SearchRequest): Hits {
    var all := StableSort(Flatten(RankingsOf(shards, false)));
    if req.groupByPartition then FirstPerPartition(all) else all
  }

  /** Rankings as nodes have them; for grouped requests, as routing spreads partitions and within the cap. */
  ghost predicate Fair(shards: seq<Shard>, req: SearchRequest) {
    AllRanked(shards) && (req.groupByPartition ==> Groupable(shards))
  }

  /** Grouped requests are answered by the nodes that have a match, others by all. */
  ghost predicate AcceptedAsMatched(shards: seq<Shard>, req: SearchRequest, answers: seq<Answer>) {
    if req.groupByPartition then
      (Accepted(ConsistencyAny, answers) <==> exists i :: 0 <= i < |shards| && shards[i].ranked != []) &&
      (Accepted(ConsistencyAll, answers) <==> forall i :: 0 <= i < |shards| ==> shards[i].ranked != [])
    else
      Accepted(ConsistencyAll, answers)
  }

  ghost predicate ExactOn(shards: seq<Shard>, req: SearchRequest, answers: seq<Answer>) {
    AcceptedAsMatched(shards, req, answers) &&
    Page(StableSort(HitsOf(answers)), req.offset, req.limit) ==
    Page(GlobalRanking(shards, req), req.offset, req.limit)
  }

  ghost predicate AlwaysExact(req: SearchRequest, nodes: nat) {
    forall shards: seq<Shard>, answers: seq<Answer> ::
      |shards| == nodes && Fair(shards, req) && AllAnswer(shards, req, answers) ==> ExactOn(shards, req, answers)
  }

  /**
   * The wrapped limit does no harm to a grouped request: it reaches the cap all the same, or the page begins
   * beyond everything so many nodes can hold.
   */
  predicate OutOfReach(req: SearchRequest, nodes: nat) {
    req.groupByPartition && Widened(req).limit > 0 &&
    (Widened(req).limit >= GROUP_CAP || req.offset >= nodes * GROUP_CAP)
  }

  // ------------------------------------------------------------------------
  // Exact
  // ------------------------------------------------------------------------

  lemma AnswersMatch(shards: seq<Shard>, req: SearchRequest, answers: seq<Answer>)
    requires Widened(req).limit > 0 && AllAnswer(shards, req, answers)
    ensures AcceptedAsMatched(shards, req, answers)
  {
    forall i | 0 <= i < |shards|
      ensures answers[i].Ok? <==> !req.groupByPartition || shards[i].ranked != []
    {
      assert AnswersFor(shards[i], Widened(req), answers[i]);
    }
  }

  lemma NodeHits(shard: Shard, req: SearchRequest, a: Answer)
    requires Widened(req).limit > 0 && AnswersFor(shard, Widened(req), a)
    ensures (if a.Ok? then a.value.hits else []) ==
            Take(NodeRanking(shard.ranked, req.groupByPartition), Widened(req).limit)
  {
    var l := NodeRanking(shard.ranked, req.groupByPartition);
    if l != [] {
      assert l[0..] == l;
    }
  }

  /** The merged hits are the best of each node's list, refusing nodes included. */
  lemma {:induction false} AllHits(shards: seq<Shard>, req: SearchRequest, answers: seq<Answer>)
    requires Widened(req).limit > 0 && AllAnswer(shards, req, answers)
    ensures HitsOf(answers) == Flatten(TakeEach(RankingsOf(shards, req.groupByPartition), Widened(req).limit))
    decreases |shards|
  {
    if shards != [] {
      AllHits(shards[1..], req, answers[1..]);
      NodeHits(shards[0], req, answers[0]);
      assert shards == [shards[0]] + shards[1..];
      BestOfCons(shards[0], shards[1..], req.groupByPartition, Widened(req).limit);
    }
  }

  lemma GlobalIsSorted(shards: seq<Shard>, req: SearchRequest)
    requires Fair(shards, req)
    ensures GlobalRanking(shards, req) == StableSort(Flatten(RankingsOf(shards, req.groupByPartition)))
  {
    if req.groupByPartition {
      GroupingCommutes(shards);
    }
  }

  lemma {:induction false} FirstOfEachIsShorter(xs: Hits, seen: set<string>)
    ensures |FirstOfEach(xs, seen)| <= |xs|
  {
    if xs != [] {
      FirstOfEachIsShorter(xs[1..], seen);
      FirstOfEachIsShorter(xs[1..], seen + {xs[0].partition});
    }
  }

  /** A grouped list is within the cap. */
  lemma GroupedWithinCap(ranked: Hits)
    ensures |NodeRanking(ranked, true)| <= GROUP_CAP
  {
    FirstOfEachIsShorter(Take(ranked, GROUP_CAP), {});
  }

  lemma {:induction false} GroupedListsWithinCap(shards: seq<Shard>, k: nat)
    ensures k >= GROUP_CAP ==> TakeEach(RankingsOf(shards, true), k) == RankingsOf(shards, true)
    ensures |Flatten(RankingsOf(shards, true))| <= |shards| * GROUP_CAP
    ensures |Flatten(TakeEach(RankingsOf(shards, true), k))| <= |shards| * GROUP_CAP
  {
    if shards != [] {
      var l, ls := NodeRanking(shards[0].ranked, true), RankingsOf(shards[1..], true);
      GroupedWithinCap(shards[0].ranked);
      GroupedListsWithinCap(shards[1..], k);
      assert ([l] + ls)[1..] == ls && ([Take(l, k)] + TakeEach(ls, k))[1..] == TakeEach(ls, k);
    }
  }

  lemma SortKeepsLength(xs: Hits)
    ensures |StableSort(xs)| == |xs|
  {
    StableSortSorted(xs);
    assert |multiset(StableSort(xs))| == |multiset(xs)|;
  }

  lemma WidePages(lists: seq<Hits>, offset: nat, limit: nat)
    requires AllSorted(lists)
    ensures Page(StableSort(Flatten(TakeEach(lists, limit + offset))), offset, limit) ==
            Page(StableSort(Flatten(lists)), offset, limit)
  {
    TakeOfSort(lists, limit + offset);
    SamePages(StableSort(Flatten(TakeEach(lists, limit + offset))), StableSort(Flatten(lists)), offset, limit);
  }

  lemma OutOfReachPages(shards: seq<Shard>, req: SearchRequest)
    requires OutOfReach(req, |shards|)
    ensures var lists := RankingsOf(shards, true);
            Page(StableSort(Flatten(TakeEach(lists, Widened(req).limit))), req.offset, req.limit) ==
            Page(StableSort(Flatten(lists)), req.offset, req.limit)
  {
    var lists, w := RankingsOf(shards, true), Widened(req).limit;
    GroupedListsWithinCap(shards, w);
    SortKeepsLength(Flatten(TakeEach(lists, w)));
    SortKeepsLength(Flatten(lists));
  }

  lemma EnoughIsExact(shards: seq<Shard>, req: SearchRequest, answers: seq<Answer>)
    requires Wide(req) || OutOfReach(req, |shards|)
    requires Fair(shards, req) && AllAnswer(shards, req, answers)
    ensures ExactOn(shards, req, answers)
  {
    AnswersMatch(shards, req, answers);
    AllHits(shards, req, answers);
    GlobalIsSorted(shards, req);
    if Wide(req) {
      RankingsSorted(shards, req.groupByPartition);
      assert Widened(req).limit == req.limit + req.offset;
      WidePages(RankingsOf(shards, req.groupByPartition), req.offset, req.limit);
    } else {
      OutOfReachPages(shards, req);
    }
  }

  // ------------------------------------------------------------------------
  // Not exact
  // ------------------------------------------------------------------------

  /** Hits of equal score in partitions of their own. */
  function Singles(n: nat): Hits {
    seq(n, i requires 0 <= i < n => SearchHit("", 0.0, "", seq(i, _ => 'a')))
  }

  ghost predicate Distinct(xs: Hits) {
    forall i, j :: 0 <= i < j < |xs| ==> xs[i].partition != xs[j].partition
  }

  lemma SinglesAreDistinct(n: nat)
    ensures Distinct(Singles(n)) && Sorted(Singles(n))
  {
    var xs := Singles(n);
    forall i, j | 0 <= i < j < n
      ensures xs[i].partition != xs[j].partition
    {
      assert |xs[i].partition| == i && |xs[j].partition| == j;
    }
  }

  lemma {:induction false} DistinctStay(xs: Hits, seen: set<string>)
    requires Distinct(xs) && forall i :: 0 <= i < |xs| ==> xs[i].partition !in seen
    ensures FirstOfEach(xs, seen) == xs
  {
    if xs != [] {
      DistinctStay(xs[1..], seen + {xs[0].partition});
      assert xs == [xs[0]] + xs[1..];
    }
  }

  function Smaller(a: nat, b: nat): nat {
    if a < b then a else b
  }

  /** The list cut up among so many nodes, at most `size` for each. */
  function Spread(xs: Hits, size: nat, nodes: nat): seq<Shard> {
    if nodes == 0 then []
    else
      var k := Smaller(size, |xs|);
      [Shard(xs[..k], [])] + Spread(xs[k..], size, nodes - 1)
  }

  lemma {:induction false} SpreadHolds(xs: Hits, size: nat, nodes: nat)
    requires |xs| <= nodes * size && Sorted(xs)
    ensures |Spread(xs, size, nodes)| == nodes && Flatten(RankingsOf(Spread(xs, size, nodes), false)) == xs
    ensures AllRanked(Spread(xs, size, nodes))
    decreases nodes
  {
    if nodes > 0 {
      var k := Smaller(size, |xs|);
      var rest := Spread(xs[k..], size, nodes - 1);
      assert nodes * size == size + (nodes - 1) * size;
      SpreadHolds(xs[k..], size, nodes - 1);
      ConsRankings(Shard(xs[..k], []), rest, false);
      assert xs == xs[..k] + xs[k..];
    }
  }

  lemma ConsRankings(shard: Shard, rest: seq<Shard>, grouped: bool)
    ensures RankingsOf([shard] + rest, grouped) == [NodeRanking(shard.ranked, grouped)] + RankingsOf(rest, grouped)
    ensures Flatten(RankingsOf([shard] + rest, grouped)) ==
            NodeRanking(shard.ranked, grouped) + Flatten(RankingsOf(rest, grouped))
  {
    assert ([shard] + rest)[1..] == rest;
    var l, ls := NodeRanking(shard.ranked, grouped), RankingsOf(rest, grouped);
    assert ([l] + ls)[1..] == ls;
  }

  ghost predicate PartOf(part: Hits, xs: Hits) {
    forall h :: h in part ==> h in xs
  }

  lemma {:induction false} SpreadParts(xs: Hits, size: nat, nodes: nat)
    ensures forall s :: s in Spread(xs, size, nodes) ==> |s.ranked| <= size && s.bodies == [] && PartOf(s.ranked, xs)
    decreases nodes
  {
    if nodes > 0 {
      var k := Smaller(size, |xs|);
      SpreadParts(xs[k..], size, nodes - 1);
      forall s | s in Spread(xs[k..], size, nodes - 1)
        ensures PartOf(s.ranked, xs)
      {
        assert PartOf(s.ranked, xs[k..]);
      }
    }
  }

  lemma {:induction false} SpreadIsGroupable(xs: Hits, nodes: nat)
    requires Distinct(xs)
    ensures Groupable(Spread(xs, GROUP_CAP, nodes))
    decreases nodes
  {
    if nodes > 0 {
      var k := Smaller(GROUP_CAP, |xs|);
      var rest := Spread(xs[k..], GROUP_CAP, nodes - 1);
      SpreadIsGroupable(xs[k..], nodes - 1);
      SpreadParts(xs[k..], GROUP_CAP, nodes - 1);
      forall j | 0 <= j < |rest|
        ensures NoSharedPartition(xs[..k], rest[j].ranked)
      {
        assert rest[j] in rest;
        PartsShareNothing(xs, k, rest[j].ranked);
      }
      GroupableCons(Shard(xs[..k], []), rest);
    }
  }

  lemma GroupableCons(shard: Shard, rest: seq<Shard>)
    requires Groupable(rest) && |shard.ranked| <= GROUP_CAP
    requires forall j :: 0 <= j < |rest| ==> NoSharedPartition(shard.ranked, rest[j].ranked)
    ensures Groupable([shard] + rest)
  {
  }

  lemma PartsShareNothing(xs: Hits, k: nat, part: Hits)
    requires Distinct(xs) && k <= |xs| && PartOf(part, xs[k..])
    ensures NoSharedPartition(xs[..k], part)
  {
    forall i, a | 0 <= i < k && 0 <= a < |part|
      ensures xs[..k][i].partition != part[a].partition
    {
      assert part[a] in part;
      var j :| 0 <= j < |xs[k..]| && xs[k..][j] == part[a];
      assert xs[i].partition != xs[k + j].partition;
    }
  }

  lemma NodeRankingIsShorter(ranked: Hits, grouped: bool)
    ensures |NodeRanking(ranked, grouped)| <= |ranked|
  {
    if grouped {
      FirstOfEachIsShorter(Take(ranked, GROUP_CAP), {});
    }
  }

  lemma {:induction false} BestAreFewer(shards: seq<Shard>, grouped: bool, k: nat)
    ensures |Flatten(TakeEach(RankingsOf(shards, grouped), k))| <= |Flatten(RankingsOf(shards, false))|
    decreases |shards|
  {
    if shards != [] {
      assert shards == [shards[0]] + shards[1..];
      BestAreFewer(shards[1..], grouped, k);
      BestOfCons(shards[0], shards[1..], grouped, k);
      ConsRankings(shards[0], shards[1..], false);
      NodeRankingIsShorter(shards[0].ranked, grouped);
    }
  }

  /** A first node with more than the limit loses a hit. */
  lemma OneHitIsCut(xs: Hits, size: nat, nodes: nat, grouped: bool, k: nat)
    requires nodes > 0 && k < size && k < |xs| <= nodes * size && Sorted(xs)
    ensures |Flatten(TakeEach(RankingsOf(Spread(xs, size, nodes), grouped), k))| < |xs|
  {
    var n := Smaller(size, |xs|);
    var first, rest := Shard(xs[..n], []), Spread(xs[n..], size, nodes - 1);
    assert nodes * size == size + (nodes - 1) * size;
    SpreadHolds(xs[n..], size, nodes - 1);
    BestOfCons(first, rest, grouped, k);
    BestAreFewer(rest, grouped, k);
  }

  function AnswerOf(shard: Shard, req: SearchRequest): Answer {
    if Refuses(shard, req) then Err("")
    else
      Ok(SearchResponse(
           Page(NodeRanking(shard.ranked, req.groupByPartition), req.offset, req.limit), |shard.ranked|, 0, []))
  }

  function AnswersOf(shards: seq<Shard>, req: SearchRequest): seq<Answer> {
    seq(|shards|, i requires 0 <= i < |shards| => AnswerOf(shards[i], Widened(req)))
  }

  lemma TheyAnswer(shards: seq<Shard>, req: SearchRequest)
    requires forall s :: s in shards ==> s.bodies == []
    ensures AllAnswer(shards, req, AnswersOf(shards, req))
  {
  }

  lemma WrappedLimit(req: SearchRequest)
    requires req.limit + req.offset > TWO_TO_THE_32
    ensures 0 < Widened(req).limit < req.offset && req.limit > 0
  {
    assert Widened(req).limit == req.limit + req.offset - TWO_TO_THE_32;
  }

  lemma WitnessIsFair(req: SearchRequest, size: nat, nodes: nat)
    requires req.offset < nodes * size && (req.groupByPartition ==> size == GROUP_CAP)
    ensures var shards := Spread(Singles(req.offset + 1), size, nodes);
            |shards| == nodes && Fair(shards, req) && GlobalRanking(shards, req) == Singles(req.offset + 1) &&
            forall s :: s in shards ==> s.bodies == []
  {
    var xs := Singles(req.offset + 1);
    SinglesAreDistinct(req.offset + 1);
    SpreadHolds(xs, size, nodes);
    SpreadParts(xs, size, nodes);
    SortOfSorted(xs);
    DistinctStay(xs, {});
    if req.groupByPartition {
      SpreadIsGroupable(xs, nodes);
    }
  }

  lemma LastHitIsCut(short: Hits, full: Hits, offset: nat, limit: nat)
    requires |short| <= offset && |full| == offset + 1 && limit > 0
    ensures Page(StableSort(short), offset, limit) == [] && |Page(full, offset, limit)| == 1
  {
    SortKeepsLength(short);
  }

  function WitnessSize(req: SearchRequest): nat {
    if req.groupByPartition then GROUP_CAP else req.offset + 1
  }

  lemma WitnessFits(req: SearchRequest, nodes: nat)
    requires nodes > 0 && req.limit + req.offset > TWO_TO_THE_32 && !OutOfReach(req, nodes)
    ensures req.offset < nodes * WitnessSize(req) && Widened(req).limit < WitnessSize(req)
  {
    WrappedLimit(req);
    if !req.groupByPartition {
      var size := WitnessSize(req);
      assert nodes * size == size + (nodes - 1) * size;
    }
  }

  /** A wrapped limit cuts a hit of the first node, and the page that consists of the last hit comes back empty. */
  lemma WrapLosesPage(req: SearchRequest, nodes: nat) returns (shards: seq<Shard>, answers: seq<Answer>)
    requires nodes > 0 && req.limit + req.offset > TWO_TO_THE_32 && !OutOfReach(req, nodes)
    ensures |shards| == nodes && Fair(shards, req) && AllAnswer(shards, req, answers)
    ensures Page(StableSort(HitsOf(answers)), req.offset, req.limit) == []
    ensures |Page(GlobalRanking(shards, req), req.offset, req.limit)| == 1
  {
    var size, xs := WitnessSize(req), Singles(req.offset + 1);
    WrappedLimit(req);
    WitnessFits(req, nodes);
    WitnessIsFair(req, size, nodes);
    shards := Spread(xs, size, nodes);
    answers := AnswersOf(shards, req);
    TheyAnswer(shards, req);
    SinglesAreDistinct(req.offset + 1);
    AllHits(shards, req, answers);
    OneHitIsCut(xs, size, nodes, req.groupByPartition, Widened(req).limit);
    LastHitIsCut(HitsOf(answers), xs, req.offset, req.limit);
  }

  /** A widened limit of 0 is refused by every node, so the request fails at every level. */
  lemma ZeroIsRefused(shards: seq<Shard>, req: SearchRequest, answers: seq<Answer>)
    requires req.limit + req.offset == 0 || req.limit + req.offset == TWO_TO_THE_32
    requires shards != [] && AllAnswer(shards, req, answers)
    ensures !Accepted(ConsistencyAll, answers) && !Accepted(ConsistencyAny, answers)
  {
    assert Widened(req).limit == 0;
    assert answers[0].Err?;
  }

  lemma ZeroIsInexact(req: SearchRequest, nodes: nat) returns (shards: seq<Shard>, answers: seq<Answer>)
    requires nodes > 0 && (req.limit + req.offset == 0 || req.limit + req.offset == TWO_TO_THE_32)
    ensures |shards| == nodes && Fair(shards, req) && AllAnswer(shards, req, answers)
    ensures !ExactOn(shards, req, answers)
  {
    var xs := Singles(1);
    SinglesAreDistinct(1);
    shards := Spread(xs, GROUP_CAP, nodes);
    SpreadHolds(xs, GROUP_CAP, nodes);
    SpreadParts(xs, GROUP_CAP, nodes);
    SpreadIsGroupable(xs, nodes);
    answers := AnswersOf(shards, req);
    TheyAnswer(shards, req);
    ZeroIsRefused(shards, req, answers);
    assert shards[0].ranked == xs[..1];
  }

  lemma NotAlwaysExact(shards: seq<Shard>, req: SearchRequest, answers: seq<Answer>)
    requires Fair(shards, req) && AllAnswer(shards, req, answers) && !ExactOn(shards, req, answers)
    ensures !AlwaysExact(req, |shards|)
  {
  }

  /**
   * So many nodes, whatever they hold, always answer a request exactly if and only if limit + offset is
   * positive and fits in 32 bits, or the request is grouped and the wrapped limit does no harm.
   */
  lemma AlwaysExactIff(req: SearchRequest, nodes: nat)
    requires nodes > 0
    ensures AlwaysExact(req, nodes) <==> Wide(req) || OutOfReach(req, nodes)
  {
    if Wide(req) || OutOfReach(req, nodes) {
      forall shards: seq<Shard>, answers: seq<Answer>
        | |shards| == nodes && Fair(shards, req) && AllAnswer(shards, req, answers)
        ensures ExactOn(shards, req, answers)
      {
        EnoughIsExact(shards, req, answers);
      }
    } else if req.limit + req.offset > TWO_TO_THE_32 {
      var shards, answers := WrapLosesPage(req, nodes);
      NotAlwaysExact(shards, req, answers);
    } else {
      var shards, answers := ZeroIsInexact(req, nodes);
      NotAlwaysExact(shards, req, answers);
    }
  }

  // ------------------------------------------------------------------------
  // Page after page
  // ------------------------------------------------------------------------

  /** Where page `i` begins. */
  function Begin(i: nat, limit: nat): nat {
    if i == 0 then 0 else Begin(i - 1, limit) + limit
  }

  /** The nodes' answers to the request for the page at an offset, and the page the gateway cuts from them. */
  ghost predicate IsPageAt(shards: seq<Shard>, req: SearchRequest, offset: nat, answers: seq<Answer>, page: Hits) {
    0 < req.limit && offset + req.limit < TWO_TO_THE_32 &&
    AllAnswer(shards, req.(offset := offset), answers) &&
    CutFrom(page, StableSort(HitsOf(answers)), offset, req.limit)
  }

  lemma NextPage(shards: seq<Shard>, req: SearchRequest, offset: nat, answers: seq<Answer>, page: Hits)
    requires Fair(shards, req) && IsPageAt(shards, req, offset, answers, page)
    ensures Take(GlobalRanking(shards, req), offset) + page == Take(GlobalRanking(shards, req), offset + req.limit)
  {
    ThisPage(shards, req.(offset := offset), answers, page);
    CutExtends(GlobalRanking(shards, req), page, offset, req.limit);
  }

  lemma CutExtends(all: Hits, page: Hits, offset: nat, limit: nat)
    requires CutFrom(page, all, offset, limit)
    ensures Take(all, offset) + page == Take(all, offset + limit)
  {
  }

  /**
   * Asking for one page after the other gives the global ranking from its beginning, each hit once and in
   * order, whichever node each hit is on.
   */
  lemma {:induction false} PagesFollowTheRanking(
      shards: seq<Shard>, req: SearchRequest, answers: seq<seq<Answer>>, pages: seq<Hits>)
    requires |pages| == |answers| && Fair(shards, req)
    requires forall i :: 0 <= i < |pages| ==> IsPageAt(shards, req, Begin(i, req.limit), answers[i], pages[i])
    ensures Flatten(pages) == Take(GlobalRanking(shards, req), Begin(|pages|, req.limit))
    decreases |pages|
  {
    if pages != [] {
      var n := |pages| - 1;
      PagesFollowTheRanking(shards, req, answers[..n], pages[..n]);
      NextPage(shards, req, Begin(n, req.limit), answers[n], pages[n]);
      FlattenSnoc(pages);
    }
  }

  lemma ThisPage(shards: seq<Shard>, req: SearchRequest, answers: seq<Answer>, page: Hits)
    requires Wide(req) && Fair(shards, req) && AllAnswer(shards, req, answers)
    requires CutFrom(page, StableSort(HitsOf(answers)), req.offset, req.limit)
    ensures CutFrom(page, GlobalRanking(shards, req), req.offset, req.limit)
  {
    EnoughIsExact(shards, req, answers);
    PageHolds(StableSort(HitsOf(answers)), req.offset, req.limit);
    PageHolds(GlobalRanking(shards, req), req.offset, req.limit);
    SameCut(page, Page(StableSort(HitsOf(answers)), req.offset, req.limit), StableSort(HitsOf(answers)),
            req.offset, req.limit);
  }

  lemma SameCut(page: Hits, other: Hits, all: Hits, offset: nat, limit: nat)
    requires CutFrom(page, all, offset, limit) && CutFrom(other, all, offset, limit)
    ensures page == other
  {
  }

  lemma {:induction false} FlattenSnoc(lists: seq<Hits>)
    requires lists != []
    ensures Flatten(lists) == Flatten(lists[..|lists| - 1]) + lists[|lists| - 1]
  {
    if |lists| > 1 {
      FlattenSnoc(lists[1..]);
      assert lists[..|lists| - 1][1..] == lists[1..][..|lists| - 2];
    }
  }
}

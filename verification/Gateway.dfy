/** Scatter-gather: widened node requests, merge, stable sort, paging, facet sums and the consistency decision. */
module Gateway {
  import opened Wrappers
  import opened JsonMerge
  import opened Ranking
  import opened Facets

  const TWO_TO_THE_32 := 0x1_0000_0000

  type U32 = n: int | 0 <= n < TWO_TO_THE_32

  const GROUP_CAP: nat := 10_000

  datatype Consistency = ConsistencyUnspecified | ConsistencyAny | ConsistencyAll

  datatype SearchRequest = SearchRequest(
    limit: U32, offset: U32, consistency: Consistency, facetFields: seq<string>, groupByPartition: bool)

  datatype SearchResponse = SearchResponse(hits: Hits, totalHits: nat, duration: nat, facets: seq<FacetResult>)

  /** A node's answer, or the status it failed with. */
  type Answer = Result<SearchResponse, string>

  // ------------------------------------------------------------------------
  // One node
  // ------------------------------------------------------------------------

  /** A node's matching documents: ranked by the index, with their stored bodies in some order. */
  datatype Shard = Shard(ranked: Hits, bodies: seq<Value>)

  /** The list a node pages through: all hits, or the first of each partition among the capped best. */
  function NodeRanking(ranked: Hits, grouped: bool): Hits {
    if grouped then FirstPerPartition(Take(ranked, GROUP_CAP)) else ranked
  }

  /** The hits are those of the list from the offset on, as many as there are up to the limit. */
  ghost predicate CutFrom(hits: Hits, all: Hits, offset: nat, limit: nat) {
    |hits| == (if |all| <= offset then 0 else if |all| - offset < limit then |all| - offset else limit) &&
    forall i :: 0 <= i < |hits| ==> hits[i] == all[offset + i]
  }

  /** A limit of 0 is refused; a grouped search without matches asks the index for its best 0, which panics. */
  predicate Refuses(shard: Shard, req: SearchRequest) {
    req.limit == 0 || (req.groupByPartition && shard.ranked == [])
  }

  ghost predicate AnswersFor(shard: Shard, req: SearchRequest, a: Answer) {
    if Refuses(shard, req) then a.Err?
    else
      a.Ok? &&
      a.value.hits == Page(NodeRanking(shard.ranked, req.groupByPartition), req.offset, req.limit) &&
      a.value.totalHits == |shard.ranked| &&
      forall f, v :: FacetSum(a.value.facets, f, v) == NodeTally(shard.bodies, req.facetFields, f, v)
  }

  /** The search service of a node, up to query parsing and matching. */
  method NodeSearch(shard: Shard, req: SearchRequest, elapsed: nat) returns (a: Answer)
    ensures AnswersFor(shard, req, a)
  {
    if req.limit == 0 {
      return Err("Limit must be strictly greater than 0");
    }
    var hits: Hits;
    if req.groupByPartition {
      var cap := if |shard.ranked| < GROUP_CAP then |shard.ranked| else GROUP_CAP;
      if cap == 0 {
        return Err("Limit must be strictly greater than 0.");
      }
      var grouped := GroupByPartition(shard.ranked[..cap]);
      assert shard.ranked[..cap] == Take(shard.ranked, GROUP_CAP);
      hits := Page(grouped, req.offset, req.limit);
    } else {
      hits := Page(shard.ranked, req.offset, req.limit);
    }
    var facets: seq<FacetResult> := [];
    if req.facetFields != [] {
      var counts := NodeCounts(shard.bodies, req.facetFields);
      facets := FacetLists(counts);
      forall f, v
        ensures FacetSum(facets, f, v) == NodeTally(shard.bodies, req.facetFields, f, v)
      {
        FacetSumOfLists(facets, counts, f, v);
      }
    } else {
      forall f, v
        ensures NodeTally(shard.bodies, req.facetFields, f, v) == 0
      {
        NodeTallyIsRequested(shard.bodies, req.facetFields, f, v);
      }
    }
    a := Ok(SearchResponse(hits, |shard.ranked|, elapsed, facets));
  }

  // ------------------------------------------------------------------------
  // The gateway
  // ------------------------------------------------------------------------

  /** The request sent to every node; the 32-bit sum wraps. */
  function Widened(req: SearchRequest): SearchRequest {
    req.(limit := (req.limit + req.offset) % TWO_TO_THE_32, offset := 0)
  }

  function HitsOf(answers: seq<Answer>): Hits {
    if answers == [] then []
    else (if answers[0].Ok? then answers[0].value.hits else []) + HitsOf(answers[1..])
  }

  function TotalHitsOf(answers: seq<Answer>): nat {
    if answers == [] then 0
    else (if answers[0].Ok? then answers[0].value.totalHits else 0) + TotalHitsOf(answers[1..])
  }

  function Longest(answers: seq<Answer>, sofar: nat): nat {
    if answers == [] then sofar
    else if answers[0].Ok? && answers[0].value.duration > sofar then Longest(answers[1..], answers[0].value.duration)
    else Longest(answers[1..], sofar)
  }

  function FacetsOf(answers: seq<Answer>, field: string, v: string): nat {
    if answers == [] then 0
    else (if answers[0].Ok? then FacetSum(answers[0].value.facets, field, v) else 0) + FacetsOf(answers[1..], field, v)
  }

  function ErrorsOf(answers: seq<Answer>): seq<string> {
    if answers == [] then []
    else (if answers[0].Err? then [answers[0].error] else []) + ErrorsOf(answers[1..])
  }

  /** ALL needs every node, the other levels at least one. */
  ghost predicate Accepted(consistency: Consistency, answers: seq<Answer>) {
    if consistency.ConsistencyAll? then forall i :: 0 <= i < |answers| ==> answers[i].Ok?
    else exists i :: 0 <= i < |answers| && answers[i].Ok?
  }

  method MergeBuckets(m: Buckets, buckets: seq<FacetBucket>) returns (r: Buckets)
    ensures forall v :: CountIn(r, v) == CountIn(m, v) + BucketSum(buckets, v)
  {
    r := m;
    for i := 0 to |buckets|
      invariant forall v :: CountIn(r, v) == CountIn(m, v) + BucketSum(buckets[..i], v)
    {
      assert buckets[..i + 1][..i] == buckets[..i];
      r := Bump(r, buckets[i].value, buckets[i].count);
    }
    assert buckets[..|buckets|] == buckets;
  }

  method MergeFacets(counts: Counts, facets: seq<FacetResult>) returns (r: Counts)
    ensures forall f, v :: CountIn(BucketsOf(r, f), v) == CountIn(BucketsOf(counts, f), v) + FacetSum(facets, f, v)
  {
    r := counts;
    for i := 0 to |facets|
      invariant forall f, v ::
                  CountIn(BucketsOf(r, f), v) == CountIn(BucketsOf(counts, f), v) + FacetSum(facets[..i], f, v)
    {
      assert facets[..i + 1][..i] == facets[..i];
      var merged := MergeBuckets(BucketsOf(r, facets[i].field), facets[i].buckets);
      r := r[facets[i].field := merged];
    }
    assert facets[..|facets|] == facets;
  }

  function SuccessesOf(answers: seq<Answer>): nat {
    if answers == [] then 0 else (if answers[0].Ok? then 1 else 0) + SuccessesOf(answers[1..])
  }

  /** The node counts decide as the consistency level says. */
  lemma {:induction false} SuccessesDecide(answers: seq<Answer>)
    ensures SuccessesOf(answers) <= |answers|
    ensures SuccessesOf(answers) == |answers| <==> Accepted(ConsistencyAll, answers)
    ensures SuccessesOf(answers) > 0 <==> Accepted(ConsistencyAny, answers)
  {
    if answers != [] {
      SuccessesDecide(answers[1..]);
      assert forall i :: 1 <= i < |answers| ==> answers[i] == answers[1..][i - 1];
      if answers[0].Err? && Accepted(ConsistencyAny, answers[1..]) {
        var i :| 0 <= i < |answers[1..]| && answers[1..][i].Ok?;
        assert answers[i + 1].Ok?;
      }
    }
  }

  /** Counts so far and what the remaining answers add make the whole. */
  ghost predicate Tallied(counts: Counts, rest: seq<Answer>, all: seq<Answer>) {
    forall f, v :: CountIn(BucketsOf(counts, f), v) + FacetsOf(rest, f, v) == FacetsOf(all, f, v)
  }

  lemma TalliedStep(counts: Counts, next: Counts, rest: seq<Answer>, all: seq<Answer>)
    requires rest != [] && rest[0].Ok? && Tallied(counts, rest, all)
    requires forall f, v ::
               CountIn(BucketsOf(next, f), v) == CountIn(BucketsOf(counts, f), v) + FacetSum(rest[0].value.facets, f, v)
    ensures Tallied(next, rest[1..], all)
  {
    forall f, v
      ensures CountIn(BucketsOf(next, f), v) + FacetsOf(rest[1..], f, v) == FacetsOf(all, f, v)
    {
      assert CountIn(BucketsOf(counts, f), v) + FacetsOf(rest, f, v) == FacetsOf(all, f, v);
    }
  }

  lemma TalliedSkip(counts: Counts, rest: seq<Answer>, all: seq<Answer>)
    requires rest != [] && rest[0].Err? && Tallied(counts, rest, all)
    ensures Tallied(counts, rest[1..], all)
  {
    forall f, v
      ensures CountIn(BucketsOf(counts, f), v) + FacetsOf(rest[1..], f, v) == FacetsOf(all, f, v)
    {
      assert CountIn(BucketsOf(counts, f), v) + FacetsOf(rest, f, v) == FacetsOf(all, f, v);
    }
  }

  /** The accumulators of the aggregation loop, facets apart. */
  datatype Sums = Sums(hits: Hits, totalHits: nat, longest: nat, successes: nat, errors: seq<string>)

  function Absorb(t: Sums, a: Answer): Sums {
    match a
    case Ok(inner) =>
      t.(hits := t.hits + inner.hits, totalHits := t.totalHits + inner.totalHits,
         longest := if inner.duration > t.longest then inner.duration else t.longest, successes := t.successes + 1)
    case Err(e) => t.(errors := t.errors + [e])
  }

  function AbsorbAll(t: Sums, answers: seq<Answer>): Sums
    decreases |answers|
  {
    if answers == [] then t else AbsorbAll(Absorb(t, answers[0]), answers[1..])
  }

  lemma {:induction false} SumsOfNumbers(t: Sums, answers: seq<Answer>)
    ensures AbsorbAll(t, answers).totalHits == t.totalHits + TotalHitsOf(answers)
    ensures AbsorbAll(t, answers).longest == Longest(answers, t.longest)
    ensures AbsorbAll(t, answers).successes == t.successes + SuccessesOf(answers)
    decreases |answers|
  {
    if answers != [] {
      SumsOfNumbers(Absorb(t, answers[0]), answers[1..]);
    }
  }

  lemma {:induction false} SumsOfLists(t: Sums, answers: seq<Answer>)
    ensures AbsorbAll(t, answers).hits == t.hits + HitsOf(answers)
    ensures AbsorbAll(t, answers).errors == t.errors + ErrorsOf(answers)
    decreases |answers|
  {
    if answers != [] {
      SumsOfLists(Absorb(t, answers[0]), answers[1..]);
    }
  }

  /** The aggregation loop of `scatter_gather`. */
  method Gather(answers: seq<Answer>)
    returns (allHits: Hits, totalHits: nat, maxDuration: nat, successful: nat, failed: seq<string>, counts: Counts)
    ensures Sums(allHits, totalHits, maxDuration, successful, failed) ==
            Sums(HitsOf(answers), TotalHitsOf(answers), Longest(answers, 0), SuccessesOf(answers), ErrorsOf(answers))
    ensures forall f, v :: CountIn(BucketsOf(counts, f), v) == FacetsOf(answers, f, v)
  {
    allHits, totalHits, maxDuration, successful, failed, counts := [], 0, 0, 0, [], map[];
    for i := 0 to |answers|
      invariant AbsorbAll(Sums(allHits, totalHits, maxDuration, successful, failed), answers[i..]) ==
                AbsorbAll(Sums([], 0, 0, 0, []), answers)
      invariant Tallied(counts, answers[i..], answers)
    {
      assert answers[i..][0] == answers[i] && answers[i..][1..] == answers[i + 1..];
      match answers[i]
      case Ok(inner) =>
        allHits := allHits + inner.hits;
        totalHits := totalHits + inner.totalHits;
        maxDuration := if inner.duration > maxDuration then inner.duration else maxDuration;
        successful := successful + 1;
        var merged := MergeFacets(counts, inner.facets);
        TalliedStep(counts, merged, answers[i..], answers);
        counts := merged;
      case Err(e) =>
        failed := failed + [e];
        TalliedSkip(counts, answers[i..], answers);
    }
    SumsOfNumbers(Sums([], 0, 0, 0, []), answers);
    SumsOfLists(Sums([], 0, 0, 0, []), answers);
  }

  /** `scatter_gather`; `ask` is what each node answers, failures included. */
  method ScatterGather(nodes: nat, ask: (nat, SearchRequest) -> Answer, req: SearchRequest)
    returns (r: Result<SearchResponse, seq<string>>)
    ensures var answers := seq(nodes, i requires 0 <= i < nodes => ask(i, Widened(req)));
            (r.Ok? <==> Accepted(req.consistency, answers)) &&
            match r
            case Err(errors) => errors == ErrorsOf(answers)
            case Ok(response) =>
              response.hits == Page(StableSort(HitsOf(answers)), req.offset, req.limit) &&
              CutFrom(response.hits, StableSort(HitsOf(answers)), req.offset, req.limit) &&
              response.totalHits == TotalHitsOf(answers) && response.duration == Longest(answers, 0) &&
              (forall f, v :: FacetSum(response.facets, f, v) == FacetsOf(answers, f, v)) &&
              (exists counts :: ListsAll(response.facets, counts))
  {
    var answers := seq(nodes, i requires 0 <= i < nodes => ask(i, Widened(req)));
    var allHits, totalHits, maxDuration, successful, failed, counts := Gather(answers);
    SuccessesDecide(answers);
    if req.consistency.ConsistencyAll? {
      if successful < nodes {
        return Err(failed);
      }
    } else if successful == 0 {
      return Err(failed);
    }
    allHits := StableSort(allHits);
    var paged := if req.offset >= |allHits| then [] else Take(allHits[req.offset..], req.limit);
    var facets := FacetLists(counts);
    forall f, v
      ensures FacetSum(facets, f, v) == FacetsOf(answers, f, v)
    {
      FacetSumOfLists(facets, counts, f, v);
    }
    PageHolds(allHits, req.offset, req.limit);
    r := Ok(SearchResponse(paged, totalHits, maxDuration, facets));
  }

  // ------------------------------------------------------------------------
  // Exact pages
  // ------------------------------------------------------------------------

  function RankingsOf(shards: seq<Shard>, grouped: bool): seq<Hits> {
    if shards == [] then []
    else [NodeRanking(shards[0].ranked, grouped)] + RankingsOf(shards[1..], grouped)
  }

  /** Every node answers from its own shard or fails. */
  ghost predicate Answering(shards: seq<Shard>, req: SearchRequest, answers: seq<Answer>) {
    |answers| == |shards| &&
    forall i :: 0 <= i < |shards| ==> answers[i].Err? || AnswersFor(shards[i], req, answers[i])
  }

  /** The shards of the nodes that answered. */
  function Answered(shards: seq<Shard>, answers: seq<Answer>): seq<Shard>
    requires |answers| == |shards|
  {
    if shards == [] then []
    else (if answers[0].Ok? then [shards[0]] else []) + Answered(shards[1..], answers[1..])
  }

  ghost predicate AllRanked(shards: seq<Shard>) {
    forall i :: 0 <= i < |shards| ==> Sorted(shards[i].ranked)
  }

  /** No wrap-around, and a limit the nodes accept. */
  predicate Wide(req: SearchRequest) {
    0 < req.limit + req.offset < TWO_TO_THE_32
  }

  lemma AnswerIsBest(shard: Shard, req: SearchRequest, a: Answer)
    requires Wide(req) && a.Ok? && AnswersFor(shard, Widened(req), a)
    ensures a.value.hits == Take(NodeRanking(shard.ranked, req.groupByPartition), req.limit + req.offset)
  {
    var l := NodeRanking(shard.ranked, req.groupByPartition);
    assert l[0..] == l;
  }

  lemma BestOfCons(shard: Shard, rest: seq<Shard>, grouped: bool, k: nat)
    ensures Flatten(TakeEach(RankingsOf([shard] + rest, grouped), k)) ==
            Take(NodeRanking(shard.ranked, grouped), k) + Flatten(TakeEach(RankingsOf(rest, grouped), k))
  {
    var l, ranks := NodeRanking(shard.ranked, grouped), RankingsOf(rest, grouped);
    assert ([shard] + rest)[1..] == rest;
    assert RankingsOf([shard] + rest, grouped) == [l] + ranks;
    assert ([l] + ranks)[1..] == ranks;
    assert ([Take(l, k)] + TakeEach(ranks, k))[1..] == TakeEach(ranks, k);
  }

  lemma {:induction false} HitsAreBest(shards: seq<Shard>, req: SearchRequest, answers: seq<Answer>)
    requires Wide(req) && Answering(shards, Widened(req), answers)
    ensures HitsOf(answers) ==
            Flatten(TakeEach(RankingsOf(Answered(shards, answers), req.groupByPartition), req.limit + req.offset))
    decreases |shards|
  {
    if shards != [] {
      HitsAreBest(shards[1..], req, answers[1..]);
      var rest := Answered(shards[1..], answers[1..]);
      if answers[0].Ok? {
        AnswerIsBest(shards[0], req, answers[0]);
        BestOfCons(shards[0], rest, req.groupByPartition, req.limit + req.offset);
        assert Answered(shards, answers) == [shards[0]] + rest;
      } else {
        assert Answered(shards, answers) == rest;
      }
    }
  }

  lemma TakeKeepsSorted(xs: Hits, k: nat)
    requires Sorted(xs)
    ensures Sorted(Take(xs, k))
  {
  }

  lemma {:induction false} RankingsSorted(shards: seq<Shard>, grouped: bool)
    requires AllRanked(shards)
    ensures AllSorted(RankingsOf(shards, grouped))
  {
    if shards != [] {
      RankingsSorted(shards[1..], grouped);
      var best := Take(shards[0].ranked, GROUP_CAP);
      TakeKeepsSorted(shards[0].ranked, GROUP_CAP);
      FirstOfEachAtMost(best, {}, 0.0);
    }
  }

  lemma {:induction false} AnsweredRanked(shards: seq<Shard>, answers: seq<Answer>)
    requires |answers| == |shards| && AllRanked(shards)
    ensures AllRanked(Answered(shards, answers))
  {
    if shards != [] {
      AnsweredRanked(shards[1..], answers[1..]);
    }
  }

  /** The page cut from the merged best hits is the page of the stable sort of every answering node's full list. */
  lemma TopKIsExact(shards: seq<Shard>, req: SearchRequest, answers: seq<Answer>)
    requires Wide(req) && AllRanked(shards) && Answering(shards, Widened(req), answers)
    ensures Page(StableSort(HitsOf(answers)), req.offset, req.limit) ==
            Page(StableSort(Flatten(RankingsOf(Answered(shards, answers), req.groupByPartition))),
                 req.offset, req.limit)
  {
    var lists := RankingsOf(Answered(shards, answers), req.groupByPartition);
    HitsAreBest(shards, req, answers);
    AnsweredRanked(shards, answers);
    RankingsSorted(Answered(shards, answers), req.groupByPartition);
    TakeOfSort(lists, req.limit + req.offset);
    SamePages(StableSort(HitsOf(answers)), StableSort(Flatten(lists)), req.offset, req.limit);
  }

  // ------------------------------------------------------------------------
  // Grouping
  // ------------------------------------------------------------------------

  /** No partition spans two nodes and no node is over the cap. */
  ghost predicate Groupable(shards: seq<Shard>) {
    (forall i :: 0 <= i < |shards| ==> |shards[i].ranked| <= GROUP_CAP) &&
    forall i, j :: 0 <= i < j < |shards| ==> NoSharedPartition(shards[i].ranked, shards[j].ranked)
  }

  lemma {:induction false} FlattenMembers(shards: seq<Shard>, x: SearchHit) returns (i: nat)
    requires x in Flatten(RankingsOf(shards, false))
    ensures i < |shards| && x in shards[i].ranked
  {
    var rest := RankingsOf(shards[1..], false);
    assert RankingsOf(shards, false)[1..] == rest;
    if x in shards[0].ranked {
      i := 0;
    } else {
      var j := FlattenMembers(shards[1..], x);
      i := j + 1;
    }
  }

  /** Sorting the grouped lists is grouping the sorted lists. */
  lemma {:induction false} GroupingCommutes(shards: seq<Shard>)
    requires AllRanked(shards) && Groupable(shards)
    ensures StableSort(Flatten(RankingsOf(shards, true))) ==
            FirstPerPartition(StableSort(Flatten(RankingsOf(shards, false))))
  {
    if shards != [] {
      var xs, rest := shards[0].ranked, shards[1..];
      var grouped, plain := RankingsOf(rest, true), RankingsOf(rest, false);
      assert RankingsOf(shards, true)[1..] == grouped && RankingsOf(shards, false)[1..] == plain;
      assert Groupable(rest);
      GroupingCommutes(rest);
      SortOfAppend(FirstPerPartition(xs), Flatten(grouped));
      SortOfAppend(xs, Flatten(plain));
      FirstOfEachAtMost(xs, {}, 0.0);
      SortOfSorted(FirstPerPartition(xs));
      SortOfSorted(xs);
      var ys := StableSort(Flatten(plain));
      StableSortSorted(Flatten(plain));
      forall i, j | 0 <= i < |xs| && 0 <= j < |ys|
        ensures xs[i].partition != ys[j].partition
      {
        assert ys[j] in multiset(ys);
        assert ys[j] in Flatten(plain);
        var k := FlattenMembers(rest, ys[j]);
        assert NoSharedPartition(shards[0].ranked, shards[k + 1].ranked);
        var l :| 0 <= l < |rest[k].ranked| && rest[k].ranked[l] == ys[j];
        assert shards[k + 1].ranked[l] == ys[j];
      }
      FirstOfEachMerge(xs, ys, {});
    }
  }

  /** The cap is harmless exactly on rankings it does not cut. */
  lemma CapHarmlessIff(n: nat)
    ensures (forall ranked: Hits :: |ranked| == n && Sorted(ranked) ==>
               NodeRanking(ranked, true) == FirstPerPartition(ranked)) <==> n <= 10_000
  {
    if n > GROUP_CAP {
      var last := SearchHit("", 0.0, "", "last");
      var ranked := seq(n, i => if i == n - 1 then last else SearchHit("", 0.0, "", "first"));
      assert FirstAt(ranked, last, n - 1);
      FirstOfEachMeaning(ranked, {}, last);
      FirstOfEachMeaning(Take(ranked, GROUP_CAP), {}, last);
      assert |ranked| == n && Sorted(ranked) && NodeRanking(ranked, true) != FirstPerPartition(ranked);
    }
  }

  lemma {:induction false} AnsweredOrigin(shards: seq<Shard>, answers: seq<Answer>, i: nat) returns (k: nat)
    requires |answers| == |shards| && i < |Answered(shards, answers)|
    ensures i <= k < |shards| && Answered(shards, answers)[i] == shards[k]
  {
    if answers[0].Ok? && i == 0 {
      k := 0;
    } else {
      var j := AnsweredOrigin(shards[1..], answers[1..], if answers[0].Ok? then i - 1 else i);
      k := j + 1;
    }
  }

  lemma {:induction false} AnsweredPair(shards: seq<Shard>, answers: seq<Answer>, i: nat, j: nat)
    returns (k: nat, l: nat)
    requires |answers| == |shards| && i < j < |Answered(shards, answers)|
    ensures k < l < |shards| && Answered(shards, answers)[i] == shards[k] && Answered(shards, answers)[j] == shards[l]
  {
    if answers[0].Ok? && i == 0 {
      var m := AnsweredOrigin(shards[1..], answers[1..], j - 1);
      k, l := 0, m + 1;
    } else {
      var d := if answers[0].Ok? then 1 else 0;
      k, l := AnsweredPair(shards[1..], answers[1..], i - d, j - d);
      k, l := k + 1, l + 1;
    }
  }

  lemma AnsweredGroupable(shards: seq<Shard>, answers: seq<Answer>)
    requires |answers| == |shards| && Groupable(shards)
    ensures Groupable(Answered(shards, answers))
  {
    var some := Answered(shards, answers);
    forall i | 0 <= i < |some|
      ensures |some[i].ranked| <= GROUP_CAP
    {
      var _ := AnsweredOrigin(shards, answers, i);
    }
    forall i, j | 0 <= i < j < |some|
      ensures NoSharedPartition(some[i].ranked, some[j].ranked)
    {
      var _, _ := AnsweredPair(shards, answers, i, j);
    }
  }

  /** A grouped page is the page of the first hit of each partition in the global ranking. */
  lemma GroupedPageIsExact(shards: seq<Shard>, req: SearchRequest, answers: seq<Answer>)
    requires Wide(req) && req.groupByPartition && AllRanked(shards) && Groupable(shards)
    requires Answering(shards, Widened(req), answers)
    ensures Page(StableSort(HitsOf(answers)), req.offset, req.limit) ==
            Page(FirstPerPartition(StableSort(Flatten(RankingsOf(Answered(shards, answers), false)))),
                 req.offset, req.limit)
  {
    TopKIsExact(shards, req, answers);
    AnsweredRanked(shards, answers);
    AnsweredGroupable(shards, answers);
    GroupingCommutes(Answered(shards, answers));
  }

  /** Routing by partition key is what keeps partitions apart. */
  lemma OwnedShardsShareNoPartition(shards: seq<Shard>, owner: string -> nat)
    requires forall i :: 0 <= i < |shards| ==> |shards[i].ranked| <= GROUP_CAP
    requires forall i, h :: 0 <= i < |shards| && h in shards[i].ranked ==> owner(h.partition) == i
    ensures Groupable(shards)
  {
    forall i, j | 0 <= i < j < |shards|
      ensures NoSharedPartition(shards[i].ranked, shards[j].ranked)
    {
      forall a, b | 0 <= a < |shards[i].ranked| && 0 <= b < |shards[j].ranked|
        ensures shards[i].ranked[a].partition != shards[j].ranked[b].partition
      {
        assert shards[i].ranked[a] in shards[i].ranked && shards[j].ranked[b] in shards[j].ranked;
      }
    }
  }

  // ------------------------------------------------------------------------
  // Totals, durations and errors
  // ------------------------------------------------------------------------

  /** The total is the number of all matching documents of the answering nodes, grouped or not. */
  lemma {:induction false} TotalIsMatches(shards: seq<Shard>, req: SearchRequest, answers: seq<Answer>)
    requires Answering(shards, req, answers)
    ensures TotalHitsOf(answers) == |Flatten(RankingsOf(Answered(shards, answers), false))|
    decreases |shards|
  {
    if shards != [] {
      var rest := Answered(shards[1..], answers[1..]);
      TotalIsMatches(shards[1..], req, answers[1..]);
      if answers[0].Ok? {
        assert AnswersFor(shards[0], req, answers[0]);
        assert ([shards[0]] + rest)[1..] == rest;
        var l, ls := shards[0].ranked, RankingsOf(rest, false);
        assert RankingsOf([shards[0]] + rest, false) == [l] + ls && ([l] + ls)[1..] == ls;
      } else {
        assert [] + rest == rest;
      }
    }
  }

  /** The duration is the longest of the answers'. */
  lemma {:induction false} LongestIsGreatest(answers: seq<Answer>, sofar: nat)
    ensures var longest := Longest(answers, sofar);
            longest >= sofar &&
            (forall i :: 0 <= i < |answers| && answers[i].Ok? ==> answers[i].value.duration <= longest) &&
            (longest == sofar ||
             exists i :: 0 <= i < |answers| && answers[i].Ok? && answers[i].value.duration == longest)
    decreases |answers|
  {
    if answers != [] {
      var next := if answers[0].Ok? && answers[0].value.duration > sofar then answers[0].value.duration else sofar;
      LongestIsGreatest(answers[1..], next);
      assert forall i :: 0 < i < |answers| ==> answers[i] == answers[1..][i - 1];
      if Longest(answers, sofar) != next {
        var i :| 0 <= i < |answers[1..]| && answers[1..][i].Ok? &&
                 answers[1..][i].value.duration == Longest(answers, sofar);
        assert answers[i + 1] == answers[1..][i];
      }
    }
  }

  /** The reported errors are those of the nodes that failed, one for each. */
  lemma {:induction false} ErrorsAreFailures(answers: seq<Answer>, e: string)
    ensures e in ErrorsOf(answers) <==> Err(e) in answers
    ensures |ErrorsOf(answers)| + SuccessesOf(answers) == |answers|
  {
    if answers != [] {
      ErrorsAreFailures(answers[1..], e);
      assert answers == [answers[0]] + answers[1..];
    }
  }

  // ------------------------------------------------------------------------
  // Facets
  // ------------------------------------------------------------------------

  function BodiesOf(shards: seq<Shard>): seq<Value> {
    if shards == [] then [] else shards[0].bodies + BodiesOf(shards[1..])
  }

  lemma {:induction false} FacetsAddUp(
      shards: seq<Shard>, req: SearchRequest, answers: seq<Answer>, field: string, v: string)
    requires Answering(shards, req, answers)
    ensures FacetsOf(answers, field, v) ==
            NodeTally(BodiesOf(Answered(shards, answers)), req.facetFields, field, v)
    decreases |shards|
  {
    if shards != [] {
      var rest := Answered(shards[1..], answers[1..]);
      FacetsAddUp(shards[1..], req, answers[1..], field, v);
      if answers[0].Ok? {
        assert AnswersFor(shards[0], req, answers[0]);
        assert Answered(shards, answers) == [shards[0]] + rest && ([shards[0]] + rest)[1..] == rest;
        NodeTallyOfAppend(shards[0].bodies, BodiesOf(rest), req.facetFields, field, v);
      } else {
        assert Answered(shards, answers) == rest;
      }
    }
  }

  /** The gateway's counts are the counts over all answering nodes' matching documents together. */
  lemma FacetsAreGlobal(shards: seq<Shard>, req: SearchRequest, answers: seq<Answer>, field: string, v: string)
    requires Answering(shards, req, answers)
    ensures FacetsOf(answers, field, v) ==
            Requested(req.facetFields, field) * Total(BodiesOf(Answered(shards, answers)), field, v)
  {
    FacetsAddUp(shards, req, answers, field, v);
    NodeTallyIsRequested(BodiesOf(Answered(shards, answers)), req.facetFields, field, v);
  }

  /** A node's bucket counts the places of the matching documents at which its value stands. */
  lemma NodeFacetsCountPlaces(shard: Shard, req: SearchRequest, a: Answer, field: string, v: string)
    requires AnswersFor(shard, req, a) && a.Ok?
    ensures FacetSum(a.value.facets, field, v) == multiset(req.facetFields)[field] * |Places(shard.bodies, field, v)|
  {
    NodeTallyIsRequested(shard.bodies, req.facetFields, field, v);
    TotalIsPlaces(shard.bodies, field, v);
    RequestedIsMultiplicity(req.facetFields, field);
  }

  /** So do the gateway's, over the documents of all answering nodes. */
  lemma FacetsCountPlaces(shards: seq<Shard>, req: SearchRequest, answers: seq<Answer>, field: string, v: string)
    requires Answering(shards, req, answers)
    ensures FacetsOf(answers, field, v) ==
            multiset(req.facetFields)[field] * |Places(BodiesOf(Answered(shards, answers)), field, v)|
  {
    FacetsAreGlobal(shards, req, answers, field, v);
    TotalIsPlaces(BodiesOf(Answered(shards, answers)), field, v);
    RequestedIsMultiplicity(req.facetFields, field);
  }

  lemma {:induction false} FacetsOfAppend(xs: seq<Answer>, ys: seq<Answer>, field: string, v: string)
    ensures FacetsOf(xs + ys, field, v) == FacetsOf(xs, field, v) + FacetsOf(ys, field, v)
  {
    if xs == [] {
      assert xs + ys == ys;
    } else {
      assert (xs + ys)[1..] == xs[1..] + ys;
      FacetsOfAppend(xs[1..], ys, field, v);
    }
  }

  lemma WithoutOne<T>(xs: seq<T>, ys: seq<T>, k: nat)
    requires xs != [] && k < |ys| && ys[k] == xs[0] && multiset(xs) == multiset(ys)
    ensures multiset(xs[1..]) == multiset(ys[..k] + ys[k + 1..])
  {
    assert xs == [xs[0]] + xs[1..];
    assert ys == ys[..k] + [ys[k]] + ys[k + 1..];
    assert multiset(xs[1..]) == multiset(xs) - multiset{xs[0]};
  }

  lemma FacetsOfWithout(ys: seq<Answer>, k: nat, field: string, v: string)
    requires k < |ys|
    ensures FacetsOf(ys, field, v) == FacetsOf([ys[k]], field, v) + FacetsOf(ys[..k] + ys[k + 1..], field, v)
  {
    assert ys == ys[..k] + ([ys[k]] + ys[k + 1..]);
    FacetsOfAppend(ys[..k], [ys[k]] + ys[k + 1..], field, v);
    FacetsOfAppend([ys[k]], ys[k + 1..], field, v);
    FacetsOfAppend(ys[..k], ys[k + 1..], field, v);
  }

  /** The order in which nodes are listed does not matter to any count. */
  lemma {:induction false} FacetsIgnoreNodeOrder(xs: seq<Answer>, ys: seq<Answer>, field: string, v: string)
    requires multiset(xs) == multiset(ys)
    ensures FacetsOf(xs, field, v) == FacetsOf(ys, field, v)
    decreases |xs|
  {
    assert |xs| == |multiset(xs)| == |multiset(ys)| == |ys|;
    if xs != [] {
      assert xs[0] in multiset(ys);
      var k :| 0 <= k < |ys| && ys[k] == xs[0];
      WithoutOne(xs, ys, k);
      FacetsIgnoreNodeOrder(xs[1..], ys[..k] + ys[k + 1..], field, v);
      FacetsOfWithout(ys, k, field, v);
      assert xs == [xs[0]] + xs[1..];
      FacetsOfAppend([xs[0]], xs[1..], field, v);
    }
  }
}

/** In which respects the order of upserts to one id does not matter. */
module Convergence {
  import opened Wrappers
  import opened JsonMerge
  import opened Store

  ghost predicate UpsertsTo(id: string, ops: seq<IndexOperation>) {
    forall i :: 0 <= i < |ops| ==> ops[i].kind.Upsert? && ops[i].id == id
  }

  lemma {:induction false} RunAtSnoc(s: Option<Doc>, id: string, ops: seq<IndexOperation>)
    requires ops != []
    ensures RunAt(s, id, ops) == StepAt(RunAt(s, id, ops[..|ops| - 1]), id, ops[|ops| - 1])
    decreases |ops|
  {
    var n := |ops| - 1;
    if n > 0 {
      assert ops[1..][..n - 1] == ops[..n][1..];
      RunAtSnoc(StepAt(s, id, ops[0]), id, ops[1..]);
    } else {
      assert ops[1..] == [];
    }
  }

  // ------------------------------------------------------------------------
  // The general case: only the left-to-right maxima matter
  // ------------------------------------------------------------------------

  /** The operation at `i` is newer than the initial document and than everything before it. */
  predicate IsRecord(initial: int, ops: seq<IndexOperation>, i: nat)
    requires i < |ops|
  {
    ops[i].writetime > initial && forall j :: 0 <= j < i ==> ops[j].writetime < ops[i].writetime
  }

  function Records(initial: int, ops: seq<IndexOperation>): seq<IndexOperation>
    decreases |ops|
  {
    if ops == [] then []
    else
      var n := |ops| - 1;
      Records(initial, ops[..n]) + if IsRecord(initial, ops, n) then [ops[n]] else []
  }

  /** Every operation merged unconditionally, in order. */
  function MergeFold(s: Option<Doc>, ops: seq<IndexOperation>): Option<Doc>
    decreases |ops|
  {
    if ops == [] then s
    else
      var n := |ops| - 1;
      Some(NewDoc(MergeFold(s, ops[..n]), ops[n]))
  }

  /** A run of upserts ends at the greatest writetime it met. */
  lemma {:induction false} RunEndsAtNewest(s: Option<Doc>, id: string, ops: seq<IndexOperation>)
    requires UpsertsTo(id, ops)
    ensures var w := Writetime(RunAt(s, id, ops));
            Writetime(s) <= w && (forall i :: 0 <= i < |ops| ==> ops[i].writetime <= w) &&
            (w == Writetime(s) || exists i :: 0 <= i < |ops| && ops[i].writetime == w)
    decreases |ops|
  {
    if ops != [] {
      var n := |ops| - 1;
      var front := ops[..n];
      RunAtSnoc(s, id, ops);
      RunEndsAtNewest(s, id, front);
      assert forall i :: 0 <= i < n ==> front[i] == ops[i];
      var w := Writetime(RunAt(s, id, front));
      if ops[n].writetime <= w && w != Writetime(s) {
        var i :| 0 <= i < |front| && front[i].writetime == w;
        assert ops[i].writetime == w;
      }
    }
  }

  lemma RecordIffNewer(s: Option<Doc>, id: string, ops: seq<IndexOperation>, n: nat)
    requires UpsertsTo(id, ops) && n < |ops|
    ensures IsRecord(Writetime(s), ops, n) <==> ops[n].writetime > Writetime(RunAt(s, id, ops[..n]))
  {
    var front := ops[..n];
    RunEndsAtNewest(s, id, front);
    assert forall i :: 0 <= i < n ==> front[i] == ops[i];
  }

  /** Any run of upserts is the merge of its writetime maxima. */
  lemma {:induction false} RunIsFoldOfRecords(s: Option<Doc>, id: string, ops: seq<IndexOperation>)
    requires UpsertsTo(id, ops)
    ensures RunAt(s, id, ops) == MergeFold(s, Records(Writetime(s), ops))
    decreases |ops|
  {
    if ops != [] {
      var n := |ops| - 1;
      var before := Records(Writetime(s), ops[..n]);
      RunAtSnoc(s, id, ops);
      RunIsFoldOfRecords(s, id, ops[..n]);
      RecordIffNewer(s, id, ops, n);
      if IsRecord(Writetime(s), ops, n) {
        assert (before + [ops[n]])[..|before|] == before;
      } else {
        assert before + [] == before;
      }
    }
  }

  // ------------------------------------------------------------------------
  // Exactly when order is irrelevant
  // ------------------------------------------------------------------------

  /** Upserts of plain objects, without collection signals, one of them strictly the newest. */
  ghost predicate Images(id: string, ops: seq<IndexOperation>, newest: nat) {
    UpsertsTo(id, ops) && newest < |ops| &&
    (forall i :: 0 <= i < |ops| ==> ops[i].deltas == [] && ops[i].payload.Object?) &&
    (forall i :: 0 <= i < |ops| && i != newest ==> ops[i].writetime < ops[newest].writetime)
  }

  /** The newest payload overwrites everything the other payloads say. */
  ghost predicate NewestCovers(ops: seq<IndexOperation>, newest: nat)
    requires newest < |ops|
  {
    forall i :: 0 <= i < |ops| ==> Covers(ops[newest].payload, ops[i].payload)
  }

  lemma {:induction false} RunIsCovered(id: string, ops: seq<IndexOperation>, c: Value)
    requires UpsertsTo(id, ops) && c.Object?
    requires forall i :: 0 <= i < |ops| ==> ops[i].deltas == [] && Covers(c, ops[i].payload)
    ensures RunAt(None, id, ops).Some? ==> Covers(c, RunAt(None, id, ops).value.body)
    decreases |ops|
  {
    if ops != [] {
      var n := |ops| - 1;
      RunAtSnoc(None, id, ops);
      RunIsCovered(id, ops[..n], c);
      var before := RunAt(None, id, ops[..n]);
      CoversMerge(c, if before.Some? then before.value.body else EMPTY_OBJECT, ops[n].payload);
    }
  }

  lemma CoveringReplaces(s: Option<Doc>, op: IndexOperation)
    requires op.deltas == [] && (s.Some? ==> Covers(op.payload, s.value.body))
    ensures NewDoc(s, op) == NewDoc(None, op) && NewDoc(s, op).body == op.payload
  {
    if s.Some? {
      MergeIsPatchIffCovers(s.value.body, op.payload);
    }
    MergeIsPatchIffCovers(EMPTY_OBJECT, op.payload);
  }

  /** If the newest image covers the others, it is what remains, whatever the order. */
  lemma {:induction false} NewestImageWins(id: string, ops: seq<IndexOperation>, newest: nat)
    requires Images(id, ops, newest) && NewestCovers(ops, newest)
    ensures RunAt(None, id, ops) == Some(NewDoc(None, ops[newest]))
    decreases |ops|
  {
    var n := |ops| - 1;
    RunAtSnoc(None, id, ops);
    if newest < n {
      NewestImageWins(id, ops[..n], newest);
    } else {
      RunIsCovered(id, ops[..n], ops[n].payload);
      CoveringReplaces(RunAt(None, id, ops[..n]), ops[n]);
      RunEndsAtNewest(None, id, ops[..n]);
    }
  }

  lemma {:induction false} OlderAreDropped(s: Option<Doc>, id: string, ops: seq<IndexOperation>)
    requires UpsertsTo(id, ops)
    requires forall i :: 0 <= i < |ops| ==> ops[i].writetime <= Writetime(s)
    ensures RunAt(s, id, ops) == s
    decreases |ops|
  {
    if ops != [] {
      OlderAreDropped(s, id, ops[1..]);
    }
  }

  lemma ToFront<T>(s: seq<T>, k: nat)
    requires k < |s|
    ensures multiset([s[k]] + (s[..k] + s[k + 1..])) == multiset(s)
  {
    assert s == s[..k] + [s[k]] + s[k + 1..];
  }

  /** With the newest first, the rest is dropped. */
  lemma NewestFirst(id: string, ops: seq<IndexOperation>, newest: nat) returns (ys: seq<IndexOperation>)
    requires Images(id, ops, newest)
    ensures multiset(ys) == multiset(ops) && RunAt(None, id, ys) == Some(NewDoc(None, ops[newest]))
  {
    var rest := ops[..newest] + ops[newest + 1..];
    ys := [ops[newest]] + rest;
    ToFront(ops, newest);
    assert ys[1..] == rest;
    OlderAreDropped(Some(NewDoc(None, ops[newest])), id, rest);
  }

  /** Everything but two positions. */
  function Others<T>(s: seq<T>, lo: nat, hi: nat): seq<T>
    requires lo < hi < |s|
  {
    s[..lo] + s[lo + 1..hi] + s[hi + 1..]
  }

  lemma OthersAt<T>(s: seq<T>, lo: nat, hi: nat, k: nat)
    requires lo < hi < |s| && k < |s| - 2
    ensures Others(s, lo, hi)[k] == s[if k < lo then k else if k < hi - 1 then k + 1 else k + 2]
  {
  }

  lemma OthersMultiset<T>(s: seq<T>, lo: nat, hi: nat)
    requires lo < hi < |s|
    ensures multiset(s) == multiset(Others(s, lo, hi)) + multiset{s[lo]} + multiset{s[hi]}
  {
    assert s == s[..lo] + [s[lo]] + s[lo + 1..hi] + [s[hi]] + s[hi + 1..];
  }

  lemma TwoFirst<T>(s: seq<T>, lo: nat, hi: nat, x: T, y: T)
    requires lo < hi < |s| && multiset{x, y} == multiset{s[lo], s[hi]}
    ensures multiset([x, y] + Others(s, lo, hi)) == multiset(s)
  {
    OthersMultiset(s, lo, hi);
  }

  lemma TwoToFront<T>(s: seq<T>, n: nat, i: nat) returns (others: seq<T>)
    requires n < |s| && i < |s| && i != n
    ensures multiset([s[i], s[n]] + others) == multiset(s)
    ensures forall k :: 0 <= k < |others| ==> exists l :: 0 <= l < |s| && l != n && s[l] == others[k]
  {
    var lo, hi := if i < n then i else n, if i < n then n else i;
    others := Others(s, lo, hi);
    TwoFirst(s, lo, hi, s[i], s[n]);
    forall k | 0 <= k < |others|
      ensures exists l :: 0 <= l < |s| && l != n && s[l] == others[k]
    {
      OthersAt(s, lo, hi, k);
    }
  }

  lemma RunOfThree(id: string, x: IndexOperation, y: IndexOperation, others: seq<IndexOperation>)
    ensures RunAt(None, id, [x, y] + others) == RunAt(StepAt(StepAt(None, id, x), id, y), id, others)
  {
    var ys := [x, y] + others;
    assert ys[1..] == [y] + others && ys[1..][1..] == others;
  }

  /** With one older image before it, what that image says beyond the newest shows through. */
  lemma OlderThenNewest(id: string, ops: seq<IndexOperation>, newest: nat, i: nat) returns (ys: seq<IndexOperation>)
    requires Images(id, ops, newest) && i < |ops| && i != newest
    ensures multiset(ys) == multiset(ops)
    ensures RunAt(None, id, ys) == Some(NewDoc(Some(NewDoc(None, ops[i])), ops[newest]))
  {
    var others := TwoToFront(ops, newest, i);
    ys := [ops[i], ops[newest]] + others;
    RunOfThree(id, ops[i], ops[newest], others);
    OlderAreDropped(Some(NewDoc(Some(NewDoc(None, ops[i])), ops[newest])), id, others);
  }

  /** Every permutation leaves the same document exactly when the newest payload covers every other one. */
  lemma OrderIrrelevantIff(id: string, ops: seq<IndexOperation>, newest: nat)
    requires Images(id, ops, newest)
    ensures (forall ys :: multiset(ys) == multiset(ops) ==> RunAt(None, id, ys) == RunAt(None, id, ops)) <==>
            NewestCovers(ops, newest)
  {
    if NewestCovers(ops, newest) {
      NewestImageWins(id, ops, newest);
      forall ys | multiset(ys) == multiset(ops)
        ensures RunAt(None, id, ys) == RunAt(None, id, ops)
      {
        var k := NewestInPermutation(id, ops, ys, newest);
        NewestImageWins(id, ys, k);
      }
    } else {
      var i :| 0 <= i < |ops| && !Covers(ops[newest].payload, ops[i].payload);
      CoversItself(ops[newest].payload);
      var ys := NewestFirst(id, ops, newest);
      var zs := OlderThenNewest(id, ops, newest, i);
      MergeIsPatchIffCovers(EMPTY_OBJECT, ops[i].payload);
      MergeIsPatchIffCovers(EMPTY_OBJECT, ops[newest].payload);
      MergeIsPatchIffCovers(ops[i].payload, ops[newest].payload);
      assert RunAt(None, id, ys) != RunAt(None, id, zs);
    }
  }

  lemma IndexIn<T>(xs: seq<T>, ys: seq<T>, i: nat) returns (j: nat)
    requires i < |xs| && multiset(xs) == multiset(ys)
    ensures j < |ys| && ys[j] == xs[i]
  {
    assert xs[i] in multiset(ys);
    j :| 0 <= j < |ys| && ys[j] == xs[i];
  }

  lemma NewestInPermutation(id: string, xs: seq<IndexOperation>, ys: seq<IndexOperation>, m: nat) returns (k: nat)
    requires multiset(xs) == multiset(ys) && Images(id, xs, m)
    ensures k < |ys| && ys[k] == xs[m] && Images(id, ys, k)
    ensures NewestCovers(xs, m) ==> NewestCovers(ys, k)
  {
    k := IndexIn(xs, ys, m);
    forall i | 0 <= i < |ys|
      ensures ys[i].kind.Upsert? && ys[i].id == id && ys[i].deltas == [] && ys[i].payload.Object?
      ensures i != k ==> ys[i].writetime < ys[k].writetime
      ensures NewestCovers(xs, m) ==> Covers(ys[k].payload, ys[i].payload)
    {
      var j := IndexIn(ys, xs, i);
      if j == m && i != k {
        TwiceInOnce(ys, i, k);
        OnceOfNewest(xs, m);
      }
    }
  }

  lemma TwiceInOnce<T>(s: seq<T>, i: nat, k: nat)
    requires i < |s| && k < |s| && i != k && s[i] == s[k]
    ensures multiset(s)[s[k]] >= 2
  {
    var lo, hi := if i < k then i else k, if i < k then k else i;
    assert s == s[..lo] + [s[lo]] + s[lo + 1..hi] + [s[hi]] + s[hi + 1..];
  }

  lemma OnceOfNewest(s: seq<IndexOperation>, m: nat)
    requires m < |s|
    requires forall i :: 0 <= i < |s| && i != m ==> s[i].writetime < s[m].writetime
    ensures multiset(s)[s[m]] == 1
  {
    assert s == s[..m] + [s[m]] + s[m + 1..];
    assert forall i :: 0 <= i < m ==> s[..m][i].writetime != s[m].writetime;
    assert forall i :: m + 1 <= i < |s| ==> s[i].writetime != s[m].writetime;
    assert s[m] !in s[..m] && s[m] !in s[m + 1..];
  }

  // ------------------------------------------------------------------------
  // Row images
  // ------------------------------------------------------------------------

  /** A row image whose columns hold no objects; a column that is null in the row is not in it. */
  ghost predicate FlatImage(op: IndexOperation) {
    op.deltas == [] && op.payload.Object? &&
    forall k :: k in op.payload.fields ==> !op.payload.fields[k].Object?
  }

  /** On flat images covering is having at least the same columns. */
  lemma FlatImagesConvergeIff(id: string, ops: seq<IndexOperation>, newest: nat)
    requires Images(id, ops, newest)
    requires forall i :: 0 <= i < |ops| ==> FlatImage(ops[i])
    ensures (forall ys :: multiset(ys) == multiset(ops) ==> RunAt(None, id, ys) == RunAt(None, id, ops)) <==>
            forall i :: 0 <= i < |ops| ==> ops[i].payload.fields.Keys <= ops[newest].payload.fields.Keys
  {
    OrderIrrelevantIff(id, ops, newest);
    forall i | 0 <= i < |ops|
      ensures Covers(ops[newest].payload, ops[i].payload) <==>
              ops[i].payload.fields.Keys <= ops[newest].payload.fields.Keys
    {
    }
  }

  /** In particular images of one column set leave the newest under every permutation. */
  lemma FullImagesConverge(
      id: string, xs: seq<IndexOperation>, ys: seq<IndexOperation>, columns: set<string>, newest: nat)
    requires Images(id, xs, newest) && multiset(xs) == multiset(ys)
    requires forall i :: 0 <= i < |xs| ==> FlatImage(xs[i]) && xs[i].payload.fields.Keys == columns
    ensures RunAt(None, id, ys) == RunAt(None, id, xs)
  {
    FlatImagesConvergeIff(id, xs, newest);
  }

  /** Partial images do not converge: an older one that arrives late is dropped whole. */
  lemma PartialImagesDiverge(id: string)
    ensures var x := IndexOperation(Upsert, id, None, 1, None, Object(map["a" := Null]), []);
            var y := IndexOperation(Upsert, id, None, 2, None, Object(map["b" := Null]), []);
            exists ys :: multiset(ys) == multiset([x, y]) && RunAt(None, id, ys) != RunAt(None, id, [x, y])
  {
    var x := IndexOperation(Upsert, id, None, 1, None, Object(map["a" := Null]), []);
    var y := IndexOperation(Upsert, id, None, 2, None, Object(map["b" := Null]), []);
    var ops := [x, y];
    FlatImagesConvergeIff(id, ops, 1);
    assert "a" in ops[0].payload.fields.Keys && "a" !in ops[1].payload.fields.Keys;
  }
}

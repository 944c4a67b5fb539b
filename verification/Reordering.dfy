/** Batches that reach a node out of order. */
module Reordering {
  import opened Wrappers
  import opened Store

  /** The operation can change the document of the id. */
  predicate Touches(op: IndexOperation, id: string, partition: string -> string) {
    match op.kind
    case Upsert => op.id == id
    case Delete => op.id == id
    case PartitionDelete => PartitionOf(op) == partition(id)
    case Unspecified => false
  }

  /** One of the two upserts a document that the other can change; two deletions never conflict. */
  predicate Conflict(x: IndexOperation, y: IndexOperation, partition: string -> string) {
    (x.kind.Upsert? && Touches(y, x.id, partition)) || (y.kind.Upsert? && Touches(x, y.id, partition))
  }

  ghost predicate Independent(xs: seq<IndexOperation>, ys: seq<IndexOperation>, partition: string -> string) {
    forall x, y :: x in xs && y in ys ==> !Conflict(x, y, partition)
  }

  lemma StepsCommute(
      s: Option<Doc>, id: string, x: IndexOperation, y: IndexOperation, partition: string -> string)
    requires KeyedAt(s, id, partition) && !Conflict(x, y, partition)
    requires x.kind.Upsert? ==> PartitionOf(x) == partition(x.id)
    requires y.kind.Upsert? ==> PartitionOf(y) == partition(y.id)
    ensures StepAt(StepAt(s, id, x), id, y) == StepAt(StepAt(s, id, y), id, x)
  {
  }

  lemma {:induction false} StepPastRun(
      s: Option<Doc>, id: string, x: IndexOperation, ys: seq<IndexOperation>, partition: string -> string)
    requires KeyedAt(s, id, partition) && WellKeyed(ys, partition) && Independent([x], ys, partition)
    requires x.kind.Upsert? ==> PartitionOf(x) == partition(x.id)
    ensures RunAt(StepAt(s, id, x), id, ys) == StepAt(RunAt(s, id, ys), id, x)
    decreases |ys|
  {
    if ys != [] {
      assert x in [x] && ys[0] in ys;
      StepsCommute(s, id, x, ys[0], partition);
      StepPastRun(StepAt(s, id, ys[0]), id, x, ys[1..], partition);
    }
  }

  lemma {:induction false} RunsCommute(
      s: Option<Doc>, id: string, xs: seq<IndexOperation>, ys: seq<IndexOperation>, partition: string -> string)
    requires KeyedAt(s, id, partition) && WellKeyed(xs, partition) && WellKeyed(ys, partition)
    requires Independent(xs, ys, partition)
    ensures RunAt(RunAt(s, id, xs), id, ys) == RunAt(RunAt(s, id, ys), id, xs)
    decreases |xs|
  {
    if xs != [] {
      var x := xs[0];
      assert x in xs;
      RunsCommute(StepAt(s, id, x), id, xs[1..], ys, partition);
      StepPastRun(s, id, x, ys, partition);
    }
  }

  /** Batches without a conflicting pair leave the same documents in either order. */
  lemma IndependentBatchesCommute(
      m: Documents, xs: seq<IndexOperation>, ys: seq<IndexOperation>, partition: string -> string)
    requires KeyedDocs(m, partition) && WellKeyed(xs, partition) && WellKeyed(ys, partition)
    requires Independent(xs, ys, partition)
    ensures ApplyAll(ApplyAll(m, xs), ys) == ApplyAll(ApplyAll(m, ys), xs)
  {
    forall id
      ensures Get(ApplyAll(ApplyAll(m, xs), ys), id) == Get(ApplyAll(ApplyAll(m, ys), xs), id)
    {
      ApplyAllAt(m, xs, id);
      ApplyAllAt(m, ys, id);
      ApplyAllAt(ApplyAll(m, xs), ys, id);
      ApplyAllAt(ApplyAll(m, ys), xs, id);
      RunsCommute(Get(m, id), id, xs, ys, partition);
    }
    SameGets(ApplyAll(ApplyAll(m, xs), ys), ApplyAll(ApplyAll(m, ys), xs));
  }

  /**
   * An upsert and a removal of its document leave the same documents in either order exactly when the
   * removal is a plain delete that either is no newer than the stored document, or is newer than that but
   * not than the upsert, which in turn owes nothing to the stored document. In every other case in which the
   * removal takes effect, the upsert that arrives late brings the row back.
   */
  lemma LateUpsertRevives(m: Documents, u: IndexOperation, d: IndexOperation, partition: string -> string)
    requires KeyedDocs(m, partition) && u.kind.Upsert? && PartitionOf(u) == partition(u.id)
    requires (d.kind.Delete? || d.kind.PartitionDelete?) && Touches(d, u.id, partition)
    ensures var w := Writetime(Get(m, u.id));
            (d.kind.PartitionDelete? || d.writetime > w ==> u.id in Apply(Apply(m, d), u)) &&
            (Apply(Apply(m, u), d) == Apply(Apply(m, d), u) <==>
             d.kind.Delete? &&
             (d.writetime <= w ||
              (u.writetime > w && d.writetime <= u.writetime &&
               (u.id in m ==> Forgets(m[u.id].body, u.payload, u.deltas)))))
  {
    var l, r := Apply(Apply(m, u), d), Apply(Apply(m, d), u);
    if u.id in m {
      BodyForgetsIff(m[u.id], u);
    }
    if d.kind.PartitionDelete? {
      assert Get(Apply(m, d), u.id) == None && Get(l, u.id) == None && Get(r, u.id).Some?;
    } else {
      DeleteSwap(m, u, d);
      assert l == r <==> Get(l, u.id) == Get(r, u.id);
    }
  }

  lemma DeleteSwap(m: Documents, u: IndexOperation, d: IndexOperation)
    requires u.kind.Upsert? && d.kind.Delete? && d.id == u.id
    ensures Apply(Apply(m, u), d) - {u.id} == m - {u.id} == Apply(Apply(m, d), u) - {u.id}
    ensures Apply(Apply(m, u), d) == Apply(Apply(m, d), u) <==>
            Get(Apply(Apply(m, u), d), u.id) == Get(Apply(Apply(m, d), u), u.id)
  {
    var l, r := Apply(Apply(m, u), d), Apply(Apply(m, d), u);
    if Get(l, u.id) == Get(r, u.id) {
      forall id
        ensures Get(l, id) == Get(r, id)
      {
      }
      SameGets(l, r);
    }
  }
}

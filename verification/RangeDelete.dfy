/**
 * A range delete end to end: flush, list the partition on its node, filter by clustering key, enqueue the
 * deletes one by one.
 */
module RangeDelete {
  import opened Wrappers
  import opened JsonMerge
  import opened Store
  import opened Node = Engine
  import opened EngineRuns
  import opened CrashRecovery
  import opened Router
  import Batcher
  import Sharding
  import Keys

  /** The operation of the item `commit_range_delete` enqueues for one covered id. */
  function DeleteFor(id: string, start: PendingRangeStart): IndexOperation {
    IndexOperation(Delete, id, Some(start.partitionKey), start.writetime, None, Null, [])
  }

  function DeletesFor(ids: seq<string>, start: PendingRangeStart): seq<IndexOperation> {
    if ids == [] then [] else [DeleteFor(ids[0], start)] + DeletesFor(ids[1..], start)
  }

  /** The documents without those of the given ids that are older than the range delete. */
  function WithoutOlder(m: Documents, ids: seq<string>, writetime: U64): Documents {
    map id | id in m && !(id in ids && m[id].writetime < writetime) :: m[id]
  }

  lemma {:induction false} DeletesApply(m: Documents, ids: seq<string>, start: PendingRangeStart)
    ensures ApplyAll(m, DeletesFor(ids, start)) == WithoutOlder(m, ids, start.writetime)
    decreases |ids|
  {
    if ids != [] {
      var op, rest := DeleteFor(ids[0], start), DeletesFor(ids[1..], start);
      assert ([op] + rest)[1..] == rest;
      assert Apply(m, op) == WithoutOlder(m, [ids[0]], start.writetime);
      DeletesApply(Apply(m, op), ids[1..], start);
      assert ids == [ids[0]] + ids[1..];
      assert WithoutOlder(WithoutOlder(m, [ids[0]], start.writetime), ids[1..], start.writetime)
          == WithoutOlder(m, ids, start.writetime);
    } else {
      assert WithoutOlder(m, ids, start.writetime) == m;
    }
  }

  lemma {:induction false} DeletesAreDeletes(ids: seq<string>, start: PendingRangeStart)
    ensures forall op :: op in DeletesFor(ids, start) ==> op.kind.Delete?
    decreases |ids|
  {
    if ids != [] {
      DeletesAreDeletes(ids[1..], start);
    }
  }

  lemma {:induction false} DeletionsAreCoherent(s: State, ops: seq<IndexOperation>, schema: Schema)
    requires forall op :: op in ops ==> op.kind.Delete?
    ensures CoherentBatch(s, ops, schema)
    decreases |ops|
  {
    if ops != [] {
      assert ops[0] in ops;
      DeletionsAreCoherent(Write(s, ops[0], schema), ops[1..], schema);
    }
  }

  /** Stale ids in the list do no harm: deleting one leaves the writer's view as it is. */
  lemma DeletesRun(s: State, ids: seq<string>, start: PendingRangeStart, schema: Schema)
    requires Agreement(s, schema)
    ensures WriteAll(s, DeletesFor(ids, start), schema).pending ==
            WithoutOlder(s.pending, ids, start.writetime)
  {
    DeletesAreDeletes(ids, start);
    DeletionsAreCoherent(s, DeletesFor(ids, start), schema);
    BatchRefines(s, DeletesFor(ids, start), schema);
    DeletesApply(s.pending, ids, start);
  }

  /** Nothing live is missing from the list, and what it names belongs to the partition. */
  lemma ListedCoversPartition(s: State, pk: string, schema: Schema, partition: string -> string)
    requires Agreement(s, schema) && KeyedState(s, partition)
    ensures forall id :: id in s.pending && s.pending[id].partition == pk ==> id in Listed(s, pk)
    ensures forall id :: id in Listed(s, pk) ==> partition(id) == pk
  {
    forall id | id in s.pending && s.pending[id].partition == pk
      ensures id in Listed(s, pk)
    {
      assert AgreesAt(s, id, schema);
    }
  }

  /** A partition's list is exactly its ids that a lookup finds, live or not. */
  lemma ListedIff(s: State, pk: string, partition: string -> string, id: string)
    requires KeyedState(s, partition)
    ensures id in Listed(s, pk) <==> partition(id) == pk && Find(s, id).Some?
  {
  }

  /** What a range delete should leave: everything but the partition's covered documents that are older. */
  function AfterRangeDelete(m: Documents, start: PendingRangeStart, range: Range, table: Table): Documents
    requires |range.start| == |range.end| == |table.ckTypes|
  {
    map id | id in m &&
             !(m[id].partition == start.partitionKey && Covered(id, range, table) && m[id].writetime < start.writetime)
           :: m[id]
  }

  /** The range a start bound and an end row describe. */
  function RangeBetween(start: PendingRangeStart, end: CdcRow): Range {
    Range(start.ckValues, start.startInclusive, end.ckValues, end.operation.RangeInclRight?)
  }

  /**
   * On a table with one `int` or `bigint` clustering column, a row of the partition survives a pair of bound
   * rows exactly when its clustering value lies outside the bounds or its document is at least as new as the
   * start row. A bound row without a value leaves its side open.
   */
  lemma IntegerRowSurvives(
      m: Documents, first: CdcRow, second: CdcRow, hash: seq<string> -> nat, nodes: nat, ty: Keys.ColumnType,
      ck: I64, low: Option<I64>, high: Option<I64>)
    requires nodes > 0 && Keys.ColonFree(first.pkValues) && (ty.IntType? || ty.BigIntType?)
    requires first.ckValues == [IntegerKey(low)] && second.ckValues == [IntegerKey(high)]
    requires var id := Keys.Join(first.pkValues + [Keys.PrintInt(ck)]);
             id in m && m[id].partition == Keys.Join(first.pkValues)
    ensures var id := Keys.Join(first.pkValues + [Keys.PrintInt(ck)]);
            var start := StartOf(first, hash, nodes);
            var table := Table(|first.pkValues|, [ty]);
            var below := low.Some? && if first.operation.RangeInclLeft? then ck < low.value else ck <= low.value;
            var above := high.Some? && if second.operation.RangeInclRight? then ck > high.value else ck >= high.value;
            id in AfterRangeDelete(m, start, RangeBetween(start, second), table) <==>
            below || above || m[id].writetime >= first.writetime
  {
    var start := StartOf(first, hash, nodes);
    Keys.ParsePrintInt(ck);
    CoveredByOneColumn(first.pkValues, Keys.PrintInt(ck), RangeBetween(start, second), ty);
    if low.Some? {
      IntegerBounds(ck, low.value, start.startInclusive, ty);
    }
    if high.Some? {
      IntegerBounds(ck, high.value, second.operation.RangeInclRight?, ty);
    }
  }

  /** The same on a table with one text clustering column, in the dictionary order. */
  lemma TextRowSurvives(
      m: Documents, first: CdcRow, second: CdcRow, hash: seq<string> -> nat, nodes: nat,
      ck: string, low: Option<string>, high: Option<string>)
    requires nodes > 0 && Keys.ColonFree(first.pkValues) && ':' !in ck
    requires first.ckValues == [low] && second.ckValues == [high]
    requires var id := Keys.Join(first.pkValues + [ck]); id in m && m[id].partition == Keys.Join(first.pkValues)
    ensures var id := Keys.Join(first.pkValues + [ck]);
            var start := StartOf(first, hash, nodes);
            var table := Table(|first.pkValues|, [Keys.TextType]);
            var below := low.Some? &&
                         if first.operation.RangeInclLeft? then Keys.Before(ck, low.value)
                         else !Keys.Before(low.value, ck);
            var above := high.Some? &&
                         if second.operation.RangeInclRight? then Keys.Before(high.value, ck)
                         else !Keys.Before(ck, high.value);
            id in AfterRangeDelete(m, start, RangeBetween(start, second), table) <==>
            below || above || m[id].writetime >= first.writetime
  {
    var start := StartOf(first, hash, nodes);
    CoveredByOneColumn(first.pkValues, ck, RangeBetween(start, second), Keys.TextType);
    if low.Some? {
      TextBounds(ck, low.value, start.startInclusive);
    }
    if high.Some? {
      TextBounds(ck, high.value, second.operation.RangeInclRight?);
    }
  }

  function IntegerKey(bound: Option<I64>): Option<string> {
    if bound.Some? then Some(Keys.PrintInt(bound.value)) else None
  }

  // ------------------------------------------------------------------------
  // What the enqueued deletes do
  // ------------------------------------------------------------------------

  /** Of the partition `pk`, or of the other partitions. */
  function Side(pk: string): string -> nat {
    other => if other == pk then 0 else 1
  }

  /** The ids a range delete finds on its node. */
  ghost predicate Matches(matching: seq<string>, s: State, pk: string, range: Range, table: Table)
    requires |range.start| == |range.end| == |table.ckTypes|
  {
    forall id :: id in matching <==> id in Listed(s, pk) && Covered(id, range, table)
  }

  lemma RangeIsExact(
      s: State, matching: seq<string>, start: PendingRangeStart, range: Range, table: Table,
      schema: Schema, partition: string -> string)
    requires |range.start| == |range.end| == |table.ckTypes|
    requires Agreement(s, schema) && KeyedState(s, partition)
    requires Matches(matching, s, start.partitionKey, range, table)
    ensures WithoutOlder(s.pending, matching, start.writetime) ==
            AfterRangeDelete(s.pending, start, range, table)
  {
    ListedCoversPartition(s, start.partitionKey, schema, partition);
    forall id | id in s.pending
      ensures id in matching <==> s.pending[id].partition == start.partitionKey && Covered(id, range, table)
    {
    }
  }

  lemma DeletesLand(
      s: State, steps: seq<Step>, matching: seq<string>, start: PendingRangeStart, range: Range, table: Table,
      schema: Schema, partition: string -> string)
    requires |range.start| == |range.end| == |table.ckTypes|
    requires Agreement(s, schema) && KeyedState(s, partition)
    requires Calm(steps, NEVER_PRUNED) && CoherentRun(s, steps, schema)
    requires Sharding.Keyed(OpsOf(steps), partition)
    requires Matches(matching, s, start.partitionKey, range, table)
    requires Sharding.ShareOf(OpsOf(steps), Side(start.partitionKey), 0) == DeletesFor(matching, start)
    ensures var side, end := Side(start.partitionKey), Run(s, steps, schema).pending;
            Sharding.Owned(end, side, 0) == Sharding.Owned(AfterRangeDelete(s.pending, start, range, table), side, 0) &&
            Sharding.Owned(end, side, 1) ==
            ApplyAll(Sharding.Owned(s.pending, side, 1), Sharding.ShareOf(OpsOf(steps), side, 1))
  {
    var side, log := Side(start.partitionKey), OpsOf(steps);
    RunRefinesSpec(s, steps, schema);
    CurrentIsApplied(Spec(s.pending, s.committed), steps);
    Sharding.ShareIsOwned(s.pending, log, side, partition, 0);
    Sharding.ShareIsOwned(s.pending, log, side, partition, 1);
    DeletesApply(Sharding.Owned(s.pending, side, 0), matching, start);
    RangeIsExact(s, matching, start, range, table, schema, partition);
    assert WithoutOlder(Sharding.Owned(s.pending, side, 0), matching, start.writetime)
        == Sharding.Owned(WithoutOlder(s.pending, matching, start.writetime), side, 0);
  }

  lemma SameInPartition(m: Documents, n: Documents, pk: string, id: string)
    requires Sharding.Owned(m, Side(pk), 0) == Sharding.Owned(n, Side(pk), 0)
    ensures id in m && m[id].partition == pk <==> id in n && n[id].partition == pk
    ensures id in m && m[id].partition == pk ==> m[id] == n[id]
  {
    assert id in Sharding.Owned(m, Side(pk), 0) <==> id in m && m[id].partition == pk;
    assert id in Sharding.Owned(n, Side(pk), 0) <==> id in n && n[id].partition == pk;
  }

  /**
   * Once the node has been sent the deletes of the ids that matched, in whatever batches, between whatever
   * commits and operations on other partitions, the partition holds all its documents but the covered ones
   * that are older than the start row, and the other partitions hold what those other operations make of them.
   */
  lemma RangeDeleteLands(
      s: State, steps: seq<Step>, matching: seq<string>, start: PendingRangeStart, range: Range, table: Table,
      schema: Schema, partition: string -> string)
    requires |range.start| == |range.end| == |table.ckTypes|
    requires Agreement(s, schema) && KeyedState(s, partition)
    requires Calm(steps, NEVER_PRUNED) && CoherentRun(s, steps, schema)
    requires Sharding.Keyed(OpsOf(steps), partition)
    requires Matches(matching, s, start.partitionKey, range, table)
    requires Sharding.ShareOf(OpsOf(steps), Side(start.partitionKey), 0) == DeletesFor(matching, start)
    ensures var pk, end := start.partitionKey, Run(s, steps, schema).pending;
            (forall id :: id in end && end[id].partition == pk <==>
               id in s.pending && s.pending[id].partition == pk &&
               !(Covered(id, range, table) && s.pending[id].writetime < start.writetime)) &&
            (forall id :: id in end && end[id].partition == pk ==> end[id] == s.pending[id]) &&
            Sharding.Owned(end, Side(pk), 1) ==
            ApplyAll(Sharding.Owned(s.pending, Side(pk), 1), Sharding.ShareOf(OpsOf(steps), Side(pk), 1))
  {
    var end, left := Run(s, steps, schema).pending, AfterRangeDelete(s.pending, start, range, table);
    DeletesLand(s, steps, matching, start, range, table, schema, partition);
    forall id
      ensures id in end && end[id].partition == start.partitionKey <==>
              id in left && left[id].partition == start.partitionKey
      ensures id in end && end[id].partition == start.partitionKey ==> end[id] == left[id]
    {
      SameInPartition(end, left, start.partitionKey, id);
    }
  }

  // ------------------------------------------------------------------------
  // Committing a range delete
  // ------------------------------------------------------------------------

  const FLUSH_RETRIES: nat := 3

  function ItemsFor(ids: seq<string>, start: PendingRangeStart): seq<Batcher.Raw> {
    if ids == [] then []
    else
      ItemsFor(ids[..|ids| - 1], start) +
      [Batcher.Item(BatchItem(start.targetNode, DeleteFor(ids[|ids| - 1], start)))]
  }

  /**
   * `commit_range_delete`: up to three flushes, the listing on the node, and one item for each covered id
   * until an `add` fails. The node itself is only read.
   */
  method CommitRangeDelete(
      batcher: Batcher.Service, node: Node.Engine, reachable: bool, start: PendingRangeStart, end: CdcRow,
      table: Table, flushes: nat -> Batcher.Network, adds: nat -> Batcher.Network)
      returns (ok: bool, matching: seq<string>, enqueued: nat)
    requires |start.ckValues| == |end.ckValues| == |table.ckTypes|
    modifies batcher
    ensures batcher.lastFlushFailed == old(batcher.lastFlushFailed)
    ensures reachable ==>
              Matches(matching, node.View(), start.partitionKey, RangeBetween(start, end), table) &&
              forall i, j :: 0 <= i < j < |matching| ==> matching[i] != matching[j]
    ensures enqueued <= |matching|
    ensures batcher.accepted == old(batcher.accepted) + ItemsFor(matching[..enqueued], start)
    ensures ok ==> reachable && enqueued == |matching|
    ensures reachable && batcher.lastFlushFailed ==> enqueued == 0 && (ok <==> matching == [])
    ensures reachable && !batcher.lastFlushFailed && |matching| < Batcher.BATCH_LIMIT ==>
              ok && batcher.buffer == ItemsFor(matching, start)
    ensures reachable && !batcher.lastFlushFailed && !ok ==> enqueued > 0 && batcher.buffer == []
  {
    matching, enqueued := [], 0;
    var endInclusive := end.operation == RangeInclRight;
    PreFlush(batcher, flushes);
    assert batcher.accepted + [] == batcher.accepted;
    if !reachable {
      return false, matching, enqueued;
    }
    var ids := node.ListDocumentIds(start.partitionKey);
    var range := Range(start.ckValues, start.startInclusive, end.ckValues, endInclusive);
    matching := FilterDocIds(ids, range, table);
    FilterMatches(node.View(), ids, matching, start.partitionKey, range, table);
    ok, enqueued := Enqueue(batcher, matching, start, adds);
  }

  /** `enqueue_batch_item` for one id. */
  method EnqueueOne(batcher: Batcher.Service, id: string, start: PendingRangeStart, add: Batcher.Network)
      returns (ok: bool)
    modifies batcher
    ensures batcher.lastFlushFailed == old(batcher.lastFlushFailed)
    ensures batcher.lastFlushFailed ==>
              !ok && batcher.accepted == old(batcher.accepted) && batcher.buffer == old(batcher.buffer)
    ensures !batcher.lastFlushFailed ==>
              var item := Batcher.Item(BatchItem(start.targetNode, DeleteFor(id, start)));
              batcher.accepted == old(batcher.accepted) + [item] &&
              (|old(batcher.buffer)| + 1 < Batcher.BATCH_LIMIT ==>
                 ok && batcher.buffer == old(batcher.buffer) + [item]) &&
              (!ok ==> batcher.buffer == [])
  {
    ok := batcher.Add(Batcher.Item(BatchItem(start.targetNode, DeleteFor(id, start))), add);
  }

  lemma ItemsSnoc(ids: seq<string>, i: nat, start: PendingRangeStart)
    requires i < |ids|
    ensures ItemsFor(ids[..i + 1], start) ==
            ItemsFor(ids[..i], start) + [Batcher.Item(BatchItem(start.targetNode, DeleteFor(ids[i], start)))]
  {
    assert ids[..i + 1][..i] == ids[..i];
  }

  /** `enqueue_batch_item` for one id after the other, until one is refused or its flush fails. */
  method Enqueue(batcher: Batcher.Service, ids: seq<string>, start: PendingRangeStart, adds: nat -> Batcher.Network)
      returns (ok: bool, enqueued: nat)
    requires batcher.buffer == []
    modifies batcher
    ensures enqueued <= |ids| && (ok ==> enqueued == |ids|)
    ensures batcher.lastFlushFailed == old(batcher.lastFlushFailed)
    ensures batcher.accepted == old(batcher.accepted) + ItemsFor(ids[..enqueued], start)
    ensures batcher.lastFlushFailed ==> enqueued == 0 && (ok <==> ids == [])
    ensures !batcher.lastFlushFailed && |ids| < Batcher.BATCH_LIMIT ==> ok && batcher.buffer == ItemsFor(ids, start)
    ensures !batcher.lastFlushFailed && !ok ==> enqueued > 0 && batcher.buffer == []
  {
    enqueued := 0;
    while enqueued < |ids|
      invariant enqueued <= |ids|
      invariant batcher.lastFlushFailed == old(batcher.lastFlushFailed)
      invariant batcher.lastFlushFailed ==> enqueued == 0
      invariant batcher.accepted == old(batcher.accepted) + ItemsFor(ids[..enqueued], start)
      invariant enqueued < Batcher.BATCH_LIMIT ==> batcher.buffer == ItemsFor(ids[..enqueued], start)
    {
      ItemsSnoc(ids, enqueued, start);
      ItemsLength(ids[..enqueued], start);
      var added := EnqueueOne(batcher, ids[enqueued], start, adds(enqueued));
      if batcher.lastFlushFailed {
        return false, enqueued;
      }
      enqueued := enqueued + 1;
      if !added {
        return false, enqueued;
      }
    }
    assert ids[..enqueued] == ids;
    return true, enqueued;
  }

  lemma {:induction false} ItemsLength(ids: seq<string>, start: PendingRangeStart)
    ensures |ItemsFor(ids, start)| == |ids|
  {
    if ids != [] {
      ItemsLength(ids[..|ids| - 1], start);
    }
  }

  lemma {:induction false} DeletesSnoc(ids: seq<string>, id: string, start: PendingRangeStart)
    ensures DeletesFor(ids + [id], start) == DeletesFor(ids, start) + [DeleteFor(id, start)]
    decreases |ids|
  {
    if ids == [] {
      assert ([] + [id])[1..] == [];
    } else {
      assert (ids + [id])[1..] == ids[1..] + [id];
      DeletesSnoc(ids[1..], id, start);
    }
  }

  /** What a flush of these items sends to the node that was listed. */
  lemma {:induction false} ItemsAreDeletes(ids: seq<string>, start: PendingRangeStart)
    ensures Batcher.Project(ItemsFor(ids, start), start.targetNode) == DeletesFor(ids, start)
  {
    if ids != [] {
      var n := |ids| - 1;
      ItemsAreDeletes(ids[..n], start);
      var item := Batcher.Item(BatchItem(start.targetNode, DeleteFor(ids[n], start)));
      Batcher.ProjectSnoc(ItemsFor(ids[..n], start), item, start.targetNode);
      DeletesSnoc(ids[..n], ids[n], start);
      assert ids == ids[..n] + [ids[n]];
    }
  }

  /** The enqueued items go to the node that owns the partition of the start bound's row. */
  lemma {:induction false} ItemsGoToOwner(ids: seq<string>, row: CdcRow, hash: seq<string> -> nat, nodes: nat, i: nat)
    requires nodes > 0 && row.pkValues != [] && Keys.ColonFree(row.pkValues) && i < |ids|
    ensures var items := ItemsFor(ids, StartOf(row, hash, nodes));
            i < |items| && items[i].Item? &&
            var op := items[i].item.operation;
            op.kind.Delete? && op.id == ids[i] && op.writetime == row.writetime &&
            PartitionOf(op) == Keys.Join(row.pkValues) &&
            items[i].item.targetNode == Sharding.Owner(hash, PartitionOf(op), nodes)
  {
    var start := StartOf(row, hash, nodes);
    StartBoundIsOwned(row, hash, nodes);
    ItemsLength(ids[..|ids| - 1], start);
    if i < |ids| - 1 {
      ItemsGoToOwner(ids[..|ids| - 1], row, hash, nodes, i);
    }
  }

  /** Whether the first flush succeeds or not, it empties the buffer, so that a second one finds nothing to do. */
  method PreFlush(batcher: Batcher.Service, flushes: nat -> Batcher.Network)
    modifies batcher
    ensures batcher.buffer == [] && batcher.accepted == old(batcher.accepted)
    ensures batcher.lastFlushFailed == old(batcher.lastFlushFailed)
    ensures exists order ::
              Batcher.Visits(order, Batcher.TargetsOf(old(batcher.buffer))) &&
              batcher.View() == Batcher.Flushed(old(batcher.View()), order, flushes(0))
  {
    ghost var order := [];
    for i := 0 to FLUSH_RETRIES
      invariant i == 0 ==> batcher.View() == old(batcher.View())
      invariant i > 0 ==>
                  batcher.buffer == [] && Batcher.Visits(order, Batcher.TargetsOf(old(batcher.buffer))) &&
                  batcher.View() == Batcher.Flushed(old(batcher.View()), order, flushes(0))
    {
      ghost var before := batcher.View();
      var failed := batcher.Flush(flushes(i));
      ghost var visited :|
        Batcher.Visits(visited, Batcher.TargetsOf(before.buffer)) &&
        batcher.View() == Batcher.Flushed(before, visited, flushes(i));
      if i == 0 {
        order := visited;
      }
      if failed == {} {
        break;
      }
    }
  }

  lemma FilterMatches(
      s: State, ids: seq<string>, matching: seq<string>, pk: string, range: Range, table: Table)
    requires |range.start| == |range.end| == |table.ckTypes|
    requires forall id :: id in ids <==> id in Listed(s, pk)
    requires forall i, j :: 0 <= i < j < |ids| ==> ids[i] != ids[j]
    requires matching == CoveredIds(ids, range, table)
    ensures Matches(matching, s, pk, range, table)
    ensures forall i, j :: 0 <= i < j < |matching| ==> matching[i] != matching[j]
  {
    forall id
      ensures id in matching <==> id in ids && Covered(id, range, table)
    {
      CoveredIdsMembers(ids, range, table, id);
    }
    CoveredIdsDistinct(ids, range, table);
  }

  lemma {:induction false} CoveredIdsDistinct(ids: seq<string>, range: Range, table: Table)
    requires |range.start| == |range.end| == |table.ckTypes|
    requires forall i, j :: 0 <= i < j < |ids| ==> ids[i] != ids[j]
    ensures var kept := CoveredIds(ids, range, table);
            forall i, j :: 0 <= i < j < |kept| ==> kept[i] != kept[j]
  {
    if ids != [] {
      var n := |ids| - 1;
      CoveredIdsDistinct(ids[..n], range, table);
      CoveredIdsMembers(ids[..n], range, table, ids[n]);
      assert ids[n] !in ids[..n];
    }
  }
}

/** The per-stream consumer that pairs the two halves of a range delete. */
module CdcConsumer {
  import opened Wrappers
  import opened Store
  import opened Router
  import Sharding

  /** What one row leads to. `Deleted` is a range delete with both bounds, handed to the router. */
  datatype Outcome =
    | Skipped
    | Stored
    | Deleted(start: PendingRangeStart, end: CdcRow)
    | Unmatched
    | Forwarded(item: BatchItem)

  /** The change-log target: a hash and a number of nodes. */
  datatype Cluster = Cluster(hash: seq<string> -> nat, nodes: nat)

  predicate IsStart(row: CdcRow) {
    Determine(row.operation).RangeDeleteStart?
  }

  predicate IsEnd(row: CdcRow) {
    Determine(row.operation).RangeDeleteEnd?
  }

  function PendingAfter(pending: Option<PendingRangeStart>, row: CdcRow, c: Cluster): Option<PendingRangeStart>
    requires c.nodes > 0
  {
    if IsStart(row) then Some(StartOf(row, c.hash, c.nodes)) else if IsEnd(row) then None else pending
  }

  function OutcomeOf(pending: Option<PendingRangeStart>, row: CdcRow, c: Cluster): Outcome
    requires c.nodes > 0
  {
    match Determine(row.operation)
    case Skip => Skipped
    case RangeDeleteStart => Stored
    case RangeDeleteEnd => if pending.Some? then Deleted(pending.value, row) else Unmatched
    case Forward(kind) => Forwarded(ItemFor(row, kind, c.hash, c.nodes))
  }

  class Consumer {
    const cluster: Cluster
    var pendingRangeStart: Option<PendingRangeStart>

    constructor (cluster: Cluster)
      ensures this.cluster == cluster && pendingRangeStart == None
    {
      this.cluster := cluster;
      pendingRangeStart := None;
    }

    /** `consume_cdc`: `replace` on a start bound, `take` on an end bound. */
    method ConsumeCdc(row: CdcRow) returns (outcome: Outcome)
      requires cluster.nodes > 0
      modifies this`pendingRangeStart
      ensures pendingRangeStart == PendingAfter(old(pendingRangeStart), row, cluster)
      ensures outcome == OutcomeOf(old(pendingRangeStart), row, cluster)
    {
      match Determine(row.operation)
      case Skip =>
        outcome := Skipped;
      case RangeDeleteStart =>
        pendingRangeStart := Some(StartOf(row, cluster.hash, cluster.nodes));
        outcome := Stored;
      case RangeDeleteEnd =>
        var taken := pendingRangeStart;
        pendingRangeStart := None;
        outcome := if taken.Some? then Deleted(taken.value, row) else Unmatched;
      case Forward(kind) =>
        outcome := Forwarded(ItemFor(row, kind, cluster.hash, cluster.nodes));
    }
  }

  // ------------------------------------------------------------------------
  // Whole streams
  // ------------------------------------------------------------------------

  function PendingAt(rows: seq<CdcRow>, c: Cluster): Option<PendingRangeStart>
    requires c.nodes > 0
  {
    if rows == [] then None
    else PendingAfter(PendingAt(rows[..|rows| - 1], c), rows[|rows| - 1], c)
  }

  function Outcomes(rows: seq<CdcRow>, c: Cluster): (os: seq<Outcome>)
    requires c.nodes > 0
    ensures |os| == |rows|
  {
    if rows == [] then []
    else
      var n := |rows| - 1;
      Outcomes(rows[..n], c) + [OutcomeOf(PendingAt(rows[..n], c), rows[n], c)]
  }

  /** Row `i` is a start bound and no other bound lies between it and row `j`. */
  predicate OpenStart(rows: seq<CdcRow>, i: int, j: int) {
    0 <= i < j <= |rows| && IsStart(rows[i]) &&
    forall k :: i < k < j ==> !IsStart(rows[k]) && !IsEnd(rows[k])
  }

  lemma {:induction false} OutcomeAt(rows: seq<CdcRow>, c: Cluster, j: nat)
    requires c.nodes > 0 && j < |rows|
    ensures Outcomes(rows, c)[j] == OutcomeOf(PendingAt(rows[..j], c), rows[j], c)
    decreases |rows|
  {
    var n := |rows| - 1;
    if j < n {
      OutcomeAt(rows[..n], c, j);
      assert rows[..n][..j] == rows[..j];
    }
  }

  lemma {:induction false} OpenStartInFront(rows: seq<CdcRow>, i: int, j: nat)
    requires j <= |rows|
    ensures OpenStart(rows[..j], i, j) <==> OpenStart(rows, i, j)
  {
    var front := rows[..j];
    assert forall k :: 0 <= k < j ==> front[k] == rows[k];
  }

  lemma OpenStartSnoc(rows: seq<CdcRow>, i: int)
    requires rows != []
    ensures var n := |rows| - 1;
            OpenStart(rows, i, n + 1) <==>
            if i == n then IsStart(rows[n]) else OpenStart(rows, i, n) && !IsStart(rows[n]) && !IsEnd(rows[n])
  {
  }

  lemma {:induction false} PendingIsOpenStart(rows: seq<CdcRow>, c: Cluster, i: int)
    requires c.nodes > 0
    ensures OpenStart(rows, i, |rows|) ==> PendingAt(rows, c) == Some(StartOf(rows[i], c.hash, c.nodes))
    decreases |rows|
  {
    if rows != [] {
      OpenStartSnoc(rows, i);
      OpenStartInFront(rows, i, |rows| - 1);
      PendingIsOpenStart(rows[..|rows| - 1], c, i);
    }
  }

  lemma {:induction false} PendingHasOpenStart(rows: seq<CdcRow>, c: Cluster) returns (i: int)
    requires c.nodes > 0 && PendingAt(rows, c).Some?
    ensures OpenStart(rows, i, |rows|)
    decreases |rows|
  {
    var n := |rows| - 1;
    i := n;
    if !IsStart(rows[n]) {
      i := PendingHasOpenStart(rows[..n], c);
      OpenStartInFront(rows, i, n);
    }
    OpenStartSnoc(rows, i);
  }

  /** An end bound deletes with the latest unconsumed start, and is an error exactly when there is none. */
  lemma {:induction false} EndsPairWithLatestStart(rows: seq<CdcRow>, c: Cluster, j: nat)
    requires c.nodes > 0 && j < |rows| && IsEnd(rows[j])
    ensures forall i :: OpenStart(rows, i, j) ==>
              Outcomes(rows, c)[j] == Deleted(StartOf(rows[i], c.hash, c.nodes), rows[j])
    ensures Outcomes(rows, c)[j] == Unmatched <==> !exists i :: OpenStart(rows, i, j)
  {
    OutcomeAt(rows, c, j);
    forall i | OpenStart(rows, i, j)
      ensures PendingAt(rows[..j], c) == Some(StartOf(rows[i], c.hash, c.nodes))
    {
      OpenStartInFront(rows, i, j);
      PendingIsOpenStart(rows[..j], c, i);
    }
    if PendingAt(rows[..j], c).Some? {
      var i := PendingHasOpenStart(rows[..j], c);
      OpenStartInFront(rows, i, j);
    }
  }

  /** Only end bounds without a start fail. */
  lemma {:induction false} OnlyEndsGoUnmatched(rows: seq<CdcRow>, c: Cluster, j: nat)
    requires c.nodes > 0 && j < |rows|
    ensures Outcomes(rows, c)[j].Unmatched? ==> IsEnd(rows[j])
    ensures Outcomes(rows, c)[j].Deleted? ==> IsEnd(rows[j])
  {
    OutcomeAt(rows, c, j);
  }

  /** No start bound is used by two end bounds, and none by an end bound that another start follows. */
  lemma StartsAreUsedOnce(rows: seq<CdcRow>, i: int, i': int, j: int, j': int)
    requires OpenStart(rows, i, j) && OpenStart(rows, i', j')
    requires j < |rows| && j' < |rows| && IsEnd(rows[j]) && IsEnd(rows[j'])
    ensures i == i' <==> j == j'
  {
  }

  // ------------------------------------------------------------------------
  // Data rows
  // ------------------------------------------------------------------------

  /** Rows that change data themselves: writes, deletes and postimages. */
  predicate IsData(row: CdcRow) {
    match row.operation
    case RowInsert | RowUpdate | PostImage | RowDelete | WholePartitionDelete => true
    case _ => false
  }

  /** The item is the row's: its key, its time, and the kind of operation its own kind asks for. */
  ghost predicate CarriesRow(item: BatchItem, row: CdcRow, c: Cluster)
    requires c.nodes > 0
  {
    var op := item.operation;
    op.id == RowId(row) && op.partition == Some(PartitionKey(row)) && op.writetime == row.writetime &&
    item.targetNode == Sharding.TargetNode(c.hash, row.pkValues, c.nodes) &&
    match row.operation
    case RowInsert | RowUpdate =>
      op.kind.Upsert? && op.payload == row.payload && op.deltas == row.deltas && op.ttl == row.ttl
    case PostImage => op.kind.Upsert? && op.payload == row.payload && op.deltas == [] && op.ttl == row.ttl
    case RowDelete => op.kind.Delete?
    case WholePartitionDelete => op.kind.PartitionDelete?
    case _ => false
  }

  /**
   * Whatever is pending, preimages alone are skipped, start bounds alone are stored, end bounds alone delete
   * or fail, and each other row yields one item of its own.
   */
  lemma RowsByOperation(rows: seq<CdcRow>, c: Cluster, j: nat)
    requires c.nodes > 0 && j < |rows|
    ensures var outcome, operation := Outcomes(rows, c)[j], rows[j].operation;
            (outcome.Skipped? <==> operation.PreImage?) &&
            (outcome.Stored? <==> operation.RangeInclLeft? || operation.RangeExclLeft?) &&
            (outcome.Deleted? || outcome.Unmatched? <==> operation.RangeInclRight? || operation.RangeExclRight?) &&
            (outcome.Forwarded? <==> IsData(rows[j])) &&
            (outcome.Forwarded? ==> CarriesRow(outcome.item, rows[j], c))
  {
    OutcomeAt(rows, c, j);
  }

  function ForwardedItems(outcomes: seq<Outcome>): seq<BatchItem> {
    if outcomes == [] then []
    else
      var last := outcomes[|outcomes| - 1];
      ForwardedItems(outcomes[..|outcomes| - 1]) + if last.Forwarded? then [last.item] else []
  }

  function DataRows(rows: seq<CdcRow>): seq<CdcRow> {
    if rows == [] then []
    else
      var last := rows[|rows| - 1];
      DataRows(rows[..|rows| - 1]) + if IsData(last) then [last] else []
  }

  /** The forwarded items of a stream are those of its data rows, one each and in order. */
  lemma {:induction false} StreamForwardsItsData(rows: seq<CdcRow>, c: Cluster)
    requires c.nodes > 0
    ensures var items, data := ForwardedItems(Outcomes(rows, c)), DataRows(rows);
            |items| == |data| && forall i :: 0 <= i < |data| ==> CarriesRow(items[i], data[i], c)
  {
    if rows != [] {
      var n := |rows| - 1;
      StreamForwardsItsData(rows[..n], c);
      RowsByOperation(rows, c, n);
      assert Outcomes(rows, c)[..n] == Outcomes(rows[..n], c);
    }
  }

  /** Bounds and preimages between the data rows make no difference to what is forwarded. */
  lemma {:induction false} OnlyDataIsForwarded(rows: seq<CdcRow>, c: Cluster)
    requires c.nodes > 0
    ensures ForwardedItems(Outcomes(rows, c)) == ForwardedItems(Outcomes(DataRows(rows), c))
  {
    if rows != [] {
      var n := |rows| - 1;
      var front := DataRows(rows[..n]);
      OnlyDataIsForwarded(rows[..n], c);
      assert Outcomes(rows, c)[..n] == Outcomes(rows[..n], c);
      if IsData(rows[n]) {
        assert (front + [rows[n]])[..|front|] == front;
        assert Outcomes(front + [rows[n]], c)[..|front|] == Outcomes(front, c);
      } else {
        assert front + [] == front;
      }
    }
  }

  /** The change log's promise: bounds come in adjacent pairs. */
  ghost predicate Paired(rows: seq<CdcRow>) {
    (forall i :: 0 <= i < |rows| && IsStart(rows[i]) ==> i + 1 < |rows| && IsEnd(rows[i + 1])) &&
    (forall j :: 0 <= j < |rows| && IsEnd(rows[j]) ==> j > 0 && IsStart(rows[j - 1]))
  }

  /** A stream of adjacent pairs never fails and deletes once per pair, with the pair's own bounds. */
  lemma {:induction false} PairedStreamsNeverFail(rows: seq<CdcRow>, c: Cluster, j: nat)
    requires c.nodes > 0 && Paired(rows) && j < |rows|
    ensures !Outcomes(rows, c)[j].Unmatched?
    ensures Outcomes(rows, c)[j].Deleted? <==> IsEnd(rows[j])
    ensures IsEnd(rows[j]) ==>
              j > 0 && IsStart(rows[j - 1]) &&
              Outcomes(rows, c)[j] == Deleted(StartOf(rows[j - 1], c.hash, c.nodes), rows[j])
  {
    OnlyEndsGoUnmatched(rows, c, j);
    if IsEnd(rows[j]) {
      EndsPairWithLatestStart(rows, c, j);
      assert OpenStart(rows, j - 1, j);
    }
  }
}

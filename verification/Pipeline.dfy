/** From accepted batch items to the documents of all nodes, retries and lost answers included. */
module Pipeline {
  import opened Wrappers
  import opened Store
  import Node = Engine
  import EngineRuns
  import opened CrashRecovery
  import opened Batcher
  import Sharding
  import opened Reordering

  /** The operations of the items that parse, in order. */
  function Operations(items: seq<Raw>): seq<IndexOperation> {
    if items == [] then []
    else
      var last := items[|items| - 1];
      Operations(items[..|items| - 1]) + if last.Item? then [last.item.operation] else []
  }

  /** Items as the router makes them: the id determines the partition, the partition the node. */
  ghost predicate WellRouted(items: seq<Raw>, partition: string -> string, owner: string -> nat) {
    forall i :: 0 <= i < |items| && items[i].Item? ==>
      var op := items[i].item.operation;
      items[i].item.targetNode == owner(PartitionOf(op)) &&
      (op.kind.Upsert? || op.kind.Delete? ==> PartitionOf(op) == partition(op.id))
  }

  lemma {:induction false} ShareOfAppend(
      xs: seq<IndexOperation>, ys: seq<IndexOperation>, owner: string -> nat, node: nat)
    ensures Sharding.ShareOf(xs + ys, owner, node) ==
            Sharding.ShareOf(xs, owner, node) + Sharding.ShareOf(ys, owner, node)
    decreases |xs|
  {
    if xs == [] {
      assert xs + ys == ys;
    } else {
      assert (xs + ys)[1..] == xs[1..] + ys;
      ShareOfAppend(xs[1..], ys, owner, node);
    }
  }

  /** Grouping the batch by target node gives every node its share of the operations. */
  lemma {:induction false} ProjectIsShare(
      items: seq<Raw>, partition: string -> string, owner: string -> nat, node: nat)
    requires WellRouted(items, partition, owner)
    ensures Project(items, node) == Sharding.ShareOf(Operations(items), owner, node)
    ensures Sharding.Keyed(Operations(items), partition)
    decreases |items|
  {
    if items != [] {
      var front, last := items[..|items| - 1], items[|items| - 1];
      ProjectIsShare(front, partition, owner, node);
      if last.Item? {
        var ops, op := Operations(front), last.item.operation;
        ShareOfAppend(ops, [op], owner, node);
        assert [op][1..] == [];
        assert Sharding.ShareOf([op], owner, node) == if owner(PartitionOf(op)) == node then [op] else [];
      } else {
        assert Operations(items) == Operations(front);
      }
    }
  }

  lemma {:induction false} ProjectAppend(xs: seq<Raw>, ys: seq<Raw>, node: nat)
    ensures Project(xs + ys, node) == Project(xs, node) + Project(ys, node)
    decreases |ys|
  {
    if ys == [] {
      assert xs + ys == xs;
    } else {
      var n := |ys| - 1;
      assert (xs + ys)[..|xs| + n] == xs + ys[..n];
      ProjectAppend(xs, ys[..n], node);
    }
  }

  lemma {:induction false} ProjectedAreKeyed(
      items: seq<Raw>, node: nat, partition: string -> string, owner: string -> nat)
    requires WellRouted(items, partition, owner)
    ensures WellKeyed(Project(items, node), partition)
  {
    if items != [] {
      ProjectedAreKeyed(items[..|items| - 1], node, partition, owner);
    }
  }

  // ------------------------------------------------------------------------
  // What reaches a node
  // ------------------------------------------------------------------------

  /** One attempt at a batch, and how many of its operations the node applied. */
  datatype Try = Try(batch: Batch, cut: nat)

  function Tried(t: Try): seq<IndexOperation> {
    if t.cut < |t.batch.ops| then t.batch.ops[..t.cut] else t.batch.ops
  }

  /** The operations a node applied over these attempts. */
  function LogOf(tries: seq<Try>): seq<IndexOperation> {
    if tries == [] then [] else LogOf(tries[..|tries| - 1]) + Tried(tries[|tries| - 1])
  }

  /** How far the last attempt at the batch got. */
  function LastCut(tries: seq<Try>, b: Batch): Option<nat> {
    if tries == [] then None
    else if tries[|tries| - 1].batch == b then Some(tries[|tries| - 1].cut)
    else LastCut(tries[..|tries| - 1], b)
  }

  predicate Finished(tries: seq<Try>, b: Batch) {
    LastCut(tries, b).Some? && LastCut(tries, b).value >= |b.ops|
  }

  /** An attempt that comes after one at a later flight's batch conflicts with nothing that one applied. */
  ghost predicate Harmless(tries: seq<Try>, partition: string -> string) {
    tries == [] ||
    (Harmless(tries[..|tries| - 1], partition) &&
     forall t :: t in tries[..|tries| - 1] && t.batch.flight > tries[|tries| - 1].batch.flight ==>
       Independent(Tried(t), Tried(tries[|tries| - 1]), partition))
  }

  ghost predicate KeyedTries(tries: seq<Try>, partition: string -> string) {
    forall t :: t in tries ==> WellKeyed(t.batch.ops, partition)
  }

  lemma {:induction false} LogMembers(tries: seq<Try>, op: IndexOperation)
    ensures op in LogOf(tries) <==> exists t :: t in tries && op in Tried(t)
  {
    if tries != [] {
      var n := |tries| - 1;
      LogMembers(tries[..n], op);
      assert tries == tries[..n] + [tries[n]];
    }
  }

  lemma KeyedLog(tries: seq<Try>, partition: string -> string)
    requires KeyedTries(tries, partition)
    ensures WellKeyed(LogOf(tries), partition)
  {
    forall op | op in LogOf(tries)
      ensures exists t :: t in tries && op in t.batch.ops
    {
      LogMembers(tries, op);
      var t :| t in tries && op in Tried(t);
    }
  }

  // ------------------------------------------------------------------------
  // Retries
  // ------------------------------------------------------------------------

  /** Attempts at one batch before a complete one leave no trace. */
  lemma {:induction false} EarlierTriesVanish(
      m: Documents, tries: seq<Try>, b: Batch, partition: string -> string)
    requires KeyedDocs(m, partition) && WellKeyed(b.ops, partition) && forall t :: t in tries ==> t.batch == b
    ensures ApplyAll(ApplyAll(m, LogOf(tries)), b.ops) == ApplyAll(m, b.ops)
  {
    if tries != [] {
      var n := |tries| - 1;
      var front, last := LogOf(tries[..n]), tries[n];
      assert last in tries;
      EarlierTriesVanish(m, tries[..n], b, partition);
      KeyedLog(tries[..n], partition);
      ApplyAllKeyed(m, front, partition);
      ApplyAllAppend(m, front, Tried(last));
      PrefixThenBatch(
        ApplyAll(m, front), b.ops, if last.cut < |b.ops| then last.cut else |b.ops|, partition);
      assert b.ops[..|b.ops|] == b.ops;
    }
  }

  /** Any attempts at one batch of which the last is complete apply the batch. */
  lemma RetriesApplyOnce(m: Documents, tries: seq<Try>, b: Batch, partition: string -> string)
    requires KeyedDocs(m, partition) && WellKeyed(b.ops, partition) && Finished(tries, b)
    requires forall t :: t in tries ==> t.batch == b
    ensures ApplyAll(m, LogOf(tries)) == ApplyAll(m, b.ops)
  {
    var n := |tries| - 1;
    assert tries[n] in tries && forall t :: t in tries[..n] ==> t in tries;
    EarlierTriesVanish(m, tries[..n], b, partition);
    ApplyAllAppend(m, LogOf(tries[..n]), Tried(tries[n]));
  }

  // ------------------------------------------------------------------------
  // Attempts at different batches alternate
  // ------------------------------------------------------------------------

  function Of(tries: seq<Try>, flight: nat): seq<Try> {
    if tries == [] then []
    else
      var last := tries[|tries| - 1];
      Of(tries[..|tries| - 1], flight) + if last.batch.flight == flight then [last] else []
  }

  function Besides(tries: seq<Try>, flight: nat): seq<Try> {
    if tries == [] then []
    else
      var last := tries[|tries| - 1];
      Besides(tries[..|tries| - 1], flight) + if last.batch.flight == flight then [] else [last]
  }

  lemma {:induction false} Parts(tries: seq<Try>, flight: nat, t: Try)
    ensures t in Of(tries, flight) <==> t in tries && t.batch.flight == flight
    ensures t in Besides(tries, flight) <==> t in tries && t.batch.flight != flight
  {
    if tries != [] {
      var n := |tries| - 1;
      Parts(tries[..n], flight, t);
      assert tries == tries[..n] + [tries[n]];
    }
  }

  lemma {:induction false} PartsFinish(tries: seq<Try>, flight: nat, b: Batch)
    ensures LastCut(tries, b) ==
            if b.flight == flight then LastCut(Of(tries, flight), b) else LastCut(Besides(tries, flight), b)
  {
    if tries != [] {
      var n := |tries| - 1;
      PartsFinish(tries[..n], flight, b);
      var mine, rest := Of(tries[..n], flight), Besides(tries[..n], flight);
      assert (mine + [tries[n]])[..|mine|] == mine && (rest + [tries[n]])[..|rest|] == rest;
      assert mine + [] == mine && rest + [] == rest;
    }
  }

  lemma {:induction false} BesidesHarmless(tries: seq<Try>, flight: nat, partition: string -> string)
    requires Harmless(tries, partition)
    ensures Harmless(Besides(tries, flight), partition)
  {
    if tries != [] {
      var n := |tries| - 1;
      var rest := Besides(tries[..n], flight);
      BesidesHarmless(tries[..n], flight, partition);
      if tries[n].batch.flight != flight {
        assert (rest + [tries[n]])[..|rest|] == rest;
        forall t | t in rest
          ensures t in tries[..n]
        {
          Parts(tries[..n], flight, t);
        }
      } else {
        assert rest + [] == rest;
      }
    }
  }

  lemma LogIndependent(tries: seq<Try>, ys: seq<IndexOperation>, partition: string -> string)
    requires forall t :: t in tries ==> Independent(Tried(t), ys, partition)
    ensures Independent(LogOf(tries), ys, partition)
  {
    forall x | x in LogOf(tries)
      ensures exists t :: t in tries && x in Tried(t)
    {
      LogMembers(tries, x);
    }
  }

  lemma LogSnoc(m: Documents, tries: seq<Try>, t: Try)
    ensures ApplyAll(m, LogOf(tries + [t])) == ApplyAll(ApplyAll(m, LogOf(tries)), Tried(t))
  {
    assert (tries + [t])[..|tries|] == tries;
    ApplyAllAppend(m, LogOf(tries), Tried(t));
  }

  /** All attempts at the latest flight's batch may as well have come last. */
  lemma {:induction false} LatestToTheEnd(
      m: Documents, tries: seq<Try>, latest: nat, partition: string -> string)
    requires KeyedDocs(m, partition) && KeyedTries(tries, partition) && Harmless(tries, partition)
    requires forall t :: t in tries ==> t.batch.flight <= latest
    ensures ApplyAll(m, LogOf(tries)) ==
            ApplyAll(ApplyAll(m, LogOf(Besides(tries, latest))), LogOf(Of(tries, latest)))
  {
    if tries != [] {
      var n := |tries| - 1;
      var front, last := tries[..n], tries[n];
      var mine, rest := Of(front, latest), Besides(front, latest);
      assert last in tries && tries == front + [last];
      LatestToTheEnd(m, front, latest, partition);
      LogSnoc(m, front, last);
      if last.batch.flight == latest {
        assert rest + [] == rest;
        LogSnoc(ApplyAll(m, LogOf(rest)), mine, last);
      } else {
        assert mine + [] == mine;
        LogSnoc(m, rest, last);
        RestStaysKeyed(m, front, latest, partition);
        LastPastLatest(ApplyAll(m, LogOf(rest)), tries, latest, partition);
      }
    }
  }

  lemma RestStaysKeyed(m: Documents, tries: seq<Try>, latest: nat, partition: string -> string)
    requires KeyedDocs(m, partition) && KeyedTries(tries, partition)
    ensures KeyedDocs(ApplyAll(m, LogOf(Besides(tries, latest))), partition)
  {
    forall t | t in Besides(tries, latest)
      ensures t in tries
    {
      Parts(tries, latest, t);
    }
    KeyedLog(Besides(tries, latest), partition);
    ApplyAllKeyed(m, LogOf(Besides(tries, latest)), partition);
  }

  lemma LastPastLatest(m: Documents, tries: seq<Try>, latest: nat, partition: string -> string)
    requires tries != [] && KeyedDocs(m, partition) && KeyedTries(tries, partition) && Harmless(tries, partition)
    requires tries[|tries| - 1].batch.flight < latest
    ensures var mine, last := LogOf(Of(tries[..|tries| - 1], latest)), Tried(tries[|tries| - 1]);
            ApplyAll(ApplyAll(m, mine), last) == ApplyAll(ApplyAll(m, last), mine)
  {
    var front, last := tries[..|tries| - 1], tries[|tries| - 1];
    var mine := Of(front, latest);
    assert last in tries;
    forall t | t in mine
      ensures t in tries && Independent(Tried(t), Tried(last), partition)
    {
      Parts(front, latest, t);
    }
    LogIndependent(mine, Tried(last), partition);
    KeyedLog(mine, partition);
    IndependentBatchesCommute(m, LogOf(mine), Tried(last), partition);
  }

  // ------------------------------------------------------------------------
  // All flights
  // ------------------------------------------------------------------------

  /** Attempts at the node's batches of the first `n` flights, each finished. */
  ghost predicate Complete(tries: seq<Try>, taken: seq<seq<Raw>>, n: nat, node: nat) {
    (forall t :: t in tries ==> Due(taken, t.batch) && t.batch.flight < n && t.batch.node == node) &&
    forall b :: Due(taken, b) && b.flight < n && b.node == node ==> Finished(tries, b)
  }

  lemma {:induction false} EmptyProjection(items: seq<Raw>, node: nat)
    requires node !in TargetsOf(items)
    ensures Project(items, node) == []
  {
    if items != [] {
      var n := |items| - 1;
      assert items[n] in items;
      assert forall r :: r in items[..n] ==> r in items;
      EmptyProjection(items[..n], node);
    }
  }

  lemma BesidesComplete(
      tries: seq<Try>, taken: seq<seq<Raw>>, f: nat, node: nat, partition: string -> string)
    requires Complete(tries, taken, f + 1, node) && Harmless(tries, partition)
    ensures Complete(Besides(tries, f), taken, f, node) && Harmless(Besides(tries, f), partition)
  {
    BesidesHarmless(tries, f, partition);
    forall t | t in Besides(tries, f)
      ensures t in tries && t.batch.flight != f
    {
      Parts(tries, f, t);
    }
    forall b | Due(taken, b) && b.flight < f && b.node == node
      ensures Finished(Besides(tries, f), b)
    {
      PartsFinish(tries, f, b);
      assert Finished(tries, b);
    }
  }

  /** The attempts at one flight's batch apply the flight's projection. */
  lemma FlightApplied(
      m: Documents, tries: seq<Try>, taken: seq<seq<Raw>>, f: nat, node: nat, partition: string -> string)
    requires f < |taken| && Complete(tries, taken, f + 1, node)
    requires KeyedDocs(m, partition) && WellKeyed(Project(taken[f], node), partition)
    ensures ApplyAll(m, LogOf(Of(tries, f))) == ApplyAll(m, Project(taken[f], node))
  {
    var due := Batch(f, node, Project(taken[f], node));
    forall t | t in Of(tries, f)
      ensures Due(taken, t.batch) && t.batch == due
    {
      Parts(tries, f, t);
    }
    var mine := Of(tries, f);
    assert mine != [] ==> mine[0] in mine;
    if node in TargetsOf(taken[f]) {
      assert Due(taken, due);
      PartsFinish(tries, f, due);
      RetriesApplyOnce(m, mine, due, partition);
    } else {
      EmptyProjection(taken[f], node);
    }
  }

  lemma FlightsSnoc(taken: seq<seq<Raw>>, n: nat, node: nat, partition: string -> string, owner: string -> nat)
    requires 0 < n <= |taken| && WellRouted(Concat(taken[..n]), partition, owner)
    ensures Project(Concat(taken[..n]), node) ==
            Project(Concat(taken[..n - 1]), node) + Project(taken[n - 1], node)
    ensures WellRouted(Concat(taken[..n - 1]), partition, owner)
    ensures WellKeyed(Project(taken[n - 1], node), partition)
  {
    var front, last := Concat(taken[..n - 1]), taken[n - 1];
    assert taken[..n][..n - 1] == taken[..n - 1];
    RoutedParts(front, last, partition, owner);
    ProjectAppend(front, last, node);
    ProjectedAreKeyed(last, node, partition, owner);
  }

  lemma RoutedParts(xs: seq<Raw>, ys: seq<Raw>, partition: string -> string, owner: string -> nat)
    requires WellRouted(xs + ys, partition, owner)
    ensures WellRouted(xs, partition, owner) && WellRouted(ys, partition, owner)
  {
    assert forall i :: 0 <= i < |xs| ==> (xs + ys)[i] == xs[i];
    assert forall i :: 0 <= i < |ys| ==> (xs + ys)[|xs| + i] == ys[i];
  }

  lemma {:induction false} DueAreKeyed(
      taken: seq<seq<Raw>>, n: nat, b: Batch, partition: string -> string, owner: string -> nat)
    requires n <= |taken| && WellRouted(Concat(taken[..n]), partition, owner) && Due(taken, b) && b.flight < n
    ensures WellKeyed(b.ops, partition)
  {
    FlightsSnoc(taken, n, b.node, partition, owner);
    if b.flight < n - 1 {
      DueAreKeyed(taken, n - 1, b, partition, owner);
    }
  }

  /** Flight boundaries, retries, alternating attempts and harmless reordering leave no trace on a node. */
  lemma {:induction false} TriesAreProjection(
      m: Documents, tries: seq<Try>, taken: seq<seq<Raw>>, n: nat, node: nat,
      partition: string -> string, owner: string -> nat)
    requires n <= |taken| && KeyedDocs(m, partition) && WellRouted(Concat(taken[..n]), partition, owner)
    requires Complete(tries, taken, n, node) && Harmless(tries, partition)
    ensures ApplyAll(m, LogOf(tries)) == ApplyAll(m, Project(Concat(taken[..n]), node))
    decreases n
  {
    if n > 0 {
      var f := n - 1;
      var front, last := Project(Concat(taken[..f]), node), Project(taken[f], node);
      forall t | t in tries
        ensures WellKeyed(t.batch.ops, partition)
      {
        DueAreKeyed(taken, n, t.batch, partition, owner);
      }
      FlightsSnoc(taken, n, node, partition, owner);
      LatestToTheEnd(m, tries, f, partition);
      BesidesComplete(tries, taken, f, node, partition);
      TriesAreProjection(m, Besides(tries, f), taken, f, node, partition, owner);
      RestStaysKeyed(m, tries, f, partition);
      FlightApplied(ApplyAll(m, LogOf(Besides(tries, f))), tries, taken, f, node, partition);
      ApplyAllAppend(m, front, last);
    }
  }

  // ------------------------------------------------------------------------
  // The whole path
  // ------------------------------------------------------------------------

  ghost predicate AllDelivered(ss: seq<Settled>) {
    forall x :: x in ss ==> x.delivered
  }

  /** A node saw attempts at its settled batches alone, and the acknowledged ones were finished last. */
  ghost predicate Reached(tries: seq<Try>, settled: seq<Settled>, node: nat) {
    (forall t :: t in tries ==> t.batch.node == node && t.batch in BatchesOf(settled)) &&
    forall x :: x in settled && x.batch.node == node && x.delivered ==> Finished(tries, x.batch)
  }

  lemma {:induction false} SettledOf(ss: seq<Settled>, b: Batch)
    ensures b in BatchesOf(ss) <==> exists x :: x in ss && x.batch == b
  {
    if ss != [] {
      var n := |ss| - 1;
      SettledOf(ss[..n], b);
      assert ss == ss[..n] + [ss[n]];
    }
  }

  lemma ReachedIsComplete(tries: seq<Try>, s: State, node: nat)
    requires EachBatchOnce(s) && s.inFlight == [] && AllDelivered(s.settled) && Reached(tries, s.settled, node)
    ensures Complete(tries, s.taken, |s.taken|, node)
  {
    forall b
      ensures b in BatchesOf(s.settled) <==> Due(s.taken, b)
    {
      assert OnceAt(s, b);
      OccursNone(BatchesOf(s.settled), b);
    }
    forall b | Due(s.taken, b) && b.node == node
      ensures Finished(tries, b)
    {
      SettledOf(s.settled, b);
    }
  }

  /**
   * What a node holds after its share of a run: its engine has applied the attempts at its batches in their
   * order of arrival, between any commits, from the documents it owned. An attempt at a batch may come after
   * one at a later flight's batch where the two do not conflict.
   */
  ghost predicate NodeHolds(
      shard: Documents, m: Documents, tries: seq<Try>, steps: seq<EngineRuns.Step>, settled: seq<Settled>, node: nat,
      schema: Node.Schema, partition: string -> string)
  {
    Reached(tries, settled, node) && Harmless(tries, partition) &&
    Calm(steps, Node.NEVER_PRUNED) && EngineRuns.OpsOf(steps) == LogOf(tries) &&
    EngineRuns.CoherentRun(Node.Opened(m), steps, schema) &&
    shard == EngineRuns.Run(Node.Opened(m), steps, schema).pending
  }

  lemma NodeHoldsItsShare(
      shard: Documents, m: Documents, tries: seq<Try>, steps: seq<EngineRuns.Step>, s: State, node: nat,
      schema: Node.Schema, partition: string -> string, owner: string -> nat)
    requires EachBatchOnce(s) && s.inFlight == [] && AllDelivered(s.settled)
    requires NodeHolds(shard, m, tries, steps, s.settled, node, schema, partition)
    requires KeyedDocs(m, partition) && WellRouted(Concat(s.taken), partition, owner)
    ensures shard == ApplyAll(m, Sharding.ShareOf(Operations(Concat(s.taken)), owner, node))
  {
    assert s.taken[..|s.taken|] == s.taken;
    ReachedIsComplete(tries, s, node);
    TriesAreProjection(m, tries, s.taken, |s.taken|, node, partition, owner);
    EngineRuns.OpenedAgrees(m, schema);
    EngineRuns.RunRefinesSpec(Node.Opened(m), steps, schema);
    CurrentIsApplied(EngineRuns.Spec(m, m), steps);
    ProjectIsShare(Concat(s.taken), partition, owner, node);
  }

  /**
   * The whole ingest path is transparent. Take any run of the batch protocol that ends with nothing buffered
   * or in flight and nothing given up, and let every node's engine apply the attempts at its batches as they
   * arrive: with any retries, alternating and overtaking where they do not conflict, between any commits.
   * Then the nodes together hold exactly the documents of one node that applies the accepted operations in
   * order, whatever the grouping into flights.
   */
  lemma PipelineIsTransparent(
      m: Documents, events: seq<Event>, tries: seq<seq<Try>>, steps: seq<seq<EngineRuns.Step>>, schema: Node.Schema,
      partition: string -> string, hash: seq<string> -> nat, nodes: nat, shards: seq<Documents>)
    requires nodes > 0 && |shards| == |tries| == |steps| == nodes && KeyedDocs(m, partition)
    requires PossibleRun(EMPTY, events)
    requires Run(EMPTY, events).buffer == [] && Run(EMPTY, events).inFlight == []
    requires AllDelivered(Run(EMPTY, events).settled)
    requires var s := Run(EMPTY, events);
             var owner := (pk: string) => Sharding.Owner(hash, pk, nodes);
             WellRouted(s.accepted, partition, owner) &&
             forall i :: 0 <= i < nodes ==>
               NodeHolds(
                 shards[i], Sharding.Owned(m, owner, i), tries[i], steps[i], s.settled, i, schema, partition)
    ensures Sharding.Union(shards) == ApplyAll(m, Operations(Run(EMPTY, events).accepted))
    ensures forall i, j :: 0 <= i < j < nodes ==> shards[i].Keys !! shards[j].Keys
  {
    var s := Run(EMPTY, events);
    var owner := (pk: string) => Sharding.Owner(hash, pk, nodes);
    AcceptedItemsAreSomewhere(events, Malformed(""));
    assert s.accepted == Concat(s.taken) + [] == Concat(s.taken);
    assert EachBatchOnce(EMPTY) by {
      forall b
        ensures OnceAt(EMPTY, b)
      {
      }
    }
    RunsSendEachBatchOnce(EMPTY, events);
    forall i | 0 <= i < nodes
      ensures shards[i] ==
              ApplyAll(Sharding.Owned(m, owner, i), Sharding.ShareOf(Operations(s.accepted), owner, i))
    {
      NodeHoldsItsShare(
        shards[i], Sharding.Owned(m, owner, i), tries[i], steps[i], s, i, schema, partition, owner);
    }
    ProjectIsShare(s.accepted, partition, owner, 0);
    Sharding.ShardingIsTransparent(m, Operations(s.accepted), partition, hash, nodes, shards);
  }

  /** Where a node's attempts never upsert an id after an operation that can remove it, its run is coherent. */
  lemma CleanNodeHolds(
      m: Documents, tries: seq<Try>, steps: seq<EngineRuns.Step>, s: State, node: nat, schema: Node.Schema,
      partition: string -> string, owner: string -> nat)
    requires EachBatchOnce(s) && s.inFlight == [] && AllDelivered(s.settled)
    requires KeyedDocs(m, partition) && WellRouted(Concat(s.taken), partition, owner)
    requires Reached(tries, s.settled, node) && Harmless(tries, partition)
    requires Calm(steps, Node.NEVER_PRUNED) && EngineRuns.OpsOf(steps) == LogOf(tries)
    requires NeverReuses(LogOf(tries), partition) && (forall doc :: schema(doc))
    ensures NodeHolds(
              EngineRuns.Run(Node.Opened(m), steps, schema).pending, m, tries, steps, s.settled, node, schema,
              partition)
  {
    assert s.taken[..|s.taken|] == s.taken;
    ReachedIsComplete(tries, s, node);
    forall t | t in tries
      ensures WellKeyed(t.batch.ops, partition)
    {
      DueAreKeyed(s.taken, |s.taken|, t.batch, partition, owner);
    }
    KeyedLog(tries, partition);
    CleanRunsAreCoherent(m, steps, LogOf(tries), Node.NEVER_PRUNED, schema, partition);
  }
}

/** The ingestor's batch service: buffering, per-node grouping, bounded retry, backpressure. */
module Batcher {
  import opened Wrappers
  import opened Store
  import opened Router

  /** A buffered text, as it will be read back: a batch item, or something that does not parse. */
  datatype Raw = Item(item: BatchItem) | Malformed(text: string)

  /** What one flush sends to one node. `flight` numbers the flushes that found something to send. */
  datatype Batch = Batch(flight: nat, node: nat, ops: seq<IndexOperation>)

  datatype Settled = Settled(batch: Batch, delivered: bool)

  /**
   * `accepted` and `taken` are history: everything ever pushed, and what each flight took. A settled batch
   * was either acknowledged by its node or given up.
   */
  datatype State = BatcherState(
    buffer: seq<Raw>, inFlight: seq<Batch>, settled: seq<Settled>, backpressure: bool,
    accepted: seq<Raw>, taken: seq<seq<Raw>>)

  const EMPTY := BatcherState([], [], [], false, [], [])

  // ------------------------------------------------------------------------
  // Grouping
  // ------------------------------------------------------------------------

  /** The operations for one node, in buffer order. */
  function Project(items: seq<Raw>, node: nat): seq<IndexOperation> {
    if items == [] then []
    else
      var last := items[|items| - 1];
      Project(items[..|items| - 1], node) +
      if last.Item? && last.item.targetNode == node then [last.item.operation] else []
  }

  function TargetsOf(items: seq<Raw>): set<nat> {
    set r | r in items && r.Item? :: r.item.targetNode
  }

  ghost predicate Grouped(batches: map<nat, seq<IndexOperation>>, items: seq<Raw>) {
    batches.Keys == TargetsOf(items) &&
    forall node: nat :: Project(items, node) == if node in batches then batches[node] else []
  }

  lemma TargetsSnoc(items: seq<Raw>, r: Raw)
    ensures TargetsOf(items + [r]) == TargetsOf(items) + if r.Item? then {r.item.targetNode} else {}
  {
    forall n | n in TargetsOf(items) || (r.Item? && n == r.item.targetNode)
      ensures n in TargetsOf(items + [r])
    {
      if n in TargetsOf(items) {
        var x :| x in items && x.Item? && x.item.targetNode == n;
        assert x in items + [r];
      } else {
        assert r in items + [r];
      }
    }
  }

  lemma ProjectSnoc(items: seq<Raw>, r: Raw, node: nat)
    ensures Project(items + [r], node) ==
            Project(items, node) + if r.Item? && r.item.targetNode == node then [r.item.operation] else []
  {
    assert (items + [r])[..|items|] == items;
  }

  lemma GroupedSkip(batches: map<nat, seq<IndexOperation>>, items: seq<Raw>, r: Raw)
    requires Grouped(batches, items) && r.Malformed?
    ensures Grouped(batches, items + [r])
  {
    TargetsSnoc(items, r);
    forall node: nat
      ensures Project(items + [r], node) == if node in batches then batches[node] else []
    {
      ProjectSnoc(items, r, node);
    }
  }

  lemma GroupedAdd(batches: map<nat, seq<IndexOperation>>, items: seq<Raw>, item: BatchItem, sofar: seq<IndexOperation>)
    requires Grouped(batches, items)
    requires sofar == if item.targetNode in batches then batches[item.targetNode] else []
    ensures Grouped(batches[item.targetNode := sofar + [item.operation]], items + [Item(item)])
  {
    var next := batches[item.targetNode := sofar + [item.operation]];
    TargetsSnoc(items, Item(item));
    forall node: nat
      ensures Project(items + [Item(item)], node) == if node in next then next[node] else []
    {
      ProjectSnoc(items, Item(item), node);
      assert Project(items, node) == if node in batches then batches[node] else [];
    }
  }

  /** The grouping loop of `flush`; texts that do not parse are skipped. */
  method GroupByNode(items: seq<Raw>) returns (batches: map<nat, seq<IndexOperation>>)
    ensures batches.Keys == TargetsOf(items)
    ensures forall node :: node in batches ==> batches[node] == Project(items, node)
  {
    batches := map[];
    for i := 0 to |items|
      invariant Grouped(batches, items[..i])
    {
      assert items[..i + 1] == items[..i] + [items[i]];
      match items[i]
      case Item(item) =>
        var sofar := if item.targetNode in batches then batches[item.targetNode] else [];
        GroupedAdd(batches, items[..i], item, sofar);
        batches := batches[item.targetNode := sofar + [item.operation]];
      case Malformed(_) =>
        GroupedSkip(batches, items[..i], items[i]);
    }
    assert items[..|items|] == items;
  }

  /** An order in which a hash map of batches may be visited. */
  ghost predicate Visits(order: seq<nat>, nodes: set<nat>) {
    (forall n :: n in order <==> n in nodes) && forall i, j :: 0 <= i < j < |order| ==> order[i] != order[j]
  }

  function BatchesFor(items: seq<Raw>, flight: nat, order: seq<nat>): seq<Batch> {
    seq(|order|, k requires 0 <= k < |order| => Batch(flight, order[k], Project(items, order[k])))
  }

  // ------------------------------------------------------------------------
  // Sending
  // ------------------------------------------------------------------------

  /** The outcome of one attempt: the node's counts, or a connection or protocol error. */
  datatype Attempt = Answered(processed: nat, skipped: nat) | Unreachable

  const MAX_RETRY_ATTEMPTS: nat := 3

  const BATCH_LIMIT: nat := 250

  /** What the network does to each attempt of a flush, by node and attempt number. */
  type Network = (nat, nat) -> Attempt

  function FirstAnswer(net: Network, node: nat, from: nat): Option<Attempt>
    decreases MAX_RETRY_ATTEMPTS - from
  {
    if from >= MAX_RETRY_ATTEMPTS then None
    else if net(node, from).Answered? then Some(net(node, from))
    else FirstAnswer(net, node, from + 1)
  }

  /** `send_batch_with_retry`: attempts stop at the first answer, whatever its counts. */
  method SendBatchWithRetry(net: Network, node: nat) returns (answer: Option<Attempt>)
    ensures answer == FirstAnswer(net, node, 0)
  {
    for attempt := 0 to MAX_RETRY_ATTEMPTS
      invariant FirstAnswer(net, node, 0) == FirstAnswer(net, node, attempt)
    {
      if net(node, attempt).Answered? {
        return Some(net(node, attempt));
      }
    }
    return None;
  }

  /** The batch counts as delivered: some attempt was answered, and the first answer covers every operation. */
  predicate Delivered(net: Network, node: nat, ops: seq<IndexOperation>) {
    match FirstAnswer(net, node, 0)
    case Some(Answered(processed, skipped)) => processed + skipped >= |ops|
    case _ => false
  }

  lemma {:induction false} FirstAnswerMeaning(net: Network, node: nat, from: nat)
    ensures FirstAnswer(net, node, from).Some? <==>
            exists k :: from <= k < MAX_RETRY_ATTEMPTS && net(node, k).Answered?
    ensures FirstAnswer(net, node, from).Some? ==>
            exists k :: from <= k < MAX_RETRY_ATTEMPTS && net(node, k) == FirstAnswer(net, node, from).value &&
                        net(node, k).Answered?
    decreases MAX_RETRY_ATTEMPTS - from
  {
    if from < MAX_RETRY_ATTEMPTS {
      FirstAnswerMeaning(net, node, from + 1);
    }
  }

  /** One of the three attempts was the first to be answered, and its counts cover the batch. */
  lemma DeliveredIff(net: Network, node: nat, ops: seq<IndexOperation>)
    ensures Delivered(net, node, ops) <==>
            exists k :: 0 <= k < 3 && net(node, k).Answered? &&
                        (forall j :: 0 <= j < k ==> net(node, j).Unreachable?) &&
                        net(node, k).processed + net(node, k).skipped >= |ops|
  {
    FirstOfThree(net, node);
  }

  lemma FirstOfThree(net: Network, node: nat)
    ensures FirstAnswer(net, node, 0) ==
            if net(node, 0).Answered? then Some(net(node, 0))
            else if net(node, 1).Answered? then Some(net(node, 1))
            else if net(node, 2).Answered? then Some(net(node, 2))
            else None
  {
    assert FirstAnswer(net, node, 3) == None;
    assert FirstAnswer(net, node, 2) == if net(node, 2).Answered? then Some(net(node, 2)) else None;
    assert FirstAnswer(net, node, 1).Some? <==> net(node, 1).Answered? || net(node, 2).Answered?;
  }

  /** A node accounts for every operation it answers for, so delivered means answered. */
  lemma DeliveredIffAnswered(net: Network, node: nat, ops: seq<IndexOperation>)
    requires forall k :: 0 <= k < MAX_RETRY_ATTEMPTS && net(node, k).Answered? ==>
               net(node, k).processed + net(node, k).skipped == |ops|
    ensures Delivered(net, node, ops) <==>
            exists k :: 0 <= k < 3 && net(node, k).Answered?
  {
    FirstAnswerMeaning(net, node, 0);
  }

  // ------------------------------------------------------------------------
  // The protocol: adds, flushes and ticks interleave between any two of these events
  // ------------------------------------------------------------------------

  /**
   * `Take` is the swap at the start of a flush, with the order in which its batches will be sent; `Settle`
   * is the end of one batch's retries; a tick ends with its own flush's result, which is always Ok when it
   * found the buffer empty.
   */
  datatype Event =
    | Push(raw: Raw) | Take(order: seq<nat>) | Settle(i: nat, delivered: bool)
    | TickEmpty | TickDone(flight: nat)

  /** A flight has failed if some batch of it was given up. */
  predicate FlightFailed(s: State, flight: nat) {
    exists i :: 0 <= i < |s.settled| && s.settled[i].batch.flight == flight && !s.settled[i].delivered
  }

  function Step(s: State, e: Event): State {
    match e
    case Push(raw) =>
      if s.backpressure then s else s.(buffer := s.buffer + [raw], accepted := s.accepted + [raw])
    case Take(order) =>
      if s.buffer == [] then s
      else s.(
        buffer := [], taken := s.taken + [s.buffer],
        inFlight := s.inFlight + BatchesFor(s.buffer, |s.taken|, order))
    case Settle(i, delivered) =>
      if i < |s.inFlight|
      then s.(
        inFlight := s.inFlight[..i] + s.inFlight[i + 1..],
        settled := s.settled + [Settled(s.inFlight[i], delivered)])
      else s
    case TickEmpty => s.(backpressure := false)
    case TickDone(flight) => s.(backpressure := FlightFailed(s, flight))
  }

  /** A take visits each target node of the buffer once, and a tick finds nothing to flush when there is nothing. */
  ghost predicate Possible(s: State, e: Event) {
    (e.Take? ==> Visits(e.order, TargetsOf(s.buffer))) && (e.TickEmpty? ==> s.buffer == [])
  }

  ghost predicate PossibleRun(s: State, events: seq<Event>)
    decreases |events|
  {
    events == [] || (Possible(s, events[0]) && PossibleRun(Step(s, events[0]), events[1..]))
  }

  function Run(s: State, events: seq<Event>): State
    decreases |events|
  {
    if events == [] then s else Run(Step(s, events[0]), events[1..])
  }

  // ------------------------------------------------------------------------
  // Conservation
  // ------------------------------------------------------------------------

  function Occurs<T(==)>(s: seq<T>, x: T): nat {
    if s == [] then 0 else Occurs(s[..|s| - 1], x) + if s[|s| - 1] == x then 1 else 0
  }

  /** How often an accepted item is in a batch. */
  function InBatch(b: Batch, r: Raw): nat {
    if r.Item? && r.item.targetNode == b.node then Occurs(b.ops, r.item.operation) else 0
  }

  function InBatches(bs: seq<Batch>, r: Raw): nat {
    if bs == [] then 0 else InBatches(bs[..|bs| - 1], r) + InBatch(bs[|bs| - 1], r)
  }

  /** In the batches that were acknowledged, or in those given up. */
  function InSettled(ss: seq<Settled>, delivered: bool, r: Raw): nat {
    if ss == [] then 0
    else
      var last := ss[|ss| - 1];
      InSettled(ss[..|ss| - 1], delivered, r) + if last.delivered == delivered then InBatch(last.batch, r) else 0
  }

  function Dropped(taken: seq<seq<Raw>>, r: Raw): nat {
    if taken == [] || r.Item? then 0 else Dropped(taken[..|taken| - 1], r) + Occurs(taken[|taken| - 1], r)
  }

  function Concat(taken: seq<seq<Raw>>): seq<Raw> {
    if taken == [] then [] else Concat(taken[..|taken| - 1]) + taken[|taken| - 1]
  }

  ghost predicate ConservedAt(s: State, r: Raw) {
    Occurs(s.accepted, r) ==
    Occurs(s.buffer, r) + InBatches(s.inFlight, r) + InSettled(s.settled, true, r) + InSettled(s.settled, false, r) +
    Dropped(s.taken, r)
  }

  /** Everything accepted is, once each, buffered, in flight, acknowledged, given up or malformed. */
  ghost predicate Conserved(s: State) {
    forall r :: ConservedAt(s, r)
  }

  /** Flights take the accepted items in order, and every batch is its flight's projection on its node. */
  ghost predicate Ordered(s: State) {
    s.accepted == Concat(s.taken) + s.buffer &&
    (forall i :: 0 <= i < |s.inFlight| ==> IsProjection(s.taken, s.inFlight[i])) &&
    (forall i :: 0 <= i < |s.settled| ==> IsProjection(s.taken, s.settled[i].batch))
  }

  ghost predicate IsProjection(taken: seq<seq<Raw>>, b: Batch) {
    b.flight < |taken| && b.ops == Project(taken[b.flight], b.node)
  }

  lemma OccursSnoc<T>(s: seq<T>, y: T, x: T)
    ensures Occurs(s + [y], x) == Occurs(s, x) + if y == x then 1 else 0
  {
    assert (s + [y])[..|s|] == s;
  }

  lemma {:induction false} OccursNone<T>(s: seq<T>, x: T)
    ensures Occurs(s, x) > 0 <==> x in s
  {
    if s != [] {
      OccursNone(s[..|s| - 1], x);
      assert s == s[..|s| - 1] + [s[|s| - 1]];
    }
  }

  lemma {:induction false} ProjectionCount(items: seq<Raw>, item: BatchItem)
    ensures Occurs(Project(items, item.targetNode), item.operation) == Occurs(items, Item(item))
  {
    if items != [] {
      var n := |items| - 1;
      ProjectionCount(items[..n], item);
      var front := Project(items[..n], item.targetNode);
      if items[n].Item? && items[n].item.targetNode == item.targetNode {
        OccursSnoc(front, items[n].item.operation, item.operation);
      } else {
        assert front + [] == front;
      }
    }
  }

  lemma InBatchesSnoc(bs: seq<Batch>, b: Batch, r: Raw)
    ensures InBatches(bs + [b], r) == InBatches(bs, r) + InBatch(b, r)
  {
    assert (bs + [b])[..|bs|] == bs;
  }

  lemma InSettledSnoc(ss: seq<Settled>, x: Settled, delivered: bool, r: Raw)
    ensures InSettled(ss + [x], delivered, r) ==
            InSettled(ss, delivered, r) + if x.delivered == delivered then InBatch(x.batch, r) else 0
  {
    assert (ss + [x])[..|ss|] == ss;
  }

  lemma BatchesForSnoc(items: seq<Raw>, flight: nat, order: seq<nat>)
    requires order != []
    ensures var n := |order| - 1;
            BatchesFor(items, flight, order) ==
            BatchesFor(items, flight, order[..n]) + [Batch(flight, order[n], Project(items, order[n]))]
  {
  }

  lemma {:induction false} BatchesCount(items: seq<Raw>, flight: nat, order: seq<nat>, r: Raw)
    requires forall i, j :: 0 <= i < j < |order| ==> order[i] != order[j]
    ensures InBatches(BatchesFor(items, flight, order), r) ==
            if r.Item? && r.item.targetNode in order then Occurs(items, r) else 0
    decreases |order|
  {
    if order != [] {
      var n := |order| - 1;
      assert order == order[..n] + [order[n]] && order[n] !in order[..n];
      BatchesCount(items, flight, order[..n], r);
      BatchesForSnoc(items, flight, order);
      InBatchesSnoc(BatchesFor(items, flight, order[..n]), Batch(flight, order[n], Project(items, order[n])), r);
      if r.Item? && r.item.targetNode == order[n] {
        ProjectionCount(items, r.item);
      }
    }
  }

  /** A flush loses nothing: its batches and what does not parse are exactly what it took. */
  lemma TakeConserves(items: seq<Raw>, flight: nat, order: seq<nat>, r: Raw)
    requires Visits(order, TargetsOf(items))
    ensures Occurs(items, r) ==
            InBatches(BatchesFor(items, flight, order), r) + if r.Malformed? then Occurs(items, r) else 0
  {
    BatchesCount(items, flight, order, r);
    OccursNone(items, r);
    if r.Item? && r in items {
      assert r.item.targetNode in TargetsOf(items);
    }
  }

  lemma {:induction false} InBatchesAppend(xs: seq<Batch>, ys: seq<Batch>, r: Raw)
    ensures InBatches(xs + ys, r) == InBatches(xs, r) + InBatches(ys, r)
    decreases |ys|
  {
    if ys == [] {
      assert xs + ys == xs;
    } else {
      var n := |ys| - 1;
      assert xs + ys == (xs + ys[..n]) + [ys[n]];
      InBatchesAppend(xs, ys[..n], r);
      InBatchesSnoc(xs + ys[..n], ys[n], r);
    }
  }

  lemma InBatchesWithout(bs: seq<Batch>, i: nat, r: Raw)
    requires i < |bs|
    ensures InBatches(bs, r) == InBatches(bs[..i] + bs[i + 1..], r) + InBatch(bs[i], r)
  {
    assert bs == (bs[..i] + [bs[i]]) + bs[i + 1..];
    InBatchesAppend(bs[..i] + [bs[i]], bs[i + 1..], r);
    InBatchesSnoc(bs[..i], bs[i], r);
    InBatchesAppend(bs[..i], bs[i + 1..], r);
  }

  lemma TakeStep(s: State, order: seq<nat>, r: Raw)
    requires Visits(order, TargetsOf(s.buffer)) && ConservedAt(s, r)
    ensures ConservedAt(Step(s, Take(order)), r)
  {
    if s.buffer != [] {
      TakeConserves(s.buffer, |s.taken|, order, r);
      InBatchesAppend(s.inFlight, BatchesFor(s.buffer, |s.taken|, order), r);
      assert (s.taken + [s.buffer])[..|s.taken|] == s.taken;
    }
  }

  lemma SettleStep(s: State, i: nat, delivered: bool, r: Raw)
    requires ConservedAt(s, r)
    ensures ConservedAt(Step(s, Settle(i, delivered)), r)
  {
    if i < |s.inFlight| {
      InBatchesWithout(s.inFlight, i, r);
      InSettledSnoc(s.settled, Settled(s.inFlight[i], delivered), true, r);
      InSettledSnoc(s.settled, Settled(s.inFlight[i], delivered), false, r);
    }
  }

  lemma StepConserves(s: State, e: Event)
    requires Possible(s, e) && Conserved(s)
    ensures Conserved(Step(s, e))
  {
    forall r
      ensures ConservedAt(Step(s, e), r)
    {
      assert ConservedAt(s, r);
      match e
      case Push(raw) =>
        OccursSnoc(s.accepted, raw, r);
        OccursSnoc(s.buffer, raw, r);
      case Take(order) => TakeStep(s, order, r);
      case Settle(i, delivered) => SettleStep(s, i, delivered, r);
      case TickEmpty =>
      case TickDone(_) =>
    }
  }

  lemma TakeOrders(s: State, order: seq<nat>)
    requires Ordered(s)
    ensures Ordered(Step(s, Take(order)))
  {
    if s.buffer != [] {
      var s' := Step(s, Take(order));
      var sent := BatchesFor(s.buffer, |s.taken|, order);
      assert s'.taken[..|s.taken|] == s.taken;
      forall i | 0 <= i < |s'.inFlight|
        ensures IsProjection(s'.taken, s'.inFlight[i])
      {
        if i >= |s.inFlight| {
          assert s'.inFlight[i] == sent[i - |s.inFlight|];
        } else {
          assert IsProjection(s.taken, s.inFlight[i]);
        }
      }
      forall i | 0 <= i < |s'.settled|
        ensures IsProjection(s'.taken, s'.settled[i].batch)
      {
        assert IsProjection(s.taken, s.settled[i].batch);
      }
    }
  }

  lemma StepOrders(s: State, e: Event)
    requires Ordered(s)
    ensures Ordered(Step(s, e))
  {
    match e
    case Push(raw) =>
      assert s.accepted + [raw] == Concat(s.taken) + (s.buffer + [raw]);
    case Take(order) => TakeOrders(s, order);
    case Settle(_, _) =>
    case TickEmpty =>
    case TickDone(_) =>
  }

  /** In every interleaving of adds, flushes and ticks, items are conserved and kept in order. */
  lemma {:induction false} RunsConserveAndOrder(s: State, events: seq<Event>)
    requires PossibleRun(s, events) && Conserved(s) && Ordered(s)
    ensures Conserved(Run(s, events)) && Ordered(Run(s, events))
    decreases |events|
  {
    if events != [] {
      StepConserves(s, events[0]);
      StepOrders(s, events[0]);
      RunsConserveAndOrder(Step(s, events[0]), events[1..]);
    }
  }

  /** The same from the start, spelt out for items that appear in no buffer, batch or malformed text. */
  lemma AcceptedItemsAreSomewhere(events: seq<Event>, r: Raw)
    requires PossibleRun(EMPTY, events)
    ensures var s := Run(EMPTY, events);
            Conserved(s) && Ordered(s) &&
            (r in s.accepted <==>
               r in s.buffer || InBatches(s.inFlight, r) > 0 || InSettled(s.settled, true, r) > 0 ||
               InSettled(s.settled, false, r) > 0 || Dropped(s.taken, r) > 0)
  {
    var s := Run(EMPTY, events);
    assert Conserved(EMPTY) by {
      forall x
        ensures ConservedAt(EMPTY, x)
      {
      }
    }
    RunsConserveAndOrder(EMPTY, events);
    assert ConservedAt(s, r);
    OccursNone(s.accepted, r);
    OccursNone(s.buffer, r);
  }

  predicate IsTick(e: Event) {
    e.TickEmpty? || e.TickDone?
  }

  /** Only a tick lowers backpressure, and until one does nothing more is accepted. */
  lemma {:induction false} OnlyTicksLowerBackpressure(s: State, events: seq<Event>)
    requires s.backpressure && forall e :: e in events ==> !IsTick(e)
    ensures Run(s, events).backpressure && Run(s, events).accepted == s.accepted
    decreases |events|
  {
    if events != [] {
      assert events[0] in events;
      OnlyTicksLowerBackpressure(Step(s, events[0]), events[1..]);
    }
  }

  // ------------------------------------------------------------------------
  // Every batch once
  // ------------------------------------------------------------------------

  /** The batch one of the flights has to send. */
  ghost predicate Due(taken: seq<seq<Raw>>, b: Batch) {
    b.flight < |taken| && b.node in TargetsOf(taken[b.flight]) && b.ops == Project(taken[b.flight], b.node)
  }

  function BatchesOf(ss: seq<Settled>): seq<Batch> {
    if ss == [] then [] else BatchesOf(ss[..|ss| - 1]) + [ss[|ss| - 1].batch]
  }

  ghost predicate OnceAt(s: State, b: Batch) {
    Occurs(s.inFlight, b) + Occurs(BatchesOf(s.settled), b) == if Due(s.taken, b) then 1 else 0
  }

  /** Each batch that is due is in flight or settled, once, and there is no other batch. */
  ghost predicate EachBatchOnce(s: State) {
    forall b :: OnceAt(s, b)
  }

  lemma {:induction false} OccursAppend<T>(xs: seq<T>, ys: seq<T>, x: T)
    ensures Occurs(xs + ys, x) == Occurs(xs, x) + Occurs(ys, x)
    decreases |ys|
  {
    if ys == [] {
      assert xs + ys == xs;
    } else {
      var n := |ys| - 1;
      assert xs + ys == (xs + ys[..n]) + [ys[n]];
      OccursAppend(xs, ys[..n], x);
      OccursSnoc(xs + ys[..n], ys[n], x);
    }
  }

  lemma AroundIndex<T>(xs: seq<T>, i: nat)
    requires i < |xs|
    ensures xs == xs[..i] + ([xs[i]] + xs[i + 1..])
  {
  }

  lemma OccursOne<T>(y: T, x: T)
    ensures Occurs([y], x) == if y == x then 1 else 0
  {
    assert [y][..0] == [];
  }

  lemma OccursWithout<T>(xs: seq<T>, i: nat, x: T)
    requires i < |xs|
    ensures Occurs(xs, x) == Occurs(xs[..i] + xs[i + 1..], x) + if xs[i] == x then 1 else 0
  {
    var front, one, back := xs[..i], [xs[i]], xs[i + 1..];
    AroundIndex(xs, i);
    OccursAppend(front, one + back, x);
    OccursAppend(one, back, x);
    OccursAppend(front, back, x);
    OccursOne(xs[i], x);
  }

  lemma {:induction false} SentOnce(items: seq<Raw>, flight: nat, order: seq<nat>, b: Batch)
    requires forall i, j :: 0 <= i < j < |order| ==> order[i] != order[j]
    ensures Occurs(BatchesFor(items, flight, order), b) ==
            if b.flight == flight && b.node in order && b.ops == Project(items, b.node) then 1 else 0
    decreases |order|
  {
    if order != [] {
      var n := |order| - 1;
      var last := Batch(flight, order[n], Project(items, order[n]));
      assert order == order[..n] + [order[n]] && order[n] !in order[..n];
      SentOnce(items, flight, order[..n], b);
      BatchesForSnoc(items, flight, order);
      OccursSnoc(BatchesFor(items, flight, order[..n]), last, b);
    }
  }

  lemma TakeOnce(s: State, order: seq<nat>, b: Batch)
    requires Visits(order, TargetsOf(s.buffer)) && OnceAt(s, b)
    ensures OnceAt(Step(s, Take(order)), b)
  {
    if s.buffer != [] {
      SentOnce(s.buffer, |s.taken|, order, b);
      OccursAppend(s.inFlight, BatchesFor(s.buffer, |s.taken|, order), b);
    }
  }

  lemma SettleOnce(s: State, i: nat, delivered: bool, b: Batch)
    requires OnceAt(s, b)
    ensures OnceAt(Step(s, Settle(i, delivered)), b)
  {
    if i < |s.inFlight| {
      var x := Settled(s.inFlight[i], delivered);
      OccursWithout(s.inFlight, i, b);
      assert (s.settled + [x])[..|s.settled|] == s.settled;
      OccursSnoc(BatchesOf(s.settled), x.batch, b);
    }
  }

  /** In every interleaving each flight sends one batch to each of its target nodes, and settles it at most once. */
  lemma {:induction false} RunsSendEachBatchOnce(s: State, events: seq<Event>)
    requires PossibleRun(s, events) && EachBatchOnce(s)
    ensures EachBatchOnce(Run(s, events))
    decreases |events|
  {
    if events != [] {
      forall b
        ensures OnceAt(Step(s, events[0]), b)
      {
        assert OnceAt(s, b);
        match events[0]
        case Push(_) =>
        case Take(order) => TakeOnce(s, order, b);
        case Settle(i, delivered) => SettleOnce(s, i, delivered, b);
        case TickEmpty =>
        case TickDone(_) =>
      }
      RunsSendEachBatchOnce(Step(s, events[0]), events[1..]);
    }
  }

  // ------------------------------------------------------------------------
  // The service
  // ------------------------------------------------------------------------

  /** What a flush that meets no interleaving leaves. */
  function Flushed(s: State, order: seq<nat>, net: Network): State {
    if s.buffer == [] then s
    else s.(
      buffer := [], taken := s.taken + [s.buffer],
      settled := s.settled + Verdicts(s.buffer, |s.taken|, order, net))
  }

  function Verdict(items: seq<Raw>, flight: nat, node: nat, net: Network): Settled {
    Settled(Batch(flight, node, Project(items, node)), Delivered(net, node, Project(items, node)))
  }

  function Verdicts(items: seq<Raw>, flight: nat, order: seq<nat>, net: Network): seq<Settled> {
    seq(|order|, k requires 0 <= k < |order| => Verdict(items, flight, order[k], net))
  }

  /** The events of such a flush: take, then settle its batches one after the other. */
  function SettleEvents(at: nat, verdicts: seq<Settled>): seq<Event> {
    if verdicts == [] then [] else [Settle(at, verdicts[0].delivered)] + SettleEvents(at, verdicts[1..])
  }

  lemma {:induction false} SettlingRun(s: State, before: seq<Batch>, verdicts: seq<Settled>)
    requires s.inFlight == before + seq(|verdicts|, k requires 0 <= k < |verdicts| => verdicts[k].batch)
    ensures Run(s, SettleEvents(|before|, verdicts)) == s.(inFlight := before, settled := s.settled + verdicts)
    decreases |verdicts|
  {
    if verdicts == [] {
      assert s.inFlight == before && s.settled + verdicts == s.settled;
    } else {
      var rest := verdicts[1..];
      var e := Settle(|before|, verdicts[0].delivered);
      var s' := Step(s, e);
      assert s.inFlight[|before|] == verdicts[0].batch;
      assert s'.inFlight == before + seq(|rest|, k requires 0 <= k < |rest| => rest[k].batch);
      assert s'.settled == s.settled + [verdicts[0]];
      SettlingRun(s', before, rest);
      assert s'.settled + rest == s.settled + verdicts;
      assert ([e] + SettleEvents(|before|, rest))[1..] == SettleEvents(|before|, rest);
    }
  }

  /** An uninterrupted flush is one of the protocol's runs. */
  lemma FlushIsRun(s: State, order: seq<nat>, net: Network)
    requires s.buffer != []
    ensures Run(s, [Take(order)] + SettleEvents(|s.inFlight|, Verdicts(s.buffer, |s.taken|, order, net)))
            == Flushed(s, order, net)
  {
    var verdicts := Verdicts(s.buffer, |s.taken|, order, net);
    var s' := Step(s, Take(order));
    assert BatchesFor(s.buffer, |s.taken|, order) ==
           seq(|verdicts|, k requires 0 <= k < |verdicts| => verdicts[k].batch);
    SettlingRun(s', s.inFlight, verdicts);
    var events := SettleEvents(|s.inFlight|, verdicts);
    assert ([Take(order)] + events)[1..] == events;
  }

  lemma {:induction false} RunAppend(s: State, xs: seq<Event>, ys: seq<Event>)
    ensures Run(s, xs + ys) == Run(Run(s, xs), ys)
    decreases |xs|
  {
    if xs == [] {
      assert xs + ys == ys;
    } else {
      assert (xs + ys)[1..] == xs[1..] + ys;
      RunAppend(Step(s, xs[0]), xs[1..], ys);
    }
  }

  lemma FlightFailedIff(s: State, order: seq<nat>, net: Network)
    requires s.buffer != [] && Visits(order, TargetsOf(s.buffer))
    requires forall i :: 0 <= i < |s.settled| ==> s.settled[i].batch.flight < |s.taken|
    ensures FlightFailed(Flushed(s, order, net), |s.taken|) <==>
            exists n :: n in TargetsOf(s.buffer) && !Delivered(net, n, Project(s.buffer, n))
  {
    var verdicts, settled := Verdicts(s.buffer, |s.taken|, order, net), Flushed(s, order, net).settled;
    assert forall i :: 0 <= i < |settled| ==>
             settled[i] == if i < |s.settled| then s.settled[i] else verdicts[i - |s.settled|];
    if n :| n in TargetsOf(s.buffer) && !Delivered(net, n, Project(s.buffer, n)) {
      var k :| 0 <= k < |order| && order[k] == n;
      SettledAt(s, order, net, k);
    }
  }

  /** A tick that meets no interleaving is one of the protocol's runs, ending with its own flush's result. */
  lemma TickIsRun(s: State, order: seq<nat>, net: Network)
    requires Visits(order, TargetsOf(s.buffer))
    requires forall i :: 0 <= i < |s.settled| ==> s.settled[i].batch.flight < |s.taken|
    ensures var verdicts := Verdicts(s.buffer, |s.taken|, order, net);
            var events := if s.buffer == [] then [TickEmpty]
                          else [Take(order)] + SettleEvents(|s.inFlight|, verdicts) + [TickDone(|s.taken|)];
            Run(s, events) ==
            Flushed(s, order, net).(
              backpressure := exists n :: n in TargetsOf(s.buffer) && !Delivered(net, n, Project(s.buffer, n)))
  {
    if s.buffer == [] {
      assert [TickEmpty][1..] == [] && TargetsOf(s.buffer) == {};
      assert Run(s, [TickEmpty]) == Run(Step(s, TickEmpty), []);
    } else {
      var flush := [Take(order)] + SettleEvents(|s.inFlight|, Verdicts(s.buffer, |s.taken|, order, net));
      var done := TickDone(|s.taken|);
      FlushIsRun(s, order, net);
      RunAppend(s, flush, [done]);
      FlightFailedIff(s, order, net);
      assert [done][1..] == [];
      assert Run(Flushed(s, order, net), [done]) == Run(Step(Flushed(s, order, net), done), []);
    }
  }

  lemma ItemIsInItsBatch(items: seq<Raw>, flight: nat, item: BatchItem)
    requires Item(item) in items
    ensures InBatch(Batch(flight, item.targetNode, Project(items, item.targetNode)), Item(item)) > 0
  {
    ProjectionCount(items, item);
    OccursNone(items, Item(item));
  }

  lemma SettledAt(s: State, order: seq<nat>, net: Network, k: nat)
    requires s.buffer != [] && k < |order|
    ensures var settled := Flushed(s, order, net).settled;
            |s.settled| + k < |settled| && settled[|s.settled| + k] == Verdict(s.buffer, |s.taken|, order[k], net)
  {
    var verdicts := Verdicts(s.buffer, |s.taken|, order, net);
    assert (s.settled + verdicts)[|s.settled| + k] == verdicts[k];
  }

  lemma FlushGivesUp(s: State, order: seq<nat>, net: Network, item: BatchItem) returns (i: nat)
    requires Visits(order, TargetsOf(s.buffer)) && Item(item) in s.buffer
    requires !Delivered(net, item.targetNode, Project(s.buffer, item.targetNode))
    ensures var settled := Flushed(s, order, net).settled;
            i < |settled| && settled[i].batch.flight == |s.taken| && !settled[i].delivered &&
            InBatch(settled[i].batch, Item(item)) > 0
  {
    assert item.targetNode in TargetsOf(s.buffer);
    var k :| 0 <= k < |order| && order[k] == item.targetNode;
    i := |s.settled| + k;
    SettledAt(s, order, net, k);
    ItemIsInItsBatch(s.buffer, |s.taken|, item);
  }

  lemma {:induction false} VerdictsCount(
      items: seq<Raw>, flight: nat, order: seq<nat>, net: Network, delivered: bool, item: BatchItem)
    requires forall i, j :: 0 <= i < j < |order| ==> order[i] != order[j]
    ensures InSettled(Verdicts(items, flight, order, net), delivered, Item(item)) ==
            if item.targetNode in order && Delivered(net, item.targetNode, Project(items, item.targetNode)) == delivered
            then Occurs(items, Item(item)) else 0
    decreases |order|
  {
    if order != [] {
      var n := |order| - 1;
      var last := Verdict(items, flight, order[n], net);
      assert order == order[..n] + [order[n]] && order[n] !in order[..n];
      VerdictsCount(items, flight, order[..n], net, delivered, item);
      assert Verdicts(items, flight, order, net) == Verdicts(items, flight, order[..n], net) + [last];
      InSettledSnoc(Verdicts(items, flight, order[..n], net), last, delivered, Item(item));
      ProjectionCount(items, item);
    }
  }

  lemma {:induction false} InSettledAppend(xs: seq<Settled>, ys: seq<Settled>, delivered: bool, r: Raw)
    ensures InSettled(xs + ys, delivered, r) == InSettled(xs, delivered, r) + InSettled(ys, delivered, r)
    decreases |ys|
  {
    if ys == [] {
      assert xs + ys == xs;
    } else {
      var n := |ys| - 1;
      assert xs + ys == (xs + ys[..n]) + [ys[n]];
      InSettledAppend(xs, ys[..n], delivered, r);
      InSettledSnoc(xs + ys[..n], ys[n], delivered, r);
    }
  }

  /**
   * A flush settles an item as often as it took it: all as acknowledged when the batch of its node is
   * delivered, all as given up when it is not.
   */
  lemma FlushSettlesWhatItTook(s: State, order: seq<nat>, net: Network, item: BatchItem, delivered: bool)
    requires Visits(order, TargetsOf(s.buffer))
    ensures InSettled(Flushed(s, order, net).settled, delivered, Item(item)) ==
            InSettled(s.settled, delivered, Item(item)) +
            if Delivered(net, item.targetNode, Project(s.buffer, item.targetNode)) == delivered
            then Occurs(s.buffer, Item(item)) else 0
  {
    OccursNone(s.buffer, Item(item));
    if s.buffer != [] {
      VerdictsCount(s.buffer, |s.taken|, order, net, delivered, item);
      InSettledAppend(s.settled, Verdicts(s.buffer, |s.taken|, order, net), delivered, Item(item));
      if Item(item) in s.buffer {
        assert item.targetNode in TargetsOf(s.buffer);
      }
    }
  }

  /**
   * At-least-once delivery stops at a failed flush: an item of the flush is given up exactly when its node
   * batch is not delivered; the ticker then raises backpressure, and its next tick finds nothing to flush
   * and lowers it again.
   */
  lemma FailedFlushIsForgotten(s: State, order: seq<nat>, net: Network, item: BatchItem)
    requires Visits(order, TargetsOf(s.buffer)) && Item(item) in s.buffer
    ensures var failed := Step(Flushed(s, order, net), TickDone(|s.taken|));
            var later := Step(failed, TickEmpty);
            var lost := !Delivered(net, item.targetNode, Project(s.buffer, item.targetNode));
            (lost ==> failed.backpressure) && !later.backpressure && later.buffer == [] &&
            (InSettled(later.settled, false, Item(item)) > InSettled(s.settled, false, Item(item)) <==> lost)
  {
    FlushSettlesWhatItTook(s, order, net, item, false);
    OccursNone(s.buffer, Item(item));
    if !Delivered(net, item.targetNode, Project(s.buffer, item.targetNode)) {
      var i := FlushGivesUp(s, order, net, item);
    }
  }

  /** The sending loop of `flush`: every node is tried, also after another has failed. */
  method SendAll(batches: map<nat, seq<IndexOperation>>, net: Network)
    returns (failedNodes: set<nat>, ghost order: seq<nat>)
    ensures Visits(order, batches.Keys)
    ensures forall n :: n in failedNodes <==> n in batches && !Delivered(net, n, batches[n])
  {
    failedNodes, order := {}, [];
    var todo := batches.Keys;
    while todo != {}
      invariant todo <= batches.Keys
      invariant Visits(order, batches.Keys - todo)
      invariant forall n :: n in failedNodes <==> n in batches && n !in todo && !Delivered(net, n, batches[n])
      decreases todo
    {
      var node :| node in todo;
      todo := todo - {node};
      var answer := SendBatchWithRetry(net, node);
      FirstAnswerMeaning(net, node, 0);
      if answer.None? || answer.value.processed + answer.value.skipped < |batches[node]| {
        failedNodes := failedNodes + {node};
      }
      order := order + [node];
    }
    assert batches.Keys - todo == batches.Keys;
  }

  class Service {
    var buffer: seq<Raw>
    var lastFlushFailed: bool
    ghost var inFlight: seq<Batch>
    ghost var settled: seq<Settled>
    ghost var accepted: seq<Raw>
    ghost var taken: seq<seq<Raw>>

    ghost function View(): State
      reads this
    {
      BatcherState(buffer, inFlight, settled, lastFlushFailed, accepted, taken)
    }

    constructor ()
      ensures View() == EMPTY
    {
      buffer, lastFlushFailed := [], false;
      inFlight, settled, accepted, taken := [], [], [], [];
    }

    /** `flush`: Ok exactly when every node batch was delivered; an empty buffer is Ok at once. */
    method Flush(net: Network) returns (failedNodes: set<nat>)
      modifies this
      ensures failedNodes == set n | n in TargetsOf(old(buffer)) && !Delivered(net, n, Project(old(buffer), n))
      ensures exists order :: Visits(order, TargetsOf(old(buffer))) && View() == Flushed(old(View()), order, net)
    {
      failedNodes := {};
      if buffer == [] {
        assert Visits([], TargetsOf(old(buffer))) && View() == Flushed(old(View()), [], net);
        return;
      }
      var items := buffer;
      buffer := [];
      ghost var flight := |taken|;
      taken := taken + [items];
      var batches := GroupByNode(items);
      ghost var order;
      failedNodes, order := SendAll(batches, net);
      settled := settled + Verdicts(items, flight, order, net);
      assert Visits(order, TargetsOf(old(buffer)));
      assert View() == Flushed(old(View()), order, net);
    }

    /** `add`: refused under backpressure; a full buffer is flushed at once, and that flush sets no flag. */
    method Add(raw: Raw, net: Network) returns (ok: bool)
      modifies this
      ensures lastFlushFailed == old(lastFlushFailed)
      ensures old(lastFlushFailed) ==> !ok && View() == old(View())
      ensures !old(lastFlushFailed) ==> accepted == old(accepted) + [raw]
      ensures !old(lastFlushFailed) ==>
                buffer == if |old(buffer)| + 1 < 250 then old(buffer) + [raw] else []
      ensures !old(lastFlushFailed) ==>
                var pushed := Step(old(View()), Push(raw));
                if |pushed.buffer| < BATCH_LIMIT then ok && View() == pushed
                else
                  (ok <==> forall n :: n in TargetsOf(pushed.buffer) ==>
                             Delivered(net, n, Project(pushed.buffer, n))) &&
                  exists order :: Visits(order, TargetsOf(pushed.buffer)) && View() == Flushed(pushed, order, net)
    {
      if lastFlushFailed {
        return false;
      }
      buffer := buffer + [raw];
      accepted := accepted + [raw];
      ok := true;
      if |buffer| >= BATCH_LIMIT {
        ghost var full := buffer;
        var failedNodes := Flush(net);
        ok := failedNodes == {};
        assert forall n :: n in failedNodes <==> n in TargetsOf(full) && !Delivered(net, n, Project(full, n));
      }
    }

    /** One tick of the background flusher: backpressure is whatever this flush says. */
    method Tick(net: Network)
      modifies this
      ensures exists order :: Visits(order, TargetsOf(old(buffer))) &&
                View() == Flushed(old(View()), order, net).(backpressure := lastFlushFailed)
      ensures lastFlushFailed <==>
                exists n :: n in TargetsOf(old(buffer)) && !Delivered(net, n, Project(old(buffer), n))
    {
      var failedNodes := Flush(net);
      ghost var order :| Visits(order, TargetsOf(old(buffer))) && View() == Flushed(old(View()), order, net);
      assert forall n :: n in failedNodes <==>
               n in TargetsOf(old(buffer)) && !Delivered(net, n, Project(old(buffer), n));
      lastFlushFailed := failedNodes != {};
      assert View() == Flushed(old(View()), order, net).(backpressure := lastFlushFailed);
    }
  }
}

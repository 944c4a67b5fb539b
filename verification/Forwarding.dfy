/** Handing a forwarded row to the batch service. */
module Forwarding {
  import opened Store
  import opened Router
  import Batcher

  /** What `add` answers to an item, and the state it leaves, when there is no backpressure. */
  ghost predicate Added(
      before: Batcher.State, after: Batcher.State, raw: Batcher.Raw, net: Batcher.Network, ok: bool)
  {
    var pushed := Batcher.Step(before, Batcher.Push(raw));
    if |pushed.buffer| < Batcher.BATCH_LIMIT then ok && after == pushed
    else
      (ok <==> forall n :: n in Batcher.TargetsOf(pushed.buffer) ==>
                 Batcher.Delivered(net, n, Batcher.Project(pushed.buffer, n))) &&
      exists order ::
        Batcher.Visits(order, Batcher.TargetsOf(pushed.buffer)) && after == Batcher.Flushed(pushed, order, net)
  }

  /**
   * `route_forward`. Under backpressure it flushes first, but the flush leaves the flag as it is, so that
   * the row is refused whether the flush succeeds or not; the rows that were buffered are gone from the buffer
   * either way.
   */
  method RouteForward(
      service: Batcher.Service, row: CdcRow, kind: OpType, hash: seq<string> -> nat, nodes: nat,
      flush: Batcher.Network, add: Batcher.Network) returns (ok: bool)
    requires nodes > 0
    modifies service
    ensures service.lastFlushFailed == old(service.lastFlushFailed)
    ensures old(service.lastFlushFailed) ==>
              !ok && service.buffer == [] && service.accepted == old(service.accepted) &&
              exists order ::
                Batcher.Visits(order, Batcher.TargetsOf(old(service.buffer))) &&
                service.View() == Batcher.Flushed(old(service.View()), order, flush)
    ensures !old(service.lastFlushFailed) ==>
              service.accepted == old(service.accepted) + [Batcher.Item(ItemFor(row, kind, hash, nodes))] &&
              Added(old(service.View()), service.View(), Batcher.Item(ItemFor(row, kind, hash, nodes)), add, ok)
  {
    if service.lastFlushFailed {
      var failedNodes := service.Flush(flush);
      if failedNodes != {} {
        return false;
      }
    }
    ok := service.Add(Batcher.Item(ItemFor(row, kind, hash, nodes)), add);
  }
}

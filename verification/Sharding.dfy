/** Rows are spread over search nodes by partition key, and nobody can tell. */
module Sharding {
  import opened Wrappers
  import opened Store
  import Keys

  // ------------------------------------------------------------------------
  // Routing
  // ------------------------------------------------------------------------

  /**
   * `get_target_node_id`. The hash of the partition-key values is a parameter: nothing below depends on
   * which function it is.
   */
  function TargetNode(hash: seq<string> -> nat, pkValues: seq<string>, nodes: nat): nat
    requires nodes > 0
  {
    hash(pkValues) % nodes
  }

  /** The node that owns a partition-key string. */
  function Owner(hash: seq<string> -> nat, partition: string, nodes: nat): nat
    requires nodes > 0
  {
    TargetNode(hash, Keys.Split(partition), nodes)
  }

  /** Routing by column values is routing by the partition-key string, for values without a colon. */
  lemma TargetIsOwner(hash: seq<string> -> nat, pkValues: seq<string>, nodes: nat)
    requires nodes > 0 && |pkValues| > 0 && Keys.ColonFree(pkValues)
    ensures TargetNode(hash, pkValues, nodes) == Owner(hash, Keys.Join(pkValues), nodes)
  {
    Keys.SplitOfJoin(pkValues);
  }

  // ------------------------------------------------------------------------
  // Each node's share
  // ------------------------------------------------------------------------

  /** The operations sent to `node`, in order. */
  function ShareOf(ops: seq<IndexOperation>, owner: string -> nat, node: nat): seq<IndexOperation>
    decreases |ops|
  {
    if ops == [] then []
    else if owner(PartitionOf(ops[0])) == node then [ops[0]] + ShareOf(ops[1..], owner, node)
    else ShareOf(ops[1..], owner, node)
  }

  /** The documents whose partition `node` owns. */
  function Owned(m: Documents, owner: string -> nat, node: nat): Documents {
    map id | id in m && owner(m[id].partition) == node :: m[id]
  }

  /** An id determines the partition of every operation that names it. */
  ghost predicate Keyed(ops: seq<IndexOperation>, partition: string -> string) {
    forall op :: op in ops && (op.kind.Upsert? || op.kind.Delete?) ==> PartitionOf(op) == partition(op.id)
  }

  lemma StepOfShare(
      m: Documents, op: IndexOperation, owner: string -> nat, partition: string -> string, node: nat)
    requires KeyedDocs(m, partition) && Keyed([op], partition)
    ensures KeyedDocs(Apply(m, op), partition)
    ensures Owned(Apply(m, op), owner, node) ==
            if owner(PartitionOf(op)) == node then Apply(Owned(m, owner, node), op) else Owned(m, owner, node)
  {
    assert op in [op];
    var l := Owned(Apply(m, op), owner, node);
    var r := if owner(PartitionOf(op)) == node then Apply(Owned(m, owner, node), op) else Owned(m, owner, node);
    forall id
      ensures Get(l, id) == Get(r, id)
    {
    }
    SameGets(l, r);
  }

  /** A node that receives its own subsequence holds exactly the single-node documents it owns. */
  lemma {:induction false} ShareIsOwned(
      m: Documents, ops: seq<IndexOperation>, owner: string -> nat, partition: string -> string, node: nat)
    requires KeyedDocs(m, partition) && Keyed(ops, partition)
    ensures ApplyAll(Owned(m, owner, node), ShareOf(ops, owner, node)) == Owned(ApplyAll(m, ops), owner, node)
    decreases |ops|
  {
    if ops != [] {
      assert ops[0] in ops;
      StepOfShare(m, ops[0], owner, partition, node);
      assert forall op :: op in ops[1..] ==> op in ops;
      ShareIsOwned(Apply(m, ops[0]), ops[1..], owner, partition, node);
      if owner(PartitionOf(ops[0])) == node {
        var rest := ShareOf(ops[1..], owner, node);
        assert ([ops[0]] + rest)[1..] == rest;
      }
    }
  }

  /** The documents of the first `nodes` nodes together. */
  function Union(shards: seq<Documents>): Documents {
    if shards == [] then map[] else Union(shards[..|shards| - 1]) + shards[|shards| - 1]
  }

  lemma {:induction false} UnionOfOwned(m: Documents, owner: string -> nat, shards: seq<Documents>)
    requires forall i :: 0 <= i < |shards| ==> shards[i] == Owned(m, owner, i)
    ensures Union(shards) == map id | id in m && owner(m[id].partition) < |shards| :: m[id]
    decreases |shards|
  {
    if shards != [] {
      UnionOfOwned(m, owner, shards[..|shards| - 1]);
    }
  }

  /**
   * Sharding is transparent: the nodes' documents are disjoint and together they are the documents one
   * node would hold after the whole stream, partition deletes included.
   */
  lemma ShardingIsTransparent(
      m: Documents, ops: seq<IndexOperation>, partition: string -> string,
      hash: seq<string> -> nat, nodes: nat, shards: seq<Documents>)
    requires nodes > 0 && |shards| == nodes
    requires KeyedDocs(m, partition) && Keyed(ops, partition)
    requires var owner := (pk: string) => Owner(hash, pk, nodes);
             forall i :: 0 <= i < nodes ==> shards[i] == ApplyAll(Owned(m, owner, i), ShareOf(ops, owner, i))
    ensures Union(shards) == ApplyAll(m, ops)
    ensures forall i, j :: 0 <= i < j < nodes ==> shards[i].Keys !! shards[j].Keys
  {
    var owner := (pk: string) => Owner(hash, pk, nodes);
    var whole := ApplyAll(m, ops);
    forall i | 0 <= i < nodes
      ensures shards[i] == Owned(whole, owner, i)
    {
      ShareIsOwned(m, ops, owner, partition, i);
    }
    UnionOfOwned(whole, owner, shards);
  }
}

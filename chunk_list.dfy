/**
 * The singly linked list of download tasks in `download_video`: built in
 * range order with ids 1..n, then drained from the head, each node's result
 * appended to the output and the head moved past it.
 *
 * A task is modelled by its resolved value: the bytes its `.result()` gives.
 */
module ChunkList {
  import opened Results
  import opened ByteSeq
  import opened RangePlan

  /** A list node: `data` is the task's result, `None` until a task is attached. */
  class Node {
    var data: Option<Bytes>
    const chunkId: int
    var next: Node?

    constructor (chunkId: int, data: Option<Bytes> := None, next: Node? := null)
      ensures this.chunkId == chunkId && this.data == data && this.next == next
    {
      this.data := data;
      this.chunkId := chunkId;
      this.next := next;
    }
  }

  /** The node at position `i` of `nodes`, or null just past the end. */
  function At(nodes: seq<Node>, i: nat): Node? {
    if i < |nodes| then nodes[i] else null
  }

  /** No object occurs twice in `nodes`. */
  predicate Distinct(nodes: seq<Node>) {
    forall i, j :: 0 <= i < j < |nodes| ==> nodes[i] != nodes[j]
  }

  /** Each node's `next` is the node after it, and the last one's is null. */
  ghost predicate Linked(nodes: seq<Node>)
    reads nodes`next
  {
    && (forall i :: 0 <= i < |nodes| - 1 ==> nodes[i].next == nodes[i + 1])
    && (|nodes| > 0 ==> nodes[|nodes| - 1].next == null)
  }

  /**
   * Following `next` from `head` visits exactly `nodes`, in order, and ends
   * at null (ListDistinct shows that no node then appears twice).
   */
  ghost predicate IsList(head: Node?, nodes: seq<Node>)
    reads nodes`next
  {
    head == At(nodes, 0) && Linked(nodes)
  }

  /** Every node of `nodes` carries a result. */
  ghost predicate AllResolved(nodes: seq<Node>)
    reads nodes`data
  {
    forall i :: 0 <= i < |nodes| ==> nodes[i].data.Some?
  }

  /** The nodes' results, in list order. */
  ghost function Payloads(nodes: seq<Node>): (r: seq<Bytes>)
    requires AllResolved(nodes)
    reads nodes`data
    ensures |r| == |nodes|
  {
    if nodes == [] then [] else Payloads(nodes[..|nodes| - 1]) + [nodes[|nodes| - 1].data.value]
  }

  /** The nodes' ids, in list order. */
  function ChunkIds(nodes: seq<Node>): (r: seq<int>)
    ensures |r| == |nodes|
  {
    if nodes == [] then [] else ChunkIds(nodes[..|nodes| - 1]) + [nodes[|nodes| - 1].chunkId]
  }

  /** Position `i` of the results is node `i`'s result. */
  lemma {:induction false} PayloadsAt(nodes: seq<Node>, i: nat)
    requires AllResolved(nodes) && i < |nodes|
    ensures Payloads(nodes)[i] == nodes[i].data.value
    decreases |nodes|
  {
    if i < |nodes| - 1 {
      PayloadsAt(nodes[..|nodes| - 1], i);
    }
  }

  /** Position `i` of the ids is node `i`'s id. */
  lemma {:induction false} ChunkIdsAt(nodes: seq<Node>, i: nat)
    requires i < |nodes|
    ensures ChunkIds(nodes)[i] == nodes[i].chunkId
    decreases |nodes|
  {
    if i < |nodes| - 1 {
      ChunkIdsAt(nodes[..|nodes| - 1], i);
    }
  }

  /** The ids `1..n`, in order. */
  function Ids(n: nat): (r: seq<int>)
    ensures |r| == n
  {
    if n == 0 then [] else Ids(n - 1) + [n]
  }

  lemma {:induction false} IdsAt(n: nat, k: nat)
    requires k < n
    ensures Ids(n)[k] == k + 1
  {
    if k < n - 1 {
      IdsAt(n - 1, k);
    }
  }

  /** Nodes whose ids read `1..n` carry id `k + 1` at position `k`. */
  lemma NumberedFromOne(nodes: seq<Node>)
    requires ChunkIds(nodes) == Ids(|nodes|)
    ensures forall k :: 0 <= k < |nodes| ==> nodes[k].chunkId == k + 1
  {
    forall k | 0 <= k < |nodes|
      ensures nodes[k].chunkId == k + 1
    {
      ChunkIdsAt(nodes, k);
      IdsAt(|nodes|, k);
    }
  }

  /** Appending a node appends its id. */
  lemma ChunkIdsSnoc(nodes: seq<Node>, node: Node)
    ensures ChunkIds(nodes + [node]) == ChunkIds(nodes) + [node.chunkId]
  {
    assert (nodes + [node])[..|nodes|] == nodes;
  }

  /** Nodes whose data are the given results, in order, have those results as their payloads. */
  lemma {:induction false} PayloadsFromData(nodes: seq<Node>, results: seq<Bytes>)
    requires |nodes| == |results|
    requires forall k :: 0 <= k < |nodes| ==> nodes[k].data == Some(results[k])
    ensures AllResolved(nodes) && Payloads(nodes) == results
    decreases |nodes|
  {
    if nodes != [] {
      var n := |nodes| - 1;
      PayloadsFromData(nodes[..n], results[..n]);
      assert results == results[..n] + [results[n]];
    }
  }

  /** The tail of a list from any of its nodes is again a list. */
  lemma {:induction false} IsListSuffix(head: Node?, nodes: seq<Node>, k: nat)
    requires IsList(head, nodes)
    requires k <= |nodes|
    ensures IsList(At(nodes, k), nodes[k..])
  {
  }

  /** The nodes reachable from a head are determined by the head alone. */
  lemma {:induction false} ListUnique(head: Node?, a: seq<Node>, b: seq<Node>)
    requires IsList(head, a) && IsList(head, b)
    ensures a == b
    decreases |a|
  {
    if head != null {
      assert |a| > 0 && |b| > 0 && a[0] == b[0];
      IsListSuffix(head, a, 1);
      IsListSuffix(head, b, 1);
      ListUnique(head.next, a[1..], b[1..]);
      assert a == [a[0]] + a[1..] && b == [b[0]] + b[1..];
    }
  }

  /** A list never comes back to a node it has passed, so its nodes are distinct. */
  lemma ListDistinct(head: Node?, nodes: seq<Node>)
    requires IsList(head, nodes)
    ensures Distinct(nodes)
  {
    forall i, j | 0 <= i < j < |nodes|
      ensures nodes[i] != nodes[j]
    {
      IsListSuffix(head, nodes, i);
      IsListSuffix(head, nodes, j);
      if nodes[i] == nodes[j] {
        ListUnique(nodes[i], nodes[i..], nodes[j..]);
        assert false;
      }
    }
  }

  /**
   * Once the head has moved past the first `k` nodes, the list from the head
   * is the remaining nodes and none of the written ones.
   */
  lemma WrittenUnreachable(head: Node?, nodes: seq<Node>, k: nat, rest: seq<Node>)
    requires IsList(head, nodes)
    requires k <= |nodes|
    requires IsList(At(nodes, k), rest)
    ensures rest == nodes[k..]
    ensures forall j :: 0 <= j < k ==> nodes[j] !in rest
  {
    IsListSuffix(head, nodes, k);
    ListUnique(At(nodes, k), rest, nodes[k..]);
    ListDistinct(head, nodes);
  }

  /**
   * The build loop: one node per range, appended at `current`, with ids
   * 1..n and node k's result the fetch of range k.
   */
  method Build(ranges: seq<ByteRange>, fetch: ByteRange -> Bytes) returns (head: Node?, ghost nodes: seq<Node>)
    ensures IsList(head, nodes) && AllResolved(nodes)
    ensures |nodes| == |ranges|
    ensures forall k :: 0 <= k < |nodes| ==> nodes[k].chunkId == k + 1
    ensures Payloads(nodes) == seq(|ranges|, k requires 0 <= k < |ranges| => fetch(ranges[k]))
  {
    head := null;
    var current: Node? := null;
    var i := 0;
    nodes := [];
    ghost var fetched := seq(|ranges|, k requires 0 <= k < |ranges| => fetch(ranges[k]));
    for idx := 0 to |ranges|
      invariant i == idx == |nodes|
      invariant IsList(head, nodes)
      invariant current == if idx == 0 then null else nodes[idx - 1]
      invariant current != null ==> fresh(current)
      invariant ChunkIds(nodes) == Ids(idx)
      invariant forall k :: 0 <= k < idx ==> nodes[k].data == Some(fetched[k])
    {
      var start, end := ranges[idx].start, ranges[idx].end;
      assert ByteRange(start, end) == ranges[idx] && fetch(ByteRange(start, end)) == fetched[idx];
      i := i + 1;
      if head == null {
        head := new Node(i);
        current := head;
      } else {
        forall k | 0 <= k < |nodes| - 1
          ensures nodes[k] != current
        {
          assert nodes[k].next == nodes[k + 1];
        }
        current.next := new Node(i);
        current := current.next;
      }
      assert current !in nodes;
      current.data := Some(fetch(ByteRange(start, end)));
      ChunkIdsSnoc(nodes, current);
      nodes := nodes + [current];
    }
    NumberedFromOne(nodes);
    PayloadsFromData(nodes, fetched);
  }

  /**
   * The drain loop: wait on the head's result, append it to the output, move
   * the head on; stops when the head is null. The output is the results in
   * list order, whatever order the tasks completed in.
   */
  method Drain(first: Node?, ghost nodes: seq<Node>) returns (output: Bytes)
    requires IsList(first, nodes) && AllResolved(nodes)
    ensures output == Concat(Payloads(nodes))
  {
    output := [];
    var head := first;
    ghost var k := 0;
    ghost var results := Payloads(nodes);
    while head != null
      invariant k <= |nodes|
      invariant head == At(nodes, k)
      invariant output == Concat(results[..k])
      decreases |nodes| - k
    {
      PayloadsAt(nodes, k);
      var result := head.data.value;
      assert results[..k + 1] == results[..k] + [result];
      ConcatSnoc(results[..k], result);
      output := output + result;
      head := head.next;
      k := k + 1;
    }
    assert results[..k] == results;
  }
}

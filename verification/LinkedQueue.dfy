/** The queues as they are in memory: nodes linked through their next pointers.
    Every operation is proved against the sequence of nodes, and through it
    against the state machine's run queue and mutex queue. */
module LinkedQueue {
  import opened Threads
  import opened Dispatch

  /** A list node with the fields of its control block that the lists look at. */
  class Node {
    var next: Node?
    const id: ThreadId
    var quantum: int

    constructor (id: ThreadId, quantum: int)
      ensures this.id == id && this.quantum == quantum && next == null
    {
      this.id, this.quantum, this.next := id, quantum, null;
    }
  }

  /** The chain from `head` runs through exactly these nodes. */
  ghost predicate Chain(head: Node?, nodes: seq<Node>)
    reads nodes
  {
    && head == At(nodes, 0)
    && (forall i, j | 0 <= i < j < |nodes| :: nodes[i] != nodes[j])
    && (forall i | 0 <= i < |nodes| :: nodes[i].next == At(nodes, i + 1))
  }

  ghost function At(nodes: seq<Node>, i: nat): Node? {
    if i < |nodes| then nodes[i] else null
  }

  ghost function Ids(nodes: seq<Node>): (ids: seq<ThreadId>)
    ensures |ids| == |nodes|
  {
    seq(|nodes|, i requires 0 <= i < |nodes| => nodes[i].id)
  }

  /** The nodes' quanta are the ones that the control blocks hold. */
  ghost predicate Carries(nodes: seq<Node>, tcb: map<ThreadId, Tcb>)
    reads nodes`quantum
  {
    forall i | 0 <= i < |nodes| :: nodes[i].id in tcb && tcb[nodes[i].id].quantum == nodes[i].quantum
  }

  /** Where the walk of `llNodeInsertSortedByQuantum` stops. */
  lemma {:induction false} PlaceSortedIs(tcb: map<ThreadId, Tcb>, queue: seq<ThreadId>, t: ThreadId, p: nat)
    requires p <= |queue|
    requires forall i | 0 <= i < p :: Quantum(tcb, t) >= Quantum(tcb, queue[i])
    requires p < |queue| ==> Quantum(tcb, t) < Quantum(tcb, queue[p])
    ensures PlaceSorted(tcb, queue, t) == p
  {
    hide Quantum;
    if p > 0 {
      PlaceSortedIs(tcb, queue[1..], t, p - 1);
    }
  }

  lemma ChainLinks(head: Node?, nodes: seq<Node>)
    requires Chain(head, nodes)
    ensures head == At(nodes, 0)
    ensures forall i, j | 0 <= i < j < |nodes| :: nodes[i] != nodes[j]
    ensures forall i | 0 <= i < |nodes| :: nodes[i].next == At(nodes, i + 1)
  {
  }

  lemma ChainOfOne(node: Node)
    requires node.next == null
    ensures Chain(node, [node])
  {
  }

  /** The node is spliced in at p when the links around p say so. */
  lemma SplicedChain(before: seq<Node>, node: Node, p: nat, after: seq<Node>)
    requires node !in before && p <= |before| && after == before[..p] + [node] + before[p..]
    requires forall i, j | 0 <= i < j < |before| :: before[i] != before[j]
    requires node.next == At(before, p)
    requires p > 0 ==> before[p - 1].next == node
    requires forall i | 0 <= i < |before| && i != p - 1 :: before[i].next == At(before, i + 1)
    ensures Chain(At(after, 0), after)
  {
    forall i | 0 <= i < |after| ensures after[i].next == At(after, i + 1) {
      assert i > p ==> after[i] == before[i - 1];
      assert i < p ==> after[i] == before[i];
    }
    forall i, j | 0 <= i < j < |after| ensures after[i] != after[j] {
      assert i > p ==> after[i] == before[i - 1];
      assert j > p ==> after[j] == before[j - 1];
    }
  }

  /** The node at k is taken out when the link around it says so. */
  lemma Unlinked(before: seq<Node>, k: nat)
    requires k < |before|
    requires forall i, j | 0 <= i < j < |before| :: before[i] != before[j]
    requires k > 0 ==> before[k - 1].next == At(before, k + 1)
    requires forall i | 0 <= i < |before| && i != k && i != k - 1 :: before[i].next == At(before, i + 1)
    ensures Chain(if k == 0 then At(before, 1) else before[0], before[..k] + before[k + 1..])
  {
    var after := before[..k] + before[k + 1..];
    assert forall i | 0 <= i < |after| :: after[i] == before[if i < k then i else i + 1];
  }

  lemma HeadIsApart(head: Node?, nodes: seq<Node>, s: State)
    requires Chain(head, nodes) && nodes != []
    requires Ids(nodes) == s.queue && Carries(nodes, s.tcb) && QueueOk(s)
    ensures nodes[0] !in nodes[1..] && Ids(nodes[1..]) == s.queue[1..] && Carries(nodes[1..], s.tcb)
    ensures s.queue[0] == nodes[0].id && s.queue[0] in s.tcb && s.tcb[s.queue[0]].quantum == nodes[0].quantum
  {
    IdsAt(nodes);
  }

  lemma RaisedCarries(nodes: seq<Node>, pop: Node, s: State)
    requires pop.id in s.tcb && pop.quantum == s.tcb[pop.id].quantum + QUANTUM_INCREMENT
    requires Carries(nodes, s.tcb) && pop.id !in Ids(nodes)
    ensures Carries(nodes, Bump(s, pop.id).tcb) && Carries([pop], Bump(s, pop.id).tcb)
  {
    IdsAt(nodes);
    assert forall i | 0 <= i < |nodes| :: nodes[i].id in Ids(nodes);
  }

  /** The nodes before p are no larger than the node, and the one at p is. */
  ghost predicate Walked(node: Node, nodes: seq<Node>, p: nat)
    reads node, nodes
  {
    && p <= |nodes|
    && (forall i | 0 <= i < p :: node.quantum >= nodes[i].quantum)
    && (p < |nodes| ==> node.quantum < nodes[p].quantum)
  }

  lemma WalkedPastHead(node: Node, nodes: seq<Node>, p: nat)
    requires nodes != [] && node.quantum > nodes[0].quantum && Walked(node, nodes, p)
    ensures p >= 1
  {
  }

  /** Where the walk stops is where the state machine inserts. */
  lemma InsertIs(before: seq<Node>, node: Node, p: nat, tcb: map<ThreadId, Tcb>)
    requires Carries(before, tcb) && Carries([node], tcb) && p <= |before|
    requires if before == [] then p == 0 else p >= 1
    requires before != [] && node.quantum <= before[0].quantum ==> p == 1
    requires before != [] && node.quantum > before[0].quantum ==> Walked(node, before, p)
    ensures Ids(before[..p] + [node] + before[p..]) == Insert(tcb, Ids(before), node.id)
    ensures Carries(before[..p] + [node] + before[p..], tcb)
    ensures multiset(before[..p] + [node] + before[p..]) == multiset(before) + multiset{node}
  {
    hide Insert, Ids, Carries, Quantum;
    SpliceKeeps(before, node, p, tcb);
    IdsAt(before);
    CarriesQuanta(before, tcb);
    CarriesQuanta([node], tcb);
    InsertAtPlace(tcb, Ids(before), node.id, p);
    IdsOfSplice(before, node, p);
  }

  lemma SpliceKeeps(before: seq<Node>, node: Node, p: nat, tcb: map<ThreadId, Tcb>)
    requires Carries(before, tcb) && Carries([node], tcb) && p <= |before|
    ensures Carries(before[..p] + [node] + before[p..], tcb)
    ensures multiset(before[..p] + [node] + before[p..]) == multiset(before) + multiset{node}
  {
    assert [node][0] == node;
    assert before == before[..p] + before[p..];
  }

  lemma CarriesQuanta(nodes: seq<Node>, tcb: map<ThreadId, Tcb>)
    requires Carries(nodes, tcb)
    ensures forall i | 0 <= i < |nodes| :: Quantum(tcb, nodes[i].id) == nodes[i].quantum
  {
  }

  lemma IdsAt(nodes: seq<Node>)
    ensures forall i | 0 <= i < |nodes| :: Ids(nodes)[i] == nodes[i].id
  {
  }

  lemma IdsOfSplice(before: seq<Node>, node: Node, p: nat)
    requires p <= |before|
    ensures Ids(before[..p] + [node] + before[p..]) == Ids(before)[..p] + [node.id] + Ids(before)[p..]
  {
  }

  lemma InsertAtPlace(tcb: map<ThreadId, Tcb>, queue: seq<ThreadId>, t: ThreadId, p: nat)
    requires if queue == [] then p == 0 else 1 <= p <= |queue|
    requires queue != [] && Quantum(tcb, t) <= Quantum(tcb, queue[0]) ==> p == 1
    requires queue != [] && Quantum(tcb, t) > Quantum(tcb, queue[0]) ==>
               && (forall i | 0 <= i < p :: Quantum(tcb, t) >= Quantum(tcb, queue[i]))
               && (p < |queue| ==> Quantum(tcb, t) < Quantum(tcb, queue[p]))
    ensures Insert(tcb, queue, t) == queue[..p] + [t] + queue[p..]
  {
    hide InsertSorted, Quantum;
    if queue != [] && Quantum(tcb, t) > Quantum(tcb, queue[0]) {
      PlaceSortedIs(tcb, queue, t, p);
      InsertSortedAt(tcb, queue, t);
    }
  }

  class Queue {
    var head: Node?
    ghost var nodes: seq<Node>

    ghost predicate Valid()
      reads this, nodes
    {
      Chain(head, nodes)
    }

    constructor ()
      ensures Valid() && nodes == []
    {
      head, nodes := null, [];
    }

    /** The walk past every node that is no larger. */
    method Walk(node: Node) returns (prev: Node?, ptr: Node?, ghost p: nat)
      requires Valid()
      ensures p <= |nodes| && ptr == At(nodes, p) && prev == if p == 0 then null else nodes[p - 1]
      ensures Walked(node, nodes, p)
    {
      ptr, prev, p := head, null, 0;
      while ptr != null && node.quantum >= ptr.quantum
        invariant p <= |nodes| && ptr == At(nodes, p) && prev == if p == 0 then null else nodes[p - 1]
        invariant forall i | 0 <= i < p :: node.quantum >= nodes[i].quantum
        decreases |nodes| - p
      {
        prev, ptr, p := ptr, ptr.next, p + 1;
      }
    }

    /** Links the node in between its neighbours. */
    method Link(prev: Node, node: Node, ptr: Node?, ghost p: nat)
      requires Valid() && node !in nodes
      requires 1 <= p <= |nodes| && prev == nodes[p - 1] && ptr == At(nodes, p)
      modifies this`nodes, prev`next, node`next
      ensures Valid() && nodes == old(nodes)[..p] + [node] + old(nodes)[p..]
    {
      hide Chain;
      ChainLinks(head, nodes);
      prev.next := node;
      node.next := ptr;
      ghost var before := nodes;
      nodes := before[..p] + [node] + before[p..];
      SplicedChain(before, node, p, nodes);
    }

    /** `llNodeInsertSortedByQuantum`. */
    method InsertSortedByQuantum(node: Node, ghost tcb: map<ThreadId, Tcb>)
      requires Valid() && node !in nodes
      requires Carries(nodes, tcb) && Carries([node], tcb)
      modifies this, nodes`next, node`next
      ensures Valid() && multiset(nodes) == multiset(old(nodes)) + multiset{node}
      ensures Carries(nodes, tcb) && Ids(nodes) == Insert(tcb, Ids(old(nodes)), node.id)
    {
      hide Insert, Ids, Carries, Walked, Chain;
      ChainLinks(head, nodes);
      ghost var before := nodes;
      if head == null {
        InsertIs(nodes, node, 0, tcb);
        head := node;
        node.next := null;
        nodes := [node];
        assert before[..0] + [node] + before[0..] == nodes;
        ChainOfOne(node);
      } else if node.quantum <= head.quantum {
        InsertIs(nodes, node, 1, tcb);
        Link(head, node, head.next, 1);
      } else {
        var prev, ptr, p := Walk(node);
        WalkedPastHead(node, nodes, p);
        InsertIs(nodes, node, p, tcb);
        Link(prev, node, ptr, p);
      }
    }

    /** `llNodePopHead`. */
    method PopHead() returns (popped: Node?)
      requires Valid()
      modifies this
      ensures Valid()
      ensures if old(nodes) == [] then popped == null && nodes == []
              else popped == old(nodes)[0] && nodes == old(nodes)[1..]
    {
      if head == null {
        return null;
      }
      popped := head;
      head := head.next;
      nodes := nodes[1..];
    }

    /** `llNodeInsert`, which its callers call on a list that is not empty. */
    method Append(node: Node)
      requires Valid() && head != null && node !in nodes
      modifies this, nodes, node`next
      ensures Valid() && nodes == old(nodes) + [node] && head == old(head)
    {
      var ptr := head;
      ghost var i := 0;
      while ptr.next != null
        invariant i < |nodes| && ptr == nodes[i]
        decreases |nodes| - i
      {
        ptr, i := ptr.next, i + 1;
      }
      ptr.next := node;
      node.next := null;
      nodes := nodes + [node];
    }

    /** `llNodeDelete` and `llNodeDeleteCopy`. */
    method Delete(node: Node, ghost k: nat)
      requires Valid() && k < |nodes| && nodes[k] == node
      modifies this, nodes
      ensures Valid() && nodes == old(nodes)[..k] + old(nodes)[k + 1..]
    {
      hide Chain;
      ChainLinks(head, nodes);
      if node == head {
        head := head.next;
      } else {
        var ptr := head;
        ghost var i := 0;
        while ptr.next != node
          invariant i < k && ptr == nodes[i]
          decreases k - i
        {
          ptr, i := ptr.next, i + 1;
        }
        ptr.next := node.next;
      }
      Unlinked(nodes, k);
      nodes := nodes[..k] + nodes[k + 1..];
    }

    /** One turn of the dispatch loop: the head, its quantum raised, goes back
        into the queue where the state machine puts it. */
    method RotateHead(ghost s: State)
      requires Valid() && nodes != [] && Ids(nodes) == s.queue && Carries(nodes, s.tcb) && QueueOk(s)
      modifies this, nodes
      ensures Valid() && multiset(nodes) == multiset(old(nodes))
      ensures s.queue != [] && s.queue[0] in s.tcb
      ensures Ids(nodes) == Rotate(s).queue && Carries(nodes, Rotate(s).tcb)
    {
      hide Insert, Chain, Ids, Carries;
      HeadIsApart(head, nodes, s);
      assert nodes == [nodes[0]] + nodes[1..];
      var pop := PopHead();
      pop.quantum := pop.quantum + QUANTUM_INCREMENT;
      RaisedCarries(nodes, pop, s);
      InsertSortedByQuantum(pop, Bump(s, pop.id).tcb);
    }

    /** `mqFindOnID`, and the deletion of what it finds. */
    method DeleteEntryOf(t: ThreadId, ghost es: seq<Entry>)
      requires Valid() && |es| == |nodes| && forall i | 0 <= i < |es| :: es[i].thread == nodes[i].id
      modifies this, nodes
      ensures Valid() && |nodes| == |DeleteAt(es, FirstOf(es, t))|
      ensures forall i | 0 <= i < |nodes| :: nodes[i].id == DeleteAt(es, FirstOf(es, t))[i].thread
    {
      var ptr := head;
      ghost var k := 0;
      while ptr != null && ptr.id != t
        invariant k <= |nodes| && ptr == At(nodes, k)
        invariant forall i | 0 <= i < k :: es[i].thread != t
        decreases |nodes| - k
      {
        ptr, k := ptr.next, k + 1;
      }
      if ptr != null {
        Delete(ptr, k);
      }
    }
  }
}

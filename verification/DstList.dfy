// Destination lists: one set of nodes kept both as an array of pointers and as a linked
// list whose head is the first cell of that array (ipfilter/ip_dstlist.c).

module DstList {
  import opened SeqFacts

  // ipfd_pnext: the first cell of an ipld_dests array, or the ipfd_next field of a node.
  datatype Slot = NoSlot | Cell(a: array<Node?>) | NextOf(n: Node)

  datatype Status = Ok | Einval | Enomem | Efault

  const AF_INET := 2
  const AF_INET6 := 24

  class Node {
    var next: Node?
    var pnext: Slot
    var deleted: bool
    var ref: int
    var states: nat
    const family: nat
    // Whether a table lists the node, and how many other references to it are out.
    ghost var attached: bool
    ghost var holds: nat

    constructor (family: nat)
      ensures this.family == family && next == null && pnext == NoSlot && !deleted
      ensures ref == 0 && states == 0 && !attached && holds == 0
    {
      this.family := family;
      next, pnext, deleted, ref, states := null, NoSlot, false, 0, 0;
      attached, holds := false, 0;
    }

    ghost predicate RefOk()
      reads this`ref, this`holds, this`attached, this`deleted
    {
      ref == holds + (if attached then 1 else 0) && ref > 0 && deleted == !attached
    }
  }

  // The counters shared by all tables: ipls_numnodes and ipls_numderefnodes.
  class Stats {
    var numnodes: int
    var numderefnodes: int
    ghost var alive: set<Node>

    constructor ()
      ensures Valid() && alive == {}
    {
      numnodes, numderefnodes, alive := 0, 0, {};
    }

    ghost predicate Counted()
      reads this, alive`deleted
    {
      numnodes == |alive| && numderefnodes == |Deleted(alive)|
    }

    // Every allocated node has a reference, and is flagged once no table lists it.
    ghost predicate Valid()
      reads this, alive`ref, alive`holds, alive`attached, alive`deleted
    {
      Counted() && forall n | n in alive :: n.RefOk()
    }
  }

  ghost function Deleted(nodes: set<Node>): set<Node>
    reads nodes`deleted
  {
    set n | n in nodes && n.deleted
  }

  class Table {
    var dests: array?<Node?>
    var nodes: nat
    var maxnodes: nat
    var selected: Node?
    ghost var list: seq<Node>

    ghost function SlotAt(k: nat): Slot
      requires k <= |list| && dests != null
      reads this`dests, this`list
    {
      if k == 0 then Cell(dests) else NextOf(list[k - 1])
    }

    ghost function NodeAt(k: nat): Node?
      requires k <= |list|
      reads this`list
    {
      if k == |list| then null else list[k]
    }

    // The array and the linked list agree, and every link and back link is right.
    ghost predicate Linked()
      reads this`dests, this`nodes, this`maxnodes, this`list, dests, list`next, list`pnext
    {
      && nodes == |list| <= maxnodes
      && (dests == null ==> maxnodes == 0)
      && (dests != null ==>
            && dests.Length == maxnodes > 0
            && (forall i | 0 <= i < nodes :: dests[i] == list[i])
            && (nodes == 0 ==> dests[0] == null)
            && (forall i {:trigger list[i].next} | 0 <= i < |list| :: list[i].next == NodeAt(i + 1))
            && (forall i {:trigger list[i].pnext} | 0 <= i < |list| :: list[i].pnext == SlotAt(i)))
      && Distinct(list)
    }

    constructor ()
      ensures Linked() && list == [] && dests == null && selected == null
    {
      dests, nodes, maxnodes, selected, list := null, 0, 0, null, [];
    }

    // Make room for one more pointer; the first node's back pointer follows the array.
    method Grow()
      requires Linked()
      modifies this`dests, this`maxnodes, list`pnext
      ensures Linked() && nodes < maxnodes && dests != null
      ensures dests == old(dests) || fresh(dests)
      ensures maxnodes == old(maxnodes) + if nodes == old(maxnodes) then 1 else 0
    {
      if nodes == maxnodes {
        var d := new Node?[maxnodes + 1](_ => null);
        if dests != null {
          for i := 0 to maxnodes
            modifies d
            invariant forall j | 0 <= j < i :: d[j] == dests[j]
          {
            d[i] := dests[i];
          }
          DistinctAt(list, 0);
          d[0].pnext := Cell(d);
        }
        dests := d;
        maxnodes := maxnodes + 1;
      }
    }

    // Put a new node at the end of both.
    method Attach(node: Node)
      requires Linked() && nodes < maxnodes && node !in list && node.next == null
      modifies this`nodes, this`list, dests, list`next, node`pnext
      ensures Linked() && list == old(list) + [node]
    {
      DistinctLast(list, node);
      if list != [] { DistinctAt(list, |list| - 1); }
      dests[nodes] := node;
      nodes := nodes + 1;
      if nodes == 1 {
        node.pnext := Cell(dests);
        dests[0] := node;
      } else {
        node.pnext := NextOf(dests[nodes - 2]);
        dests[nodes - 2].next := node;
      }
      list := list + [node];
    }

    // Close the gap in the array at node k; its last cells keep what they had.
    method Compact(node: Node, ghost k: nat)
      requires Linked() && k < |list| && list[k] == node
      modifies this`nodes, dests
      ensures nodes == old(nodes) - 1 && dests != null
      ensures forall i | 0 <= i < nodes :: dests[i] == Without(list, k)[i]
      ensures nodes == 0 ==> dests[0] == node
    {
      DistinctAt(list, k);
      var i := 0;
      while i < nodes && dests[i] != node
        invariant 0 <= i <= k
      {
        i := i + 1;
      }
      if nodes - i > 1 {
        var j := i;
        while j < nodes - 1
          modifies dests
          invariant i <= j <= nodes - 1
          invariant forall n | 0 <= n < j :: dests[n] == Without(list, k)[n]
          invariant forall n | j <= n < nodes :: dests[n] == list[n]
        {
          dests[j] := dests[j + 1];
          j := j + 1;
        }
      }
      nodes := nodes - 1;
    }

    // Take a node out of the array and out of the linked list.
    method Detach(node: Node, ghost k: nat)
      requires Linked() && k < |list| && list[k] == node
      modifies this`nodes, this`list, dests, list`next, list`pnext
      ensures Linked() && list == Without(old(list), k)
      ensures node.next == null && node.pnext == NoSlot && node !in list
    {
      ghost var ns := list;
      DistinctWithout(ns, k);
      DistinctAt(ns, k);
      if k > 0 { DistinctAt(ns, k - 1); }
      if k + 1 < |ns| { DistinctAt(ns, k + 1); }
      assert node.pnext == SlotAt(k) && node.next == NodeAt(k + 1);
      Compact(node, k);
      match node.pnext {
        case Cell(a) => a[0] := node.next;
        case NextOf(n) => n.next := node.next;
        case NoSlot =>
      }
      if node.next != null {
        node.next.pnext := node.pnext;
      }
      node.pnext := NoSlot;
      node.next := null;
      list := Without(ns, k);
      DetachedLinked(this, ns, k);
    }
  }

  // What is left once the links around node k of ns have been joined.
  lemma DetachedLinked(t: Table, ns: seq<Node>, k: nat)
    requires k < |ns| && t.list == Without(ns, k) && Distinct(ns)
    requires t.dests != null && t.nodes == |ns| - 1 < t.maxnodes == t.dests.Length
    requires forall i | 0 <= i < t.nodes :: t.dests[i] == t.list[i]
    requires t.nodes == 0 ==> t.dests[0] == null
    requires forall j {:trigger ns[j].next} | 0 <= j < |ns| && j != k - 1 && j != k ::
               ns[j].next == if j + 1 == |ns| then null else ns[j + 1]
    requires forall j {:trigger ns[j].pnext} | 0 <= j < |ns| && j != k && j != k + 1 ::
               ns[j].pnext == if j == 0 then Cell(t.dests) else NextOf(ns[j - 1])
    requires k > 0 ==> ns[k - 1].next == if k + 1 == |ns| then null else ns[k + 1]
    requires k + 1 < |ns| ==> ns[k + 1].pnext == if k == 0 then Cell(t.dests) else NextOf(ns[k - 1])
    ensures t.Linked()
  {
    DistinctWithout(ns, k);
  }

  ghost predicate Listed(t: Table, stats: Stats)
    reads t`list, stats`alive, t.list`attached
  {
    forall i {:trigger t.list[i]} | 0 <= i < |t.list| :: t.list[i] in stats.alive && t.list[i].attached
  }

  // ipf_dstlist_node_add.  gotNode, copied and gotArray say whether the allocation of the node,
  // the copy of its name and the allocation of a larger array succeed.
  method NodeAdd(stats: Stats, t: Table, family: nat, nameLen: int, gotNode: bool, copied: bool, gotArray: bool)
    returns (status: Status, node: Node?)
    requires stats.Valid() && t.Linked() && Listed(t, stats)
    modifies stats, t`dests, t`maxnodes, t`nodes, t`list, t.dests, t.list`next, t.list`pnext
    ensures stats.Valid() && t.Linked() && Listed(t, stats)
    ensures status == Ok <==>
              && (family == AF_INET || family == AF_INET6) && -1 <= nameLen <= 128
              && gotNode && (nameLen > 0 ==> copied) && (gotArray || old(t.nodes) < old(t.maxnodes))
    ensures status == Einval <==> (family != AF_INET && family != AF_INET6) || nameLen < -1 || nameLen > 128
    ensures status == Efault ==> gotNode && nameLen > 0 && !copied
    ensures status != Ok ==> t.list == old(t.list) && stats.alive == old(stats.alive)
    ensures status == Ok ==>
              && node != null && fresh(node) && node.family == family && node.ref == 1
              && t.list == old(t.list) + [node]
              && stats.alive == old(stats.alive) + {node} && stats.numnodes == old(stats.numnodes) + 1
  {
    status := Admit(family, nameLen, gotNode, copied, gotArray || t.nodes < t.maxnodes);
    node := null;
    if status == Ok {
      var n := new Node(family);
      Place(stats, t, n);
      node := n;
    }
  }

  method Place(stats: Stats, t: Table, node: Node)
    requires stats.Valid() && t.Linked() && Listed(t, stats) && node !in stats.alive
    requires node.next == null && !node.deleted && node.holds == 0
    modifies stats, node`ref, node`attached, node`pnext
    modifies t`dests, t`maxnodes, t`nodes, t`list, t.dests, t.list`next, t.list`pnext
    ensures stats.Valid() && t.Linked() && Listed(t, stats)
    ensures t.list == old(t.list) + [node] && node.ref == 1
    ensures stats.alive == old(stats.alive) + {node} && stats.numnodes == old(stats.numnodes) + 1
  {
    assert node !in t.list;
    Insert(t, node);
    Register(stats, node);
  }

  // The checks before anything is changed.
  method Admit(family: nat, nameLen: int, gotNode: bool, copied: bool, room: bool) returns (status: Status)
    ensures status == Einval <==> (family != AF_INET && family != AF_INET6) || nameLen < -1 || nameLen > 128
    ensures status == Efault <==> status != Einval && gotNode && nameLen > 0 && !copied
    ensures status == Enomem <==> status != Einval && status != Efault && !(gotNode && room)
  {
    if family != AF_INET && family != AF_INET6 {
      return Einval;
    }
    if nameLen < -1 || nameLen > 128 {
      return Einval;
    }
    if !gotNode {
      return Enomem;
    }
    if nameLen > 0 && !copied {
      return Efault;
    }
    if !room {
      return Enomem;
    }
    return Ok;
  }

  method Insert(t: Table, node: Node)
    requires t.Linked() && node !in t.list && node.next == null
    modifies t`dests, t`maxnodes, t`nodes, t`list, t.dests, t.list`next, t.list`pnext, node`pnext
    ensures t.Linked() && t.list == old(t.list) + [node]
  {
    t.Grow();
    t.Attach(node);
  }

  method Register(stats: Stats, node: Node)
    requires stats.Valid() && node !in stats.alive && !node.deleted && node.holds == 0
    modifies stats, node`ref, node`attached
    ensures stats.Valid() && stats.alive == old(stats.alive) + {node} && stats.numnodes == old(stats.numnodes) + 1
    ensures node.ref == 1 && node.attached
  {
    node.ref := 1;
    node.attached := true;
    stats.alive := stats.alive + {node};
    assert Deleted(stats.alive) == Deleted(old(stats.alive));
    stats.numnodes := stats.numnodes + 1;
  }

  // ipf_dstlist_node_deref, the caller having given up its reference.
  method NodeDeref(stats: Stats, node: Node) returns (ref: int)
    requires stats.Counted() && node in stats.alive
    requires node.ref == 1 + node.holds + (if node.attached then 1 else 0) && node.deleted == !node.attached
    requires forall n | n in stats.alive && n != node :: n.RefOk()
    modifies stats, node`ref
    ensures stats.Valid() && ref == node.ref == old(node.ref) - 1
    ensures stats.alive == if ref > 0 then old(stats.alive) else old(stats.alive) - {node}
  {
    node.ref := node.ref - 1;
    ref := node.ref;
    if ref > 0 {
      return;
    }
    assert Deleted(stats.alive - {node}) == Deleted(stats.alive) - {node};
    if node.deleted {
      stats.numderefnodes := stats.numderefnodes - 1;
    }
    stats.alive := stats.alive - {node};
    stats.numnodes := stats.numnodes - 1;
  }

  // A reference held outside any table is dropped.
  method Release(stats: Stats, node: Node) returns (ref: int)
    requires stats.Valid() && node in stats.alive && node.holds > 0
    modifies stats, node`ref, node`holds
    ensures stats.Valid() && node.holds == old(node.holds) - 1
    ensures stats.alive == if ref > 0 then old(stats.alive) else old(stats.alive) - {node}
    ensures ref == 0 <==> !node.attached && node.holds == 0
  {
    node.holds := node.holds - 1;
    ref := NodeDeref(stats, node);
  }

  // ipf_dstlist_node_free: out of the table; allocated on only while others refer to it.
  method NodeFree(stats: Stats, t: Table, node: Node, ghost k: nat)
    requires stats.Valid() && t.Linked() && Listed(t, stats) && k < |t.list| && t.list[k] == node
    modifies stats, t`nodes, t`list, t.dests, t.list`next, t.list`pnext, node`deleted, node`attached, node`ref
    ensures stats.Valid() && t.Linked() && Listed(t, stats)
    ensures t.list == Without(old(t.list), k)
    ensures stats.alive == if node.holds > 0 then old(stats.alive) else old(stats.alive) - {node}
    ensures node.deleted && !node.attached
  {
    t.Detach(node, k);
    Retire(stats, node);
  }

  method Retire(stats: Stats, node: Node)
    requires stats.Valid() && node in stats.alive && node.attached
    modifies stats, node`deleted, node`attached, node`ref
    ensures stats.Valid() && node.deleted && !node.attached
    ensures stats.alive == if node.holds > 0 then old(stats.alive) else old(stats.alive) - {node}
  {
    ghost var was := Deleted(stats.alive);
    if !node.deleted {
      stats.numderefnodes := stats.numderefnodes + 1;
      node.deleted := true;
    }
    node.attached := false;
    assert Deleted(stats.alive) == was + {node};
    var ref := NodeDeref(stats, node);
  }

  // ipf_dstlist_table_clearnodes
  method ClearNodes(stats: Stats, t: Table)
    requires stats.Valid() && t.Linked() && Listed(t, stats)
    modifies stats, t`nodes, t`list, t.dests
    modifies t.list`next, t.list`pnext, t.list`deleted, t.list`attached, t.list`ref
    ensures stats.Valid() && t.Linked() && t.list == []
    ensures forall n | n in old(stats.alive) - stats.alive :: n in old(t.list) && n.holds == 0
    ensures forall n | n in old(t.list) && n.holds == 0 :: n !in stats.alive
  {
    if t.dests == null {
      return;
    }
    ghost var ns, i := t.list, 0;
    while t.dests[0] != null
      invariant i <= |ns| && t.list == ns[i..] && t.dests == old(t.dests)
      invariant stats.Valid() && t.Linked() && Listed(t, stats)
      invariant Cleared(old(stats.alive), stats.alive, ns, i)
      decreases |ns| - i
    {
      ClearOne(stats, t, ns, i, old(stats.alive));
      i := i + 1;
    }
  }

  // Of the nodes ns[..i] those nobody holds have been freed, and no other node has.
  ghost predicate Cleared(before: set<Node>, after: set<Node>, ns: seq<Node>, i: nat)
    requires i <= |ns|
    reads ns`holds
  {
    && (forall n | n in before && n !in after :: n in ns && n.holds == 0)
    && (forall k | 0 <= k < i && ns[k].holds == 0 :: ns[k] !in after)
  }

  method ClearOne(stats: Stats, t: Table, ghost ns: seq<Node>, ghost i: nat, ghost before: set<Node>)
    requires stats.Valid() && t.Linked() && Listed(t, stats) && i < |ns| && t.list == ns[i..] && t.dests != null
    requires Cleared(before, stats.alive, ns, i)
    modifies stats, t`nodes, t`list, t.dests, ns`next, ns`pnext, ns`deleted, ns`attached, ns`ref
    ensures stats.Valid() && t.Linked() && Listed(t, stats) && t.list == ns[i + 1..]
    ensures Cleared(before, stats.alive, ns, i + 1)
  {
    assert forall k | 0 <= k < |ns[i..]| :: ns[i..][k] in ns;
    NodeFree(stats, t, t.dests[0], 0);
  }
}

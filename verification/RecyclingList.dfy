/**
  The linked list behind the lockf and clone stressors: a queue of live records, removed from
  the head and appended at the tail, and a list of removed records kept for reuse.
 */
module RecyclingList {
  import opened Basics
  import opened Chains

  class List {
    var head: Node?<int>
    var tail: Node?<int>
    var free: Node?<int>
    var length: nat
    ghost var live: seq<Node<int>>
    ghost var spare: seq<Node<int>>
    ghost var peak: nat      // the largest `length` so far
    ghost var refusals: nat  // how many allocations have failed

    /**
      Live and spare chains are acyclic, disjoint and NULL-terminated, `tail` is the last live
      node, `length` the live count, and exactly `peak` nodes have ever been allocated.
     */
    ghost predicate Valid()
      reads this, live, spare
    {
      && Distinct(live) && Distinct(spare) && Disjoint(live, spare)
      && Chain(head, live) && Chain(free, spare)
      && tail == (if live == [] then null else live[|live| - 1])
      && length == |live|
      && peak == |live| + |spare|
    }

    ghost function Nodes(): set<Node<int>>
      reads this
    {
      (set n | n in live) + (set n | n in spare)
    }

    ghost function Contents(): seq<int>
      reads this`live, live`data
    {
      DataOf(live)
    }

    constructor ()
      ensures Valid() && live == [] && spare == [] && peak == 0
    {
      head, tail, free, length := null, null, null, 0;
      live, spare, peak, refusals := [], [], 0, 0;
    }

    /** Valid except that `extra` nodes taken for the live list are not linked in yet. */
    ghost predicate Loose(extra: seq<Node<int>>)
      reads this, live, spare, extra
    {
      && Distinct(live) && Distinct(spare) && Disjoint(live, spare) && Disjoint(live, extra) && Disjoint(extra, spare)
      && Chain(head, live) && Chain(free, spare)
      && tail == (if live == [] then null else live[|live| - 1])
      && length == |live|
      && forall i | 0 <= i < |extra| :: extra[i].next == null
    }

    /** The first half of `Append`: a node from the free list, else a new one. */
    method Obtain() returns (node: Node?<int>)
      requires Valid()
      modifies this`free, this`spare, this`refusals, spare`next
      ensures node == null ==> Valid() && old(spare) == [] && spare == []
      ensures refusals == if node == null then old(refusals) + 1 else old(refusals)
      ensures node != null ==> Loose([node])
      ensures node != null && old(spare) == [] ==> fresh(node) && spare == []
      ensures node != null && old(spare) != [] ==> [node] + spare == old(spare)
    {
      hide Distinct, Chain, Linked;
      ghost var s0, nx := spare, Nexts(spare);
      ChainHead(free, s0);
      if free != null {
        LinkedRest(free, s0, nx);
        TakeOut(live, s0);
        node := free;
        free := node.next;
        node.next := null;
        spare := s0[1..];
        ChainFrom(free, spare, nx[1..]);
      } else {
        var granted: bool := *;
        if !granted {
          refusals := refusals + 1;
          return null;
        }
        node := new Node<int>(0);
      }
    }

    /** `stress_lockf_info_new`, `stress_clone_new` */
    method Append() returns (node: Node?<int>)
      requires Valid()
      modifies this, live`next, spare`next
      ensures Valid() && peak == Max(old(peak), length)
      ensures refusals == if node == null then old(refusals) + 1 else old(refusals)
      ensures node == null ==> old(spare) == [] && live == old(live) && spare == old(spare)
      ensures node == null ==> Contents() == old(Contents())
      ensures node != null ==> live == old(live) + [node] && Contents() == old(Contents()) + [node.data]
      ensures node != null && old(spare) == [] ==> fresh(node) && spare == []
      ensures node != null && old(spare) != [] ==> [node] + spare == old(spare)
    {
      hide Chain, Distinct, Disjoint, DataOf;
      node := Obtain();
      if node != null { Link(node); }
    }

    lemma LooseNext(node: Node<int>)
      requires Loose([node])
      ensures node.next == null
    {
      assert [node][0] == node;
    }

    /** The second half of `Append`: a loose node becomes the last live one. */
    method Link(node: Node<int>)
      requires Loose([node])
      modifies this`head, this`tail, this`length, this`live, this`peak, live`next
      ensures Loose([]) && live == old(live) + [node] && peak == Max(old(peak), length)
    {
      hide Distinct, Disjoint, Chain, Linked, Nexts, After;
      ghost var l0 := live;
      AppendDistinct(l0, node, spare);
      LooseNext(node);
      ChainHead(head, l0);
      ghost var nx := Nexts(l0);
      if head != null {
        LinkedSnoc(head, l0, nx, node);
        tail.next := node;
        ChainFrom(head, l0 + [node], nx[..|l0| - 1] + [node, null]);
      } else {
        head := node;
        LinkedOne(node);
        ChainFrom(node, [node], [null]);
        assert l0 + [node] == [node];
      }
      tail := node;
      length := length + 1;
      live := l0 + [node];
      peak := Max(peak, length);
    }

    /** `stress_lockf_info_head_remove`, `stress_clone_head_remove` */
    method RemoveHead()
      requires Valid()
      modifies this, live`next
      ensures Valid() && peak == old(peak) && refusals == old(refusals)
      ensures old(live) == [] ==> live == [] && spare == old(spare)
      ensures old(live) != [] ==> live == old(live)[1..] && spare == [old(live)[0]] + old(spare)
      ensures Contents() == if old(live) == [] then [] else old(Contents())[1..]
      ensures Nodes() == old(Nodes())
    {
      hide Distinct, Disjoint, Chain, DataOf, Linked, Nexts, After;
      ChainHead(head, live);
      ChainHead(free, spare);
      if head != null {
        ghost var l0, s0 := live, spare;
        var first := head;
        ghost var nx, sx := Nexts(l0), Nexts(s0);
        LinkedRest(first, l0, nx);
        LinkedCons(free, s0, sx, first);
        MoveToFront(l0, s0);
        if tail == head {
          tail := null;
          head := null;
        } else {
          head := first.next;
        }
        first.next := free;
        ChainFrom(nx[0], l0[1..], nx[1..]);
        ChainFrom(first, [first] + s0, [free] + sx);
        free := first;
        length := length - 1;
        live, spare := l0[1..], [first] + s0;
        SameNodes(l0, s0);
      }
    }

    /**
      `stress_lockf_info_free`, `stress_clone_free`: every node is released exactly once and no
      node is touched after its release. `tail` and `length` keep their last values.
     */
    method FreeAll() returns (ghost trace: seq<Access<int>>)
      requires Valid()
      modifies this`head, this`free, this`live, this`spare
      ensures head == null && free == null && live == [] && spare == []
      ensures Releases(trace) == old(live) + old(spare) && Orderly(trace) && Distinct(Releases(trace))
    {
      hide Chain, Distinct, Disjoint, At, Releases, Orderly;
      ghost var l0, s0 := live, spare;
      JoinDistinct(l0, s0);
      EmptyTrace<int>();
      trace := [];
      ghost var k := 0;
      ChainAt(head, l0, 0);
      while head != null
        invariant 0 <= k <= |l0| && Releases(trace) == l0[..k] && Orderly(trace)
        invariant head == At(l0, k) && free == old(free) && Chain(old(head), l0) && Chain(free, s0)
        decreases |l0| - k
      {
        ChainAt(old(head), l0, k);
        NotYet(l0, s0, k);
        ReadAndRelease(trace, head);
        var next := head.next;
        trace := trace + [Read(head), Release(head)];
        head := next;
        k := k + 1;
      }
      ChainAt(old(head), l0, k);
      k := 0;
      ChainAt(free, s0, 0);
      while free != null
        invariant 0 <= k <= |s0| && Releases(trace) == l0 + s0[..k] && Orderly(trace)
        invariant free == At(s0, k) && Chain(old(free), s0) && head == null
        decreases |s0| - k
      {
        ChainAt(old(free), s0, k);
        NotYet(l0, s0, |l0| + k);
        ReadAndRelease(trace, free);
        var next := free.next;
        trace := trace + [Read(free), Release(free)];
        free := next;
        k := k + 1;
      }
      ChainAt(old(free), s0, k);
      live, spare := [], [];
    }
  }

  lemma EmptyList(list: List)
    requires list.Valid() && list.head == null
    ensures list.live == [] && list.tail == null && list.length == 0
    ensures |list.spare| == list.peak && list.Contents() == []
  {}

  lemma Bounds(list: List)
    requires list.Valid()
    ensures list.length == |list.live| <= list.peak && (list.head == null <==> list.length == 0)
  {}
}

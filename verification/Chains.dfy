/** Singly linked nodes and the sequences of nodes that `next` pointers spell. */
module Chains {
  import opened Basics

  class Node<T> {
    var data: T
    var next: Node?<T>

    constructor (d: T)
      ensures data == d && next == null
    {
      data, next := d, null;
    }
  }

  ghost predicate Disjoint<T>(s: seq<Node<T>>, t: seq<Node<T>>) {
    forall i, j | 0 <= i < |s| && 0 <= j < |t| :: s[i] != t[j]
  }

  lemma AppendDistinct<T>(s: seq<Node<T>>, n: Node<T>, t: seq<Node<T>>)
    requires Distinct(s) && Disjoint(s, t) && Disjoint(s, [n]) && Disjoint([n], t)
    ensures Distinct(s + [n]) && Disjoint(s + [n], t) && Disjoint(s + [n], []) && Disjoint([], t) && n !in s
    ensures s != [] ==> s[|s| - 1] !in s[..|s| - 1] && s[|s| - 1] !in t
  {
    assert [n][0] == n;
  }

  lemma Apart<T>(s: seq<Node<T>>, n: Node<T>)
    requires n !in s
    ensures Disjoint(s, []) && Disjoint(s, [n]) && Disjoint([n], [])
  {
    assert [n][0] == n;
  }

  /** Taking the head of `t` out, to go to the end of `s`. */
  lemma TakeOut<T>(s: seq<Node<T>>, t: seq<Node<T>>)
    requires Distinct(s) && Distinct(t) && Disjoint(s, t) && t != []
    ensures Distinct(t[1..]) && Disjoint(s, t[1..]) && Disjoint(s, [t[0]]) && Disjoint([t[0]], t[1..])
    ensures t[0] !in t[1..] && t[0] !in s
  {}

  /** Moving the head of `s` to the front of `t`. */
  lemma MoveToFront<T>(s: seq<Node<T>>, t: seq<Node<T>>)
    requires Distinct(s) && Distinct(t) && Disjoint(s, t) && s != []
    ensures Distinct(s[1..]) && Distinct([s[0]] + t) && Disjoint(s[1..], [s[0]] + t)
    ensures s[0] !in s[1..] && s[0] !in t
  {}

  ghost function After<T>(s: seq<Node<T>>, i: nat): Node?<T>
    requires i < |s|
  {
    if i + 1 < |s| then s[i + 1] else null
  }

  /** The `next` fields of the nodes of `s`. */
  ghost function Nexts<T>(s: seq<Node<T>>): (nx: seq<Node?<T>>)
    reads s`next
    ensures |nx| == |s| && forall i | 0 <= i < |s| :: nx[i] == s[i].next
  {
    if s == [] then [] else [s[0].next] + Nexts(s[1..])
  }

  ghost predicate Linked<T>(first: Node?<T>, s: seq<Node<T>>, nx: seq<Node?<T>>) {
    && first == (if s == [] then null else s[0])
    && |nx| == |s| && forall i | 0 <= i < |s| :: nx[i] == After(s, i)
  }

  /** `s` is the chain of `next` pointers from `first`, ended by NULL. */
  ghost predicate Chain<T>(first: Node?<T>, s: seq<Node<T>>)
    reads s`next
  {
    Linked(first, s, Nexts(s))
  }

  /** The chain without its head. */
  lemma LinkedRest<T>(first: Node?<T>, s: seq<Node<T>>, nx: seq<Node?<T>>)
    requires s != [] && Linked(first, s, nx)
    ensures Linked(nx[0], s[1..], nx[1..])
    ensures nx[0] == null <==> |s| == 1
  {
    forall i | 0 <= i < |s| - 1 ensures nx[1..][i] == After(s[1..], i) { assert nx[i + 1] == After(s, i + 1); }
    assert nx[0] == After(s, 0);
  }

  /** The chain with a node put before it. */
  lemma LinkedCons<T>(first: Node?<T>, s: seq<Node<T>>, nx: seq<Node?<T>>, n: Node<T>)
    requires Linked(first, s, nx)
    ensures Linked(n, [n] + s, [first] + nx)
  {
    var s', nx' := [n] + s, [first] + nx;
    forall i | 0 <= i < |s'| ensures nx'[i] == After(s', i) { if i > 0 { assert nx[i - 1] == After(s, i - 1); } }
  }

  lemma LinkedOne<T>(n: Node<T>)
    ensures Linked(n, [n], [null])
  {}

  /** The chain with a node put at its end. */
  lemma LinkedSnoc<T>(first: Node?<T>, s: seq<Node<T>>, nx: seq<Node?<T>>, n: Node<T>)
    requires s != [] && Linked(first, s, nx)
    ensures Linked(first, s + [n], nx[..|s| - 1] + [n, null])
  {
    var s', nx' := s + [n], nx[..|s| - 1] + [n, null];
    forall i | 0 <= i < |s'| ensures nx'[i] == After(s', i) { if i < |s| { assert nx[i] == After(s, i); } }
  }

  lemma EmptyChain<T>()
    ensures Chain<T>(null, []) && Distinct<Node<T>>([])
  {}

  lemma ChainHead<T>(first: Node?<T>, s: seq<Node<T>>)
    requires Chain(first, s)
    ensures Linked(first, s, Nexts(s))
    ensures first == if s == [] then null else s[0]
  {}

  lemma ChainFrom<T>(first: Node?<T>, s: seq<Node<T>>, nx: seq<Node?<T>>)
    requires Linked(first, s, nx) && forall i | 0 <= i < |s| :: s[i].next == nx[i]
    ensures Chain(first, s)
  {
    assert Nexts(s) == nx;
  }

  ghost function DataOf<T>(s: seq<Node<T>>): (d: seq<T>)
    reads s`data
    ensures |d| == |s| && forall i | 0 <= i < |s| :: d[i] == s[i].data
  {
    if s == [] then [] else [s[0].data] + DataOf(s[1..])
  }

  /** Node `k` of `s`, NULL past its end. */
  ghost function At<T>(s: seq<Node<T>>, k: nat): Node?<T> {
    if k < |s| then s[k] else null
  }

  lemma ChainAt<T>(first: Node?<T>, s: seq<Node<T>>, k: nat)
    requires Chain(first, s) && k <= |s|
    ensures At(s, k) == null <==> k == |s|
    ensures k == 0 ==> At(s, k) == first
    ensures k < |s| ==> At(s, k) == s[k] && s[k].next == At(s, k + 1)
  {
    if k < |s| { assert Nexts(s)[k] == After(s, k); }
  }

  lemma NotYet<T>(s: seq<Node<T>>, t: seq<Node<T>>, k: nat)
    requires Distinct(s + t) && k < |s + t|
    ensures (s + t)[k] !in (s + t)[..k]
    ensures k < |s| ==> s[k] !in s[..k]
    ensures k >= |s| ==> t[k - |s|] !in s + t[..k - |s|]
  {
    assert k < |s| ==> (s + t)[..k] == s[..k];
    assert k >= |s| ==> (s + t)[..k] == s + t[..k - |s|];
  }

  lemma SameNodes<T>(s: seq<Node<T>>, t: seq<Node<T>>)
    requires s != []
    ensures (set n | n in s) + (set n | n in t) == (set n | n in s[1..]) + (set n | n in [s[0]] + t)
  {
    assert s == [s[0]] + s[1..];
  }

  lemma JoinDistinct<T>(s: seq<Node<T>>, t: seq<Node<T>>)
    requires Distinct(s) && Distinct(t) && Disjoint(s, t)
    ensures Distinct(s + t)
  {}

  /** What a clean-up does to the nodes of a chain. */
  datatype Access<T> = Read(node: Node<T>) | Release(node: Node<T>)

  ghost function Releases<T>(trace: seq<Access<T>>): seq<Node<T>> {
    if trace == [] then []
    else
      var last := trace[|trace| - 1];
      Releases(trace[..|trace| - 1]) + if last.Release? then [last.node] else []
  }

  /** No node is read or released after its release. */
  ghost predicate Orderly<T>(trace: seq<Access<T>>) {
    forall i, j | 0 <= i < j < |trace| && trace[i].Release? :: trace[j].node != trace[i].node
  }

  lemma EmptyTrace<T>()
    ensures Orderly<T>([]) && Releases<T>([]) == []
  {}

  lemma {:induction false} ReleasedNode<T>(trace: seq<Access<T>>, i: nat)
    requires i < |trace| && trace[i].Release?
    ensures trace[i].node in Releases(trace)
  {
    if i < |trace| - 1 { ReleasedNode(trace[..|trace| - 1], i); }
  }

  /** One turn of a clean-up loop: read the successor of `n`, then release `n`. */
  lemma ReadAndRelease<T>(trace: seq<Access<T>>, n: Node<T>)
    requires Orderly(trace) && n !in Releases(trace)
    ensures Orderly(trace + [Read(n), Release(n)])
    ensures Releases(trace + [Read(n), Release(n)]) == Releases(trace) + [n]
  {
    var r: Access<T>, f: Access<T> := Read(n), Release(n);
    assert trace + [r, f] == trace + [r] + [f];
    assert (trace + [r] + [f])[..|trace| + 1] == trace + [r];
    assert (trace + [r])[..|trace|] == trace;
    forall i | 0 <= i < |trace| && trace[i].Release? ensures trace[i].node != n { ReleasedNode(trace, i); }
  }
}

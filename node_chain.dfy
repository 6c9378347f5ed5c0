/**
 The nodes of single-linked-list/single-linked-list.h and what it means for a
 sequence of them to form a null-terminated chain holding a given sequence of
 elements, with one lemma per way the list relinks a chain.
 */
module NodeChain {

  /** The struct `Node`: one element and the pointer to the next node, `null`
      after the last one. */
  class Node {
    var value: int
    var next: Node?

    /** The default-constructed node that serves as a list's sentinel; its
        value is never read. */
    constructor Sentinel()
      ensures next == null
    {
      value := 0;
      next := null;
    }

    constructor (value: int, next: Node?)
      ensures this.value == value && this.next == next
    {
      this.value := value;
      this.next := next;
    }
  }

  /** `s` with `v` placed right after index `p`; `p == -1` places it first. */
  function InsertedAfter<T>(s: seq<T>, p: int, v: T): (r: seq<T>)
    requires -1 <= p < |s|
    ensures |r| == |s| + 1 && r[p + 1] == v
    ensures forall i :: 0 <= i <= p ==> r[i] == s[i]
    ensures forall i :: p + 1 <= i < |s| ==> r[i + 1] == s[i]
  {
    s[..p + 1] + [v] + s[p + 1..]
  }

  /** `s` without the item right after index `p`. */
  function ErasedAfter<T>(s: seq<T>, p: int): (r: seq<T>)
    requires -1 <= p && p + 1 < |s|
    ensures |r| == |s| - 1
    ensures forall i :: 0 <= i <= p ==> r[i] == s[i]
    ensures forall i :: p + 1 <= i < |r| ==> r[i] == s[i + 1]
  {
    s[..p + 1] + s[p + 2..]
  }

  /** Erasing after a position undoes inserting after that same position. */
  lemma EraseAfterUndoesInsertAfter<T>(s: seq<T>, p: int, v: T)
    requires -1 <= p < |s|
    ensures ErasedAfter(InsertedAfter(s, p, v), p) == s
  {
    var t := InsertedAfter(s, p, v);
    assert ErasedAfter(t, p) == t[..p + 1] + t[p + 2..];
  }

  /** The node that follows index `p` of the chain `ns`: `null` after the last
      one, and the first node (if any) for `p == -1`. */
  ghost function NextOf(ns: seq<Node>, p: int): Node?
    requires -1 <= p
  {
    if p + 1 < |ns| then ns[p + 1] else null
  }

  ghost predicate Distinct(ns: seq<Node>)
  {
    forall i, j :: 0 <= i < j < |ns| ==> ns[i] != ns[j]
  }

  /** The nodes hold the elements `cs`, in order. */
  ghost predicate Holds(ns: seq<Node>, cs: seq<int>)
    reads ns
  {
    |ns| == |cs| && forall i :: 0 <= i < |ns| ==> ns[i].value == cs[i]
  }

  /** Every node except the one at index `p` points to its successor in `ns`. */
  ghost predicate LinkedExcept(ns: seq<Node>, p: int)
    reads ns
  {
    forall i {:trigger NextOf(ns, i)} :: 0 <= i < |ns| && i != p ==> ns[i].next == NextOf(ns, i)
  }

  /** `ns` is a null-terminated chain of distinct nodes holding `cs`. */
  ghost predicate Chain(ns: seq<Node>, cs: seq<int>)
    reads ns
  {
    Distinct(ns) && Holds(ns, cs) && LinkedExcept(ns, -1)
  }

  /** Unlinking the first node leaves a chain of the rest. */
  lemma ChainTail(ns: seq<Node>, cs: seq<int>)
    requires Chain(ns, cs) && ns != []
    ensures ns[0].next == NextOf(ns[1..], -1)
    ensures Chain(ns[1..], cs[1..])
  {
    assert ns[0].next == NextOf(ns, 0);
    forall i | 0 <= i < |ns| - 1
      ensures ns[1..][i].next == NextOf(ns[1..], i)
    {
      assert ns[i + 1].next == NextOf(ns, i + 1);
    }
  }

  /** A new first node pointing at the old first node extends the chain. */
  lemma ChainPrepend(ns: seq<Node>, cs: seq<int>, n: Node)
    requires Chain(ns, cs) && n !in ns && n.next == NextOf(ns, -1)
    ensures Chain([n] + ns, [n.value] + cs)
  {
    var ms := [n] + ns;
    forall i | 1 <= i < |ms|
      ensures ms[i].next == NextOf(ms, i)
    {
      assert ns[i - 1].next == NextOf(ns, i - 1);
    }
  }

  /** Linking a new node `n` after index `p` (after the sentinel for
      `p == -1`): once the node at `p` points at `n` and `n` at the old
      successor, the chain with `n` inserted results. */
  lemma ChainInsert(ns: seq<Node>, cs: seq<int>, p: int, n: Node)
    requires -1 <= p < |ns| && n !in ns
    requires Distinct(ns) && Holds(ns, cs) && LinkedExcept(ns, p)
    requires p >= 0 ==> ns[p].next == n
    requires n.next == NextOf(ns, p)
    ensures Chain(InsertedAfter(ns, p, n), InsertedAfter(cs, p, n.value))
  {
    var ms := InsertedAfter(ns, p, n);
    forall i | 0 <= i < |ms|
      ensures ms[i].next == NextOf(ms, i)
    {
      if i < p {
        assert ns[i].next == NextOf(ns, i);
      } else if p + 1 < i {
        assert ns[i - 1].next == NextOf(ns, i - 1);
      }
    }
  }

  /** Unlinking the node after index `p` (the first node for `p == -1`):
      once the node at `p` points past it, the chain without it results. */
  lemma ChainErase(ns: seq<Node>, cs: seq<int>, p: int)
    requires -1 <= p && p + 1 < |ns|
    requires Distinct(ns) && Holds(ns, cs) && LinkedExcept(ns, p)
    requires p >= 0 ==> ns[p].next == NextOf(ns, p + 1)
    ensures Chain(ErasedAfter(ns, p), ErasedAfter(cs, p))
  {
    var ms := ErasedAfter(ns, p);
    forall i | 0 <= i < |ms|
      ensures ms[i].next == NextOf(ms, i)
    {
      if i < p {
        assert ns[i].next == NextOf(ns, i);
      } else if p < i {
        assert ns[i + 1].next == NextOf(ns, i + 1);
      }
    }
  }
}

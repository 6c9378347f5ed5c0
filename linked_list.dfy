/**
 The container `SingleLinkedList` of single-linked-list/single-linked-list.h,
 with `int` elements. A list owns a sentinel node that holds no element and a
 chain of nodes reached from it through `next` pointers, and counts its
 elements in `size`. Iterators are node references: the sentinel is
 `before_begin()`, `null` is `end()`, and two iterators are equal when they
 refer to the same node.
 */
module LinkedList {
  import opened NodeChain
  import opened Compare

  class SingleLinkedList {
    /** The sentinel `head_`: part of the list object itself, never replaced,
        never holding an element; its successor is the first element. */
    const head: Node
    /** The element count `size_`. */
    var size: nat

    /** The elements in order and the nodes that hold them, the sentinel not
        included. */
    ghost var contents: seq<int>
    ghost var nodes: seq<Node>

    /** The sentinel points at a null-terminated chain of the nodes holding
        the elements. The count may exceed the chain length (see PopFront)
        but never falls short of it. */
    ghost predicate Valid()
      reads this, head, nodes
      ensures Valid() ==> |nodes| == |contents| <= size
    {
      head !in nodes &&
      head.next == NextOf(nodes, -1) &&
      Chain(nodes, contents) &&
      |contents| <= size
    }

    /** The count equals the number of nodes in the chain. */
    ghost predicate SizeMatches()
      reads this
    {
      size == |contents|
    }

    /** The iterator at position `p`: `before_begin()` at -1, the node holding
        element `p`, or `end()` at `|nodes|`. */
    ghost function NodeAt(p: int): Node?
      reads this
      requires -1 <= p <= |nodes|
    {
      if p == -1 then head else NextOf(nodes, p - 1)
    }

    /** `it` is an iterator of this list: `before_begin()`, a node of the
        chain, or `end()`. */
    ghost predicate IsIterator(it: Node?)
      reads this
    {
      it == head || it in nodes || it == null
    }

    /** The position an iterator of this list denotes. */
    ghost function IndexOf(it: Node?): (p: int)
      reads this
      requires IsIterator(it)
      ensures -1 <= p <= |nodes| && NodeAt(p) == it
    {
      if it == head then -1
      else if it == null then |nodes|
      else var i :| 0 <= i < |nodes| && nodes[i] == it; i
    }

    /** Following `next` from position `p` leads to position `p + 1`. */
    lemma Successor(p: int)
      requires Valid() && -1 <= p < |nodes|
      ensures NodeAt(p) != null && NodeAt(p).next == NodeAt(p + 1)
    {
      if p >= 0 {
        assert nodes[p].next == NextOf(nodes, p);
      }
    }

    /** Iterators compare by node identity, and in a valid list that is the
        same as comparing positions. */
    lemma IteratorIdentity(p: int, q: int)
      requires Valid()
      requires -1 <= p <= |nodes| && -1 <= q <= |nodes|
      ensures NodeAt(p) == NodeAt(q) <==> p == q
      ensures IndexOf(NodeAt(p)) == p
    {
    }

    /** The default constructor: an empty list. */
    constructor ()
      ensures Valid() && fresh(head)
      ensures contents == [] && nodes == [] && size == 0
    {
      head := new Node.Sentinel();
      size := 0;
      contents := [];
      nodes := [];
    }

    /** The initializer-list constructor: the list of `values` in order. */
    constructor FromValues(values: seq<int>)
      ensures Valid() && fresh(head) && (forall i :: 0 <= i < |nodes| ==> fresh(nodes[i]))
      ensures contents == values && size == |values|
    {
      head := new Node.Sentinel();
      size := 0;
      contents := [];
      nodes := [];
      new;
      FillIn(values);
    }

    /** The copy constructor: an independent chain holding `other`'s elements
        in order, counted afresh. */
    constructor Copy(other: SingleLinkedList)
      requires other.Valid()
      ensures Valid() && fresh(head) && (forall i :: 0 <= i < |nodes| ==> fresh(nodes[i]))
      ensures contents == other.contents && size == |other.contents|
    {
      var values := other.Elements();
      head := new Node.Sentinel();
      size := 0;
      contents := [];
      nodes := [];
      new;
      FillIn(values);
    }

    /** `FillIn`: builds a temporary list holding `from` and swaps it in;
        the temporary's destructor clears what it received. */
    method FillIn(from: seq<int>)
      requires Valid()
      modifies this, head
      ensures Valid() && (forall i :: 0 <= i < |nodes| ==> fresh(nodes[i]))
      ensures contents == from && size == |from|
    {
      var temp := Build(from);
      Swap(temp);
      temp.Clear();
    }

    /** One step of FillIn's loop: the new node `n` is linked after `it`, the
        last node of the chain (or the sentinel of an empty list), and
        counted. */
    method LinkLast(it: Node, n: Node)
      requires Valid() && SizeMatches()
      requires it == NodeAt(|nodes| - 1) && n.next == null && n !in nodes && n != head
      modifies this, it
      ensures Valid() && SizeMatches()
      ensures contents == old(contents) + [n.value] && nodes == old(nodes) + [n]
      ensures NodeAt(|nodes| - 1) == n
    {
      it.next := n;
      size := size + 1;
      ChainInsert(nodes, contents, |nodes| - 1, n);
      contents := InsertedAfter(contents, |nodes| - 1, n.value);
      nodes := InsertedAfter(nodes, |nodes| - 1, n);
    }

    /** Copy assignment: a no-op on self-assignment; otherwise a copy of
        `other` is swapped in and the old elements go to the discarded copy. */
    method Assign(other: SingleLinkedList)
      requires Valid() && other.Valid()
      requires this == other || Separate(this, other)
      modifies this, head
      ensures Valid()
      ensures this == other ==> contents == old(contents) && size == old(size) && nodes == old(nodes)
      ensures this != other ==> contents == other.contents && size == |other.contents| && (forall i :: 0 <= i < |nodes| ==> fresh(nodes[i]))
      ensures other.Valid() && other.contents == old(other.contents) && other.size == old(other.size)
    {
      if this != other {
        var temp := new SingleLinkedList.Copy(other);
        Swap(temp);
        temp.Clear();
      }
    }

    /** `PushFront`: a new first node holding `value`. */
    method PushFront(value: int)
      requires Valid()
      modifies this, head
      ensures Valid()
      ensures contents == [value] + old(contents) && size == old(size) + 1
      ensures fresh(nodes[0]) && nodes[1..] == old(nodes)
      ensures old(SizeMatches()) ==> SizeMatches()
    {
      var n := new Node(value, head.next);
      head.next := n;
      size := size + 1;
      ChainPrepend(nodes, contents, n);
      contents := [value] + contents;
      nodes := [n] + nodes;
    }

    /** `Clear`: unlinks the first node until none is left, then resets the
        count. Every iteration removes one node, so the loop ends. */
    method Clear()
      requires Valid()
      modifies this, head
      ensures Valid()
      ensures contents == [] && nodes == [] && size == 0
    {
      while head.next != null
        invariant Valid()
        decreases |nodes|
      {
        var toDelete := head.next;
        head.next := toDelete.next;
        ChainTail(nodes, contents);
        contents := contents[1..];
        nodes := nodes[1..];
      }
      size := 0;
    }

    /** `GetSize`: the count, never less than the number of elements and equal
        to it unless PopFront has run. */
    function GetSize(): (n: nat)
      reads this, head, nodes
      requires Valid()
      ensures n >= |contents|
      ensures SizeMatches() ==> n == |contents|
    {
      size
    }

    /** `IsEmpty`: decided by the count alone. */
    function IsEmpty(): (r: bool)
      reads this, head, nodes
      requires Valid()
      ensures r <==> GetSize() == 0
      ensures r ==> contents == []
      ensures SizeMatches() ==> (r <==> contents == [])
    {
      size == 0
    }

    /** `InsertAfter`: links a new node holding `value` after `pos`, which is
        `before_begin()` or denotes an element, and returns an iterator to it. */
    method InsertAfter(pos: Node, value: int) returns (it: Node)
      requires Valid() && IsIterator(pos)
      modifies this, pos
      ensures Valid() && fresh(it)
      ensures contents == InsertedAfter(old(contents), old(IndexOf(pos)), value)
      ensures nodes == InsertedAfter(old(nodes), old(IndexOf(pos)), it)
      ensures size == old(size) + 1
      ensures IsIterator(it) && IndexOf(it) == old(IndexOf(pos)) + 1 && it.value == value
      ensures IsIterator(pos) && IndexOf(pos) == old(IndexOf(pos))
      ensures old(SizeMatches()) ==> SizeMatches()
    {
      ghost var p := IndexOf(pos);
      var n := new Node(value, pos.next);
      pos.next := n;
      size := size + 1;
      ChainInsert(nodes, contents, p, n);
      contents := InsertedAfter(contents, p, value);
      nodes := InsertedAfter(nodes, p, n);
      it := pos.next;
    }

    /** `PopFront` as written: when the count is positive, unlinks the first
        node but leaves the count as it was. The guard tests the count, not
        the chain, so a first node must exist whenever the count is positive. */
    method PopFront()
      requires Valid()
      requires size > 0 ==> contents != []
      modifies this, head
      ensures Valid()
      ensures size == old(size)
      ensures old(size) > 0 ==> contents == old(contents)[1..]
      ensures old(size) > 0 ==> size - |contents| == old(size - |contents|) + 1
      ensures old(size) > 0 ==> nodes == old(nodes)[1..]
      ensures old(size) == 0 ==> contents == old(contents) == [] && nodes == old(nodes)
    {
      if size > 0 {
        var required := head.next;
        head.next := required.next;
        ChainTail(nodes, contents);
        contents := contents[1..];
        nodes := nodes[1..];
      }
    }

    /** PopFront with the decrement of the count it evidently intends: a list
        whose count matches its chain keeps it matching. */
    method PopFrontCorrected()
      requires Valid() && SizeMatches()
      modifies this, head
      ensures Valid() && SizeMatches()
      ensures contents == if old(contents) == [] then [] else old(contents)[1..]
      ensures nodes == if old(nodes) == [] then [] else old(nodes)[1..]
    {
      if size > 0 {
        var required := head.next;
        head.next := required.next;
        size := size - 1;
        ChainTail(nodes, contents);
        contents := contents[1..];
        nodes := nodes[1..];
      }
    }

    /** `EraseAfter`: unlinks the node after `pos`, which must exist, and
        returns an iterator to the node now following `pos`. */
    method EraseAfter(pos: Node) returns (it: Node?)
      requires Valid() && IsIterator(pos) && IndexOf(pos) + 1 < |contents|
      modifies this, pos
      ensures Valid()
      ensures contents == ErasedAfter(old(contents), old(IndexOf(pos)))
      ensures nodes == ErasedAfter(old(nodes), old(IndexOf(pos)))
      ensures size == old(size) - 1
      ensures IsIterator(it) && IndexOf(it) == old(IndexOf(pos)) + 1
      ensures it == old(NodeAt(IndexOf(pos) + 2))
      ensures IsIterator(pos) && IndexOf(pos) == old(IndexOf(pos))
      ensures old(SizeMatches()) ==> SizeMatches()
    {
      ghost var p := IndexOf(pos);
      Successor(p);
      Successor(p + 1);
      var required := pos.next;
      pos.next := required.next;
      size := size - 1;
      ChainErase(nodes, contents, p);
      contents := ErasedAfter(contents, p);
      nodes := ErasedAfter(nodes, p);
      it := pos.next;
    }

    /** `swap`: exchanges the first-node pointers of the two sentinels and the
        counts. No node is touched: only the two list objects and their
        sentinels are modified. */
    method Swap(other: SingleLinkedList)
      requires Valid() && other.Valid()
      requires this == other || Separate(this, other)
      modifies this, head, other, other.head
      ensures Valid() && other.Valid()
      ensures contents == old(other.contents) && other.contents == old(contents)
      ensures size == old(other.size) && other.size == old(size)
      ensures nodes == old(other.nodes) && other.nodes == old(nodes)
    {
      var first := head.next;
      head.next := other.head.next;
      other.head.next := first;
      var count := size;
      size := other.size;
      other.size := count;
      contents, other.contents := other.contents, contents;
      nodes, other.nodes := other.nodes, nodes;
    }

    /** `before_begin()`: the sentinel, the position before the first element. */
    function BeforeBegin(): (it: Node)
      reads this, head, nodes
      requires Valid()
      ensures IsIterator(it) && IndexOf(it) == -1
    {
      head
    }

    /** `begin()`: the first node, which is `end()` exactly when the list is empty. */
    function Begin(): (it: Node?)
      reads this, head, nodes
      requires Valid()
      ensures IsIterator(it) && IndexOf(it) == 0
      ensures it == End() <==> contents == []
    {
      if head.next != null then head.next else null
    }

    /** `end()`: the null iterator, the position after the last element. */
    function End(): (it: Node?)
      reads this, head, nodes
      requires Valid()
      ensures IsIterator(it) && IndexOf(it) == |contents|
    {
      null
    }

    /** `++it`: the next position. */
    function Next(it: Node): (r: Node?)
      reads this, head, nodes
      requires Valid() && IsIterator(it)
      ensures IsIterator(r) && IndexOf(r) == IndexOf(it) + 1
    {
      Successor(IndexOf(it));
      it.next
    }

    /** `*it` read: the element at the iterator's position. */
    function Get(it: Node): (v: int)
      reads this, head, nodes
      requires Valid() && it in nodes
      ensures 0 <= IndexOf(it) < |contents| && v == contents[IndexOf(it)]
    {
      it.value
    }

    /** `*it = v`: overwrites the element at the iterator's position. */
    method Set(it: Node, v: int)
      requires Valid() && it in nodes
      modifies this, it
      ensures Valid() && nodes == old(nodes) && size == old(size)
      ensures contents == old(contents)[old(IndexOf(it)) := v]
    {
      ghost var p := IndexOf(it);
      it.value := v;
      contents := contents[p := v];
    }

    /** The traversal from `begin()` by `++` until `end()`: it visits exactly
        the elements, in order. */
    method Elements() returns (s: seq<int>)
      requires Valid()
      ensures s == contents
    {
      s := [];
      var it := Begin();
      while it != End()
        invariant IsIterator(it) && s == contents[..IndexOf(it)]
        decreases |contents| - IndexOf(it)
      {
        s := s + [Get(it)];
        it := Next(it);
      }
    }

    /** `operator==`: `std::equal` over the two traversals. */
    method Equals(other: SingleLinkedList) returns (r: bool)
      requires Valid() && other.Valid()
      ensures r <==> contents == other.contents
    {
      var a := Elements();
      var b := other.Elements();
      r := Equal(a, b);
    }

    /** `operator!=`: the negation of `std::equal`. */
    method NotEquals(other: SingleLinkedList) returns (r: bool)
      requires Valid() && other.Valid()
      ensures r <==> contents != other.contents
    {
      var a := Elements();
      var b := other.Elements();
      r := !Equal(a, b);
    }

    /** `operator<`: `std::lexicographical_compare`. */
    method Less(other: SingleLinkedList) returns (r: bool)
      requires Valid() && other.Valid()
      ensures r <==> Precedes(contents, other.contents)
    {
      var a := Elements();
      var b := other.Elements();
      r := LexLess(a, b);
      LexLessIsPrecedes(a, b);
    }

    /** `operator>`: not smaller and not equal, which is the same as `other < this`. */
    method Greater(other: SingleLinkedList) returns (r: bool)
      requires Valid() && other.Valid()
      ensures r <==> LexLess(other.contents, contents)
    {
      var a := Elements();
      var b := other.Elements();
      r := !LexLess(a, b) && !Equal(a, b);
      LexLessTrichotomy(a, b);
    }

    /** `operator<=`: smaller or equal, which is the same as not `other < this`. */
    method LessOrEqual(other: SingleLinkedList) returns (r: bool)
      requires Valid() && other.Valid()
      ensures r <==> !LexLess(other.contents, contents)
    {
      var a := Elements();
      var b := other.Elements();
      r := LexLess(a, b) || Equal(a, b);
      LexLessTrichotomy(a, b);
    }

    /** `operator>=`: not smaller, which is the same as `other < this` or equal. */
    method GreaterOrEqual(other: SingleLinkedList) returns (r: bool)
      requires Valid() && other.Valid()
      ensures r <==> LexLess(other.contents, contents) || contents == other.contents
    {
      var a := Elements();
      var b := other.Elements();
      r := !LexLess(a, b);
      LexLessTrichotomy(a, b);
    }
  }

  /** The loop of `FillIn`: a fresh list receives each value of `from` in
      turn, appended through a pointer to its last node, and counts it. */
  method Build(from: seq<int>) returns (temp: SingleLinkedList)
    ensures temp.Valid() && fresh(temp) && fresh(temp.head)
    ensures forall i :: 0 <= i < |temp.nodes| ==> fresh(temp.nodes[i])
    ensures temp.contents == from && temp.size == |from|
  {
    temp := new SingleLinkedList();
    var it := temp.head;
    for k := 0 to |from|
      invariant temp.Valid() && fresh(it)
      invariant forall i :: 0 <= i < |temp.nodes| ==> fresh(temp.nodes[i])
      invariant temp.contents == from[..k] && temp.size == k
      invariant it == temp.NodeAt(k - 1)
    {
      var n := new Node(from[k], null);
      temp.LinkLast(it, n);
      it := n;
    }
    assert from[..|from|] == from;
  }

  /** Two lists are separate when they are different objects with different
      sentinels and neither sentinel is a node of the other's chain, so that
      relinking one list's sentinel leaves the other list as it was. */
  ghost predicate Separate(a: SingleLinkedList, b: SingleLinkedList)
    reads a, b
  {
    a != b && a.head != b.head && a.head !in b.nodes && b.head !in a.nodes
  }

  /** The free `swap(lhs, rhs)`: the member swap. */
  method Swap(lhs: SingleLinkedList, rhs: SingleLinkedList)
    requires lhs.Valid() && rhs.Valid()
    requires lhs == rhs || Separate(lhs, rhs)
    modifies lhs, lhs.head, rhs, rhs.head
    ensures lhs.Valid() && rhs.Valid()
    ensures lhs.contents == old(rhs.contents) && rhs.contents == old(lhs.contents)
    ensures lhs.size == old(rhs.size) && rhs.size == old(lhs.size)
    ensures lhs.nodes == old(rhs.nodes) && rhs.nodes == old(lhs.nodes)
  {
    lhs.Swap(rhs);
  }
}

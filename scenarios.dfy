/**
 Client code of the list: what a caller can conclude from the contracts of
 LinkedList alone, including the stale count that PopFront leaves behind.
 */
module Scenarios {
  import opened NodeChain
  import opened LinkedList
  import opened Compare

  /** `s` back to front. */
  function Reversed(s: seq<int>): (r: seq<int>)
    ensures |r| == |s|
    ensures forall i :: 0 <= i < |s| ==> r[i] == s[|s| - 1 - i]
  {
    if s == [] then [] else Reversed(s[1..]) + [s[0]]
  }

  /** The walk-through of a three-element list: the traversal visits 10, 20,
      30; after PopFront it visits 20, 30 while GetSize still answers 3; after
      EraseAfter(before_begin()) only 30 is left and GetSize answers 2. */
  method ThreeElementWalk() returns (before: seq<int>, count: nat, after: seq<int>, countAfter: nat, last: seq<int>, countLast: nat)
    ensures before == [10, 20, 30] && count == 3
    ensures after == [20, 30] && countAfter == 3
    ensures last == [30] && countLast == 2
  {
    var list := new SingleLinkedList.FromValues([10, 20, 30]);
    before := list.Elements();
    count := list.GetSize();
    list.PopFront();
    after := list.Elements();
    countAfter := list.GetSize();
    var next := list.EraseAfter(list.BeforeBegin());
    last := list.Elements();
    countLast := list.GetSize();
  }

  /** PopFront on a one-element list: the chain is empty, so `begin()` equals
      `end()`, but the count still says one element, so IsEmpty answers false
      and a second PopFront would pass its guard `size_ > 0` and follow the
      sentinel's null pointer. */
  method PopFrontLeavesStaleCount() returns (count: nat, empty: bool, noFirstNode: bool)
    ensures count == 1 && !empty && noFirstNode
  {
    var list := new SingleLinkedList.FromValues([7]);
    list.PopFront();
    count := list.GetSize();
    empty := list.IsEmpty();
    noFirstNode := list.Begin() == list.End();
  }

  /** The corrected PopFront on a one-element list leaves an empty list that
      says so. */
  method PopFrontCorrectedEmpties() returns (count: nat, empty: bool, noFirstNode: bool)
    ensures count == 0 && empty && noFirstNode
  {
    var list := new SingleLinkedList.FromValues([7]);
    list.PopFrontCorrected();
    count := list.GetSize();
    empty := list.IsEmpty();
    noFirstNode := list.Begin() == list.End();
  }

  /** An iterator to the second element survives PopFront, in both versions:
      it is then `begin()` and still reads the same element. */
  method IteratorSurvivesPopFront(values: seq<int>) returns (v: int, isBegin: bool, w: int, isBeginAgain: bool)
    requires |values| >= 3
    ensures v == values[1] && isBegin
    ensures w == values[2] && isBeginAgain
  {
    var list := new SingleLinkedList.FromValues(values);
    var it := list.Next(list.Begin());
    list.PopFrontCorrected();
    v := list.Get(it);
    isBegin := list.Begin() == it;
    var jt := list.Next(it);
    list.PopFront();
    w := list.Get(jt);
    isBeginAgain := list.Begin() == jt;
  }

  /** PushFront is undone by the corrected PopFront, count included; the
      PopFront as written restores the elements but not the count. */
  method PushFrontThenPopFront(values: seq<int>, v: int) returns (corrected: seq<int>, correctedCount: nat, asWritten: seq<int>, asWrittenCount: nat)
    ensures corrected == values && correctedCount == |values|
    ensures asWritten == values && asWrittenCount == |values| + 1
  {
    var list := new SingleLinkedList.FromValues(values);
    list.PushFront(v);
    list.PopFrontCorrected();
    corrected := list.Elements();
    correctedCount := list.GetSize();
    list.PushFront(v);
    list.PopFront();
    asWritten := list.Elements();
    asWrittenCount := list.GetSize();
  }

  /** Pushing each value to the front in turn yields them back to front. */
  method PushFrontReverses(values: seq<int>) returns (s: seq<int>)
    ensures s == Reversed(values)
  {
    var list := new SingleLinkedList();
    for k := 0 to |values|
      invariant list.Valid() && fresh(list) && fresh(list.head)
      invariant list.contents == Reversed(values[..k])
    {
      list.PushFront(values[k]);
      assert values[..k + 1][1..] == values[1..k + 1];
    }
    assert values[..|values|] == values;
    s := list.Elements();
  }

  /** Clear empties the list, after which IsEmpty holds, and clearing again
      changes nothing. */
  method ClearTwice(values: seq<int>) returns (first: seq<int>, empty: bool, second: seq<int>, count: nat)
    ensures first == [] && empty && second == [] && count == 0
  {
    var list := new SingleLinkedList.FromValues(values);
    list.Clear();
    first := list.Elements();
    empty := list.IsEmpty();
    list.Clear();
    second := list.Elements();
    count := list.GetSize();
  }

  /** The iterator `p + 1` increments past `before_begin()`. */
  method Advance(list: SingleLinkedList, p: int) returns (pos: Node)
    requires list.Valid() && -1 <= p < |list.contents|
    ensures list.IsIterator(pos) && list.IndexOf(pos) == p
  {
    pos := list.BeforeBegin();
    for j := 0 to p + 1
      invariant list.IsIterator(pos) && list.IndexOf(pos) == j - 1
    {
      pos := list.Next(pos);
    }
  }

  /** InsertAfter at the iterator of position `p`, then EraseAfter at the
      same iterator, gives back the original list and count; the iterator
      InsertAfter returns denotes the inserted element. */
  method InsertThenErase(values: seq<int>, p: int, v: int) returns (inserted: seq<int>, got: int, restored: seq<int>, count: nat)
    requires -1 <= p < |values|
    ensures inserted == InsertedAfter(values, p, v) && got == v
    ensures restored == values && count == |values|
  {
    var list := new SingleLinkedList.FromValues(values);
    var pos := Advance(list, p);
    var it := list.InsertAfter(pos, v);
    inserted := list.Elements();
    got := list.Get(it);
    var next := list.EraseAfter(pos);
    restored := list.Elements();
    EraseAfterUndoesInsertAfter(values, p, v);
    count := list.GetSize();
  }

  /** Swapping exchanges the two lists, and swapping back restores both. */
  method SwapTwice(xs: seq<int>, ys: seq<int>) returns (x1: seq<int>, y1: seq<int>, x2: seq<int>, y2: seq<int>)
    ensures x1 == ys && y1 == xs
    ensures x2 == xs && y2 == ys
  {
    var a := new SingleLinkedList.FromValues(xs);
    var b := new SingleLinkedList.FromValues(ys);
    a.Swap(b);
    x1 := a.Elements();
    y1 := b.Elements();
    Swap(a, b);
    x2 := a.Elements();
    y2 := b.Elements();
  }

  /** Assignment makes the target equal to the source and leaves the source
      alone; self-assignment changes nothing. */
  method AssignCopies(xs: seq<int>, ys: seq<int>) returns (equal: bool, target: seq<int>, source: seq<int>, self: seq<int>)
    ensures equal && target == ys && source == ys && self == ys
  {
    var a := new SingleLinkedList.FromValues(xs);
    var b := new SingleLinkedList.FromValues(ys);
    a.Assign(b);
    equal := a.Equals(b);
    target := a.Elements();
    source := b.Elements();
    a.Assign(a);
    self := a.Elements();
  }

  /** Self-assignment is a no-op, so an iterator taken before it still reads
      the same element afterwards. */
  method SelfAssignKeepsIterators(values: seq<int>) returns (v: int, isBegin: bool)
    requires values != []
    ensures v == values[0] && isBegin
  {
    var a := new SingleLinkedList.FromValues(values);
    var it := a.Begin();
    a.Assign(a);
    v := a.Get(it);
    isBegin := a.Begin() == it;
  }

  /** A copy counts its elements afresh, so copying a list that PopFront has
      left with a stale count yields a list whose count is right. */
  method CopyRecounts() returns (staleCount: nat, copyCount: nat, equal: bool)
    ensures staleCount == 2 && copyCount == 1 && equal
  {
    var list := new SingleLinkedList.FromValues([1, 2]);
    list.PopFront();
    staleCount := list.GetSize();
    var copy := new SingleLinkedList.Copy(list);
    copyCount := copy.GetSize();
    equal := copy.Equals(list);
  }

  /** Two lists built from the same values are equal, neither is smaller than
      the other, and both `<=` and `>=` hold. */
  method SameValuesCompareEqual(values: seq<int>) returns (eq: bool, ne: bool, lt: bool, gt: bool, le: bool, ge: bool)
    ensures eq && !ne && !lt && !gt && le && ge
  {
    var a := new SingleLinkedList.FromValues(values);
    var b := new SingleLinkedList.FromValues(values);
    eq := a.Equals(b);
    ne := a.NotEquals(b);
    lt := a.Less(b);
    gt := a.Greater(b);
    le := a.LessOrEqual(b);
    ge := a.GreaterOrEqual(b);
    LexLessIrreflexive(values);
    LexLessIsPrecedes(values, values);
  }

  /** {1, 2, 3} < {1, 2, 4} by the first differing element, {1, 2} < {1, 2, 3}
      as a proper prefix, and the reverse comparisons answer accordingly. */
  method LexicographicExamples() returns (lt: bool, prefix: bool, gt: bool, ge: bool, le: bool)
    ensures lt && prefix && gt && ge && !le
  {
    var a := new SingleLinkedList.FromValues([1, 2, 3]);
    var b := new SingleLinkedList.FromValues([1, 2, 4]);
    var c := new SingleLinkedList.FromValues([1, 2]);
    assert [1, 2, 3][..2] == [1, 2, 4][..2];
    lt := a.Less(b);
    assert [1, 2][..2] == [1, 2, 3][..2];
    prefix := c.Less(a);
    gt := b.Greater(a);
    ge := b.GreaterOrEqual(a);
    le := b.LessOrEqual(a);
  }
}

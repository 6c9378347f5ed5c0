/**
 The element-sequence comparisons that the list's relational operators are
 built on: the four-iterator `std::equal` and `std::lexicographical_compare`,
 each modelled as a function that walks two element sequences in lock step,
 together with what they mean and the order-theoretic facts the operators
 `<`, `>`, `<=` and `>=` rely on.
 */
module Compare {

  /** `std::equal(first1, last1, first2, last2)`: advances through both ranges
      together and answers false as soon as one range ends before the other or
      two elements differ. It decides sequence equality. */
  function Equal(a: seq<int>, b: seq<int>): (r: bool)
    ensures r <==> a == b
  {
    if a == [] || b == [] then a == [] && b == []
    else
      assert a == [a[0]] + a[1..] && b == [b[0]] + b[1..];
      a[0] == b[0] && Equal(a[1..], b[1..])
  }

  /** `std::lexicographical_compare(first1, last1, first2, last2)` with `<` on
      the elements: while the second range lasts, the first range is smaller
      when it has ended or its element is smaller, and larger when its element
      is larger; once the second range has ended the answer is false. */
  function LexLess(a: seq<int>, b: seq<int>): (r: bool)
    ensures r ==> b != [] && (a == [] || a[0] <= b[0])
  {
    if b == [] then false
    else if a == [] then true
    else if a[0] < b[0] then true
    else if b[0] < a[0] then false
    else LexLess(a[1..], b[1..])
  }

  /** The independent definition of lexicographic order: `a` and `b` agree on a
      common prefix of length `k`, after which either `a` has ended while `b`
      goes on (a proper prefix is smaller) or `a`'s next element is smaller. */
  ghost predicate Precedes(a: seq<int>, b: seq<int>)
  {
    exists k :: 0 <= k <= |a| && k < |b| && a[..k] == b[..k] && (k == |a| || a[k] < b[k])
  }

  /** The library walk computes exactly the lexicographic order, in both directions. */
  lemma {:induction false} LexLessIsPrecedes(a: seq<int>, b: seq<int>)
    ensures LexLess(a, b) <==> Precedes(a, b)
  {
    if b == [] {
    } else if a == [] {
      assert a[..0] == b[..0];
    } else if a[0] < b[0] {
      assert a[..0] == b[..0];
    } else if b[0] < a[0] {
      if Precedes(a, b) {
        var k :| 0 <= k <= |a| && k < |b| && a[..k] == b[..k] && (k == |a| || a[k] < b[k]);
        assert false;
      }
    } else {
      LexLessIsPrecedes(a[1..], b[1..]);
      if Precedes(a[1..], b[1..]) {
        var k :| 0 <= k <= |a[1..]| && k < |b[1..]| && a[1..][..k] == b[1..][..k]
                 && (k == |a[1..]| || a[1..][k] < b[1..][k]);
        assert a[..k + 1] == [a[0]] + a[1..][..k];
        assert b[..k + 1] == [b[0]] + b[1..][..k];
        assert a[..k + 1] == b[..k + 1];
      }
      if Precedes(a, b) {
        var k :| 0 <= k <= |a| && k < |b| && a[..k] == b[..k] && (k == |a| || a[k] < b[k]);
        assert k > 0;
        assert a[1..][..k - 1] == a[..k][1..];
        assert b[1..][..k - 1] == b[..k][1..];
        assert a[1..][..k - 1] == b[1..][..k - 1];
        assert Precedes(a[1..], b[1..]);
      }
    }
  }

  /** No sequence is smaller than itself. */
  lemma {:induction false} LexLessIrreflexive(a: seq<int>)
    ensures !LexLess(a, a)
  {
    if a != [] {
      LexLessIrreflexive(a[1..]);
    }
  }

  /** Exactly one of `a < b`, `a == b`, `b < a` holds: the order is total and
      consistent with equality. */
  lemma {:induction false} LexLessTrichotomy(a: seq<int>, b: seq<int>)
    ensures LexLess(a, b) || a == b || LexLess(b, a)
    ensures !(LexLess(a, b) && LexLess(b, a))
  {
    if a == b {
      LexLessIrreflexive(a);
    } else if a != [] && b != [] && a[0] == b[0] {
      LexLessTrichotomy(a[1..], b[1..]);
    }
  }

  /** The order is transitive. */
  lemma {:induction false} LexLessTransitive(a: seq<int>, b: seq<int>, c: seq<int>)
    requires LexLess(a, b) && LexLess(b, c)
    ensures LexLess(a, c)
  {
    if a != [] && a[0] == b[0] && b[0] == c[0] {
      LexLessTransitive(a[1..], b[1..], c[1..]);
    }
  }
}

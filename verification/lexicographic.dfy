/**
 * Strings in the order numpy and Python sort them: lexicographic on code
 * points, a proper prefix first. `np.unique(list).tolist()` on a list of
 * strings is modelled by Unique: the distinct strings of the list in this
 * order.
 */
module Lexicographic {

  /** a sorts strictly before b. */
  predicate Below(a: string, b: string)
  {
    if |a| == 0 then |b| > 0
    else if |b| == 0 then false
    else if a[0] != b[0] then a[0] < b[0]
    else Below(a[1..], b[1..])
  }

  lemma {:induction false} BelowIrreflexive(a: string)
    ensures !Below(a, a)
  {
    if |a| > 0 {
      BelowIrreflexive(a[1..]);
    }
  }

  lemma {:induction false} BelowAsymmetric(a: string, b: string)
    ensures !(Below(a, b) && Below(b, a))
  {
    if |a| > 0 && |b| > 0 && a[0] == b[0] {
      BelowAsymmetric(a[1..], b[1..]);
    }
  }

  lemma {:induction false} BelowTransitive(a: string, b: string, c: string)
    requires Below(a, b) && Below(b, c)
    ensures Below(a, c)
  {
    if |a| > 0 && a[0] == b[0] && b[0] == c[0] {
      BelowTransitive(a[1..], b[1..], c[1..]);
    }
  }

  /** Any two different strings are ordered one way or the other. */
  lemma {:induction false} BelowTotal(a: string, b: string)
    ensures a == b || Below(a, b) || Below(b, a)
  {
    if |a| > 0 && |b| > 0 && a[0] == b[0] {
      assert a == [a[0]] + a[1..] && b == [b[0]] + b[1..];
      BelowTotal(a[1..], b[1..]);
    }
  }

  /** Sorted with no repeats. */
  predicate StrictlyAscending(s: seq<string>)
  {
    forall i, j :: 0 <= i < j < |s| ==> Below(s[i], s[j])
  }

  /** Adds x to a sorted, repeat-free list at its place, unless it is already there. */
  function Insert(sorted: seq<string>, x: string): (r: seq<string>)
    requires StrictlyAscending(sorted)
    ensures StrictlyAscending(r)
    ensures forall y :: y in r <==> y in sorted || y == x
  {
    if |sorted| == 0 then [x]
    else if sorted[0] == x then sorted
    else if Below(x, sorted[0]) then
      forall j | 0 <= j < |sorted|
        ensures Below(x, sorted[j])
      {
        if j > 0 {
          BelowTransitive(x, sorted[0], sorted[j]);
        }
      }
      [x] + sorted
    else
      var rest := Insert(sorted[1..], x);
      BelowTotal(x, sorted[0]);
      assert forall y :: y in rest ==> Below(sorted[0], y);
      [sorted[0]] + rest
  }

  /** np.unique on a list of strings: its distinct values, in ascending order. */
  function Unique(s: seq<string>): (r: seq<string>)
    ensures StrictlyAscending(r)
    ensures forall y :: y in r <==> y in s
  {
    if |s| == 0 then [] else Insert(Unique(s[1..]), s[0])
  }

  /** A strictly ascending list starts with its least element. */
  lemma HeadLeast(s: seq<string>, x: string)
    requires StrictlyAscending(s) && x in s && |s| > 0
    ensures s[0] == x || Below(s[0], x)
  {
  }

  /**
   * A strictly ascending list is determined by its elements: two such lists
   * with the same elements are equal. So Unique(s) is THE sorted list of the
   * distinct values of s, whatever order it inserts them in.
   */
  lemma {:induction false} AscendingUnique(a: seq<string>, b: seq<string>)
    requires StrictlyAscending(a) && StrictlyAscending(b)
    requires forall x :: x in a <==> x in b
    ensures a == b
  {
    assert |a| > 0 ==> a[0] in b;
    assert |b| > 0 ==> b[0] in a;
    if |a| > 0 && |b| > 0 {
      HeadLeast(b, a[0]);
      HeadLeast(a, b[0]);
      BelowAsymmetric(a[0], b[0]);
      assert a[0] == b[0];
      BelowIrreflexive(a[0]);
      forall x
        ensures x in a[1..] <==> x in b[1..]
      {
        assert x in a[1..] ==> x in a && x != a[0];
        assert x in b[1..] ==> x in b && x != b[0];
        assert x in a && x != a[0] ==> x in a[1..] by {
          assert a == [a[0]] + a[1..];
        }
        assert x in b && x != b[0] ==> x in b[1..] by {
          assert b == [b[0]] + b[1..];
        }
      }
      AscendingUnique(a[1..], b[1..]);
      assert a == [a[0]] + a[1..] && b == [b[0]] + b[1..];
    }
  }

  /** Unique leaves a list that is already sorted and repeat-free as it is. */
  lemma UniqueOfAscending(s: seq<string>)
    requires StrictlyAscending(s)
    ensures Unique(s) == s
  {
    AscendingUnique(Unique(s), s);
  }

  /** Unique depends only on which strings occur, not on their order or repetition. */
  lemma UniqueSameElements(s: seq<string>, t: seq<string>)
    requires forall x :: x in s <==> x in t
    ensures Unique(s) == Unique(t)
  {
    AscendingUnique(Unique(s), Unique(t));
  }
}

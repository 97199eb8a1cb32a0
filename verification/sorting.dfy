/**
 * `sort.Slice` with a "less" function that compares integer keys. Go's sort is
 * not stable, so callers may rely only on the result being ordered by key and
 * being a rearrangement of the input; this insertion sort is one admissible
 * outcome.
 */
module Sorting {

  /** The keys never decrease from left to right. */
  predicate SortedBy<T>(s: seq<T>, key: T -> int) {
    forall i, j :: 0 <= i < j < |s| ==> key(s[i]) <= key(s[j])
  }

  /** `s[..i + 1]` is in order except that `s[j]` may be out of place to the left. */
  predicate SortedExceptAt<T>(s: seq<T>, i: nat, j: nat, key: T -> int)
    requires j <= i < |s|
  {
    forall p, q :: 0 <= p < q <= i && q != j ==> key(s[p]) <= key(s[q])
  }

  /** Swapping an out-of-place element with its left neighbour moves the gap one step left. */
  lemma {:induction false} SwapStep<T>(s: seq<T>, i: nat, j: nat, key: T -> int)
    requires 0 < j <= i < |s| && SortedExceptAt(s, i, j, key) && key(s[j - 1]) > key(s[j])
    ensures SortedExceptAt(s[j - 1 := s[j]][j := s[j - 1]], i, j - 1, key)
    ensures multiset(s[j - 1 := s[j]][j := s[j - 1]]) == multiset(s)
    ensures s[j - 1 := s[j]][j := s[j - 1]][i + 1..] == s[i + 1..]
  {
    var t := s[j - 1 := s[j]][j := s[j - 1]];
    assert t[i + 1..] == s[i + 1..];
    forall p, q | 0 <= p < q <= i && q != j - 1
      ensures key(t[p]) <= key(t[q])
    {
      if q == j {
        if p < j - 1 {
          assert key(s[p]) <= key(s[j - 1]);
        }
      } else if p == j - 1 {
        assert key(s[j]) < key(s[j - 1]) <= key(s[q]);
      } else if p == j {
        assert key(s[j - 1]) <= key(s[q]);
      }
    }
  }

  /** Sorts `a` in place into nondecreasing order of `key`. */
  method SortByKey<T>(a: array<T>, key: T -> int)
    modifies a
    ensures SortedBy(a[..], key)
    ensures multiset(a[..]) == multiset(old(a[..]))
  {
    var i := 0;
    while i < a.Length
      invariant 0 <= i <= a.Length
      invariant SortedBy(a[..i], key)
      invariant multiset(a[..]) == multiset(old(a[..]))
    {
      Insert(a, i, key);
      i := i + 1;
    }
    assert a[..a.Length] == a[..];
  }

  /** Moves `a[i]` left into its place among the sorted `a[..i]`. */
  method Insert<T>(a: array<T>, i: nat, key: T -> int)
    requires i < a.Length && SortedBy(a[..i], key)
    modifies a
    ensures SortedBy(a[..i + 1], key)
    ensures multiset(a[..]) == multiset(old(a[..]))
    ensures multiset(a[..i + 1]) == multiset(old(a[..i + 1]))
    ensures a[i + 1..] == old(a[i + 1..])
  {
    var j := i;
    while j > 0 && key(a[j - 1]) > key(a[j])
      invariant 0 <= j <= i
      invariant SortedExceptAt(a[..], i, j, key)
      invariant multiset(a[..]) == multiset(old(a[..]))
      invariant a[i + 1..] == old(a[i + 1..])
    {
      ghost var s := a[..];
      SwapStep(s, i, j, key);
      a[j - 1], a[j] := a[j], a[j - 1];
      assert a[..] == s[j - 1 := s[j]][j := s[j - 1]];
      j := j - 1;
    }
    InsertionDone(a[..], i, j, key);
    PrefixMultiset(a[..], old(a[..]), i + 1);
  }

  /** Once the element at `j` is no smaller than its left neighbour, the prefix up to `i` is sorted. */
  lemma {:induction false} InsertionDone<T>(s: seq<T>, i: nat, j: nat, key: T -> int)
    requires j <= i < |s| && SortedExceptAt(s, i, j, key) && (j == 0 || key(s[j - 1]) <= key(s[j]))
    ensures SortedBy(s[..i + 1], key)
  {
    forall p, q | 0 <= p < q <= i
      ensures key(s[p]) <= key(s[q])
    {
      if q == j && p < j - 1 {
        assert key(s[p]) <= key(s[j - 1]);
      }
    }
  }

  /** Two rearrangements of each other that agree after `n` are rearrangements up to `n`. */
  lemma {:induction false} PrefixMultiset<T>(s: seq<T>, t: seq<T>, n: nat)
    requires n <= |s| == |t| && multiset(s) == multiset(t) && s[n..] == t[n..]
    ensures multiset(s[..n]) == multiset(t[..n])
  {
    assert s == s[..n] + s[n..];
    assert t == t[..n] + t[n..];
    assert multiset(s) == multiset(s[..n]) + multiset(s[n..]);
    assert multiset(t) == multiset(t[..n]) + multiset(t[n..]);
    forall x ensures multiset(s[..n])[x] == multiset(t[..n])[x] {
      assert multiset(s)[x] == multiset(t)[x];
    }
  }
}

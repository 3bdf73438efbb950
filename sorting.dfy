/**
 * `slice::sort_unstable` as the GC-root code relies on it: the result is a
 * permutation of the input ordered by a total preorder.  Which of several
 * equivalent elements comes first is not promised, so a caller may rely only
 * on these two facts.
 */
module Sorting {

  /** `le` is total and transitive: the "not greater than" of an `Ord`. */
  ghost predicate TotalPreorder<T(!new)>(le: (T, T) -> bool)
  {
    && (forall a, b :: le(a, b) || le(b, a))
    && (forall a, b, c :: le(a, b) && le(b, c) ==> le(a, c))
  }

  predicate Sorted<T>(s: seq<T>, le: (T, T) -> bool)
  {
    forall i, j :: 0 <= i < j < |s| ==> le(s[i], s[j])
  }

  /** Sorts by inserting each element in turn into a sorted prefix. */
  method Sort<T(!new)>(s: seq<T>, le: (T, T) -> bool) returns (r: seq<T>)
    requires TotalPreorder(le)
    ensures Sorted(r, le)
    ensures multiset(r) == multiset(s)
  {
    r := [];
    var n := 0;
    while n < |s|
      invariant n <= |s|
      invariant Sorted(r, le)
      invariant multiset(r) == multiset(s[..n])
    {
      r := Insert(r, s[n], le);
      assert s[..n + 1] == s[..n] + [s[n]];
      n := n + 1;
    }
    assert s[..n] == s;
  }

  /** Puts `x` behind the last element of `r` that is not greater than it. */
  method Insert<T(!new)>(r: seq<T>, x: T, le: (T, T) -> bool) returns (r': seq<T>)
    requires TotalPreorder(le) && Sorted(r, le)
    ensures Sorted(r', le)
    ensures multiset(r') == multiset(r) + multiset{x}
  {
    var k := |r|;
    while k > 0 && !le(r[k - 1], x)
      invariant 0 <= k <= |r|
      invariant forall m :: k <= m < |r| ==> le(x, r[m])
    {
      k := k - 1;
    }
    InsertSorted(r, x, k, le);
    InsertPermutes(r, x, k);
    r' := r[..k] + [x] + r[k..];
  }

  /** Inserting `x` anywhere adds exactly `x`. */
  lemma InsertPermutes<T>(r: seq<T>, x: T, k: nat)
    requires k <= |r|
    ensures multiset(r[..k] + [x] + r[k..]) == multiset(r) + multiset{x}
  {
    assert r == r[..k] + r[k..];
  }

  /** `x` placed between the elements not greater than it and those not less keeps the order. */
  lemma InsertSorted<T(!new)>(r: seq<T>, x: T, k: nat, le: (T, T) -> bool)
    requires TotalPreorder(le) && Sorted(r, le) && k <= |r|
    requires k > 0 ==> le(r[k - 1], x)
    requires forall m :: k <= m < |r| ==> le(x, r[m])
    ensures Sorted(r[..k] + [x] + r[k..], le)
  {
    forall m | 0 <= m < k
      ensures le(r[m], x)
    {
      assert le(r[m], r[k - 1]) || m == k - 1;
    }
    var t := r[..k] + [x] + r[k..];
    forall i, j | 0 <= i < j < |t|
      ensures le(t[i], t[j])
    {
      if j < k || i > k {
        assert t[i] == r[if i < k then i else i - 1] && t[j] == r[if j < k then j else j - 1];
      } else if i < k && j > k {
        assert le(r[i], x) && le(x, r[j - 1]);
      }
    }
  }

  /**
   * A sequence whose elements are strictly ordered has one sorted
   * permutation only: itself.  Sorting it, stably or not, leaves it as it is.
   */
  lemma {:induction false} StrictlySortedIsFixed<T(!new)>(s: seq<T>, t: seq<T>, le: (T, T) -> bool)
    requires forall i, j :: 0 <= i < j < |s| ==> !le(s[j], s[i])
    requires Sorted(t, le) && multiset(t) == multiset(s)
    ensures t == s
    decreases |s|
  {
    assert |t| == |multiset(t)| == |s|;
    if s != [] {
      assert t[0] in multiset(s);
      var j :| 0 <= j < |s| && s[j] == t[0];
      assert s[0] in multiset(t);
      var m :| 0 <= m < |t| && t[m] == s[0];
      if m > 0 {
        assert le(t[0], t[m]);
        assert j == 0;
      }
      SameTail(s, t);
      StrictlySortedIsFixed(s[1..], t[1..], le);
      assert s == [s[0]] + s[1..] && t == [t[0]] + t[1..];
    }
  }

  /** Two permutations of each other with the same first element have permuted tails. */
  lemma SameTail<T>(s: seq<T>, t: seq<T>)
    requires s != [] && t != [] && s[0] == t[0] && multiset(s) == multiset(t)
    ensures multiset(s[1..]) == multiset(t[1..])
  {
    assert s == [s[0]] + s[1..];
    assert t == [t[0]] + t[1..];
    assert multiset(s) == multiset{s[0]} + multiset(s[1..]);
    assert multiset(t) == multiset{t[0]} + multiset(t[1..]);
    assert multiset(s[1..]) == multiset(s) - multiset{s[0]};
    assert multiset(t[1..]) == multiset(t) - multiset{t[0]};
  }

  /**
   * `less` orders the elements totally once those that `same` identifies
   * are taken as one: the `Ord` and `PartialEq` of a type that agree.
   */
  ghost predicate StrictOrderUpTo<T(!new)>(less: (T, T) -> bool, same: (T, T) -> bool)
  {
    && (forall a :: same(a, a))
    && (forall a, b :: !same(a, b) ==> less(a, b) || less(b, a))
    && (forall a, b, c :: less(a, b) && less(b, c) ==> less(a, c))
  }

  /**
   * `Vec::dedup`: of each run of elements equal to the last one kept, only
   * the first stays.  On an input sorted by `less`, the result is strictly
   * increasing and every input element equals some element kept.
   */
  method Dedup<T(==, !new)>(s: seq<T>, less: (T, T) -> bool, same: (T, T) -> bool) returns (r: seq<T>)
    requires StrictOrderUpTo(less, same)
    requires forall i, j :: 0 <= i < j < |s| ==> !less(s[j], s[i])
    ensures forall i, j :: 0 <= i < j < |r| ==> less(r[i], r[j])
    ensures forall x :: x in r ==> x in s
    ensures forall k :: 0 <= k < |s| ==> exists i :: 0 <= i < |r| && same(r[i], s[k])
  {
    r := [];
    var n := 0;
    ghost var lastIdx := 0;
    while n < |s|
      invariant n <= |s|
      invariant forall i, j :: 0 <= i < j < |r| ==> less(r[i], r[j])
      invariant forall x :: x in r ==> x in s
      invariant forall k :: 0 <= k < n ==> exists i :: 0 <= i < |r| && same(r[i], s[k])
      invariant (n == 0) == (r == [])
      invariant n > 0 ==> lastIdx < n && r[|r| - 1] == s[lastIdx]
    {
      var x := s[n];
      if r == [] || !same(r[|r| - 1], x) {
        ghost var old_r := r;
        if r != [] {
          assert !less(x, s[lastIdx]);
          assert less(r[|r| - 1], x);
          forall i | 0 <= i < |r| - 1 ensures less(r[i], x) {
            assert less(r[i], r[|r| - 1]);
          }
        }
        r := r + [x];
        lastIdx := n;
        forall k | 0 <= k <= n ensures exists i :: 0 <= i < |r| && same(r[i], s[k]) {
          if k < n {
            var i :| 0 <= i < |old_r| && same(old_r[i], s[k]);
            assert r[i] == old_r[i];
          } else {
            assert same(r[|r| - 1], s[k]);
          }
        }
      } else {
        assert same(r[|r| - 1], s[n]);
      }
      n := n + 1;
    }
  }
}

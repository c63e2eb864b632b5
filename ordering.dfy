/**
 * What `sort.Sort` promises a caller, stated for a `Less` comparator: the result
 * is a permutation of the input and no element is less than one before it. The
 * sort itself is modelled by an insertion sort over sequences.
 */
module Ordering {

  /**
   * The contract `sort.Interface.Less` must meet: irreflexive, transitive, and
   * "neither is less" is transitive too (a strict weak order).
   */
  ghost predicate StrictWeakOrder<T(!new)>(less: (T, T) -> bool)
  {
    && (forall x :: !less(x, x))
    && (forall x, y, z :: less(x, y) && less(y, z) ==> less(x, z))
    && (forall x, y, z :: !less(x, y) && !less(y, z) ==> !less(x, z))
  }

  /** Non-decreasing under `less`: no element is less than an element before it. */
  ghost predicate Sorted<T>(less: (T, T) -> bool, s: seq<T>)
  {
    forall i, j :: 0 <= i < j < |s| ==> !less(s[j], s[i])
  }

  /** Any two different elements of `s` are ordered one way or the other. */
  ghost predicate Connected<T>(less: (T, T) -> bool, s: seq<T>)
  {
    forall i, j :: 0 <= i < |s| && 0 <= j < |s| && s[i] != s[j] ==> less(s[i], s[j]) || less(s[j], s[i])
  }

  /** Puts `x` before the first element that is not less than it. */
  function Insert<T>(less: (T, T) -> bool, x: T, s: seq<T>): (r: seq<T>)
    ensures multiset(r) == multiset(s) + multiset{x}
  {
    if s == [] || !less(s[0], x) then [x] + s
    else
      assert s == [s[0]] + s[1..];
      [s[0]] + Insert(less, x, s[1..])
  }

  function SortBy<T>(less: (T, T) -> bool, s: seq<T>): (r: seq<T>)
    ensures multiset(r) == multiset(s)
  {
    if s == [] then []
    else
      assert s == [s[0]] + s[1..];
      Insert(less, s[0], SortBy(less, s[1..]))
  }

  /** Putting in front an element that no element is less than keeps a sequence sorted. */
  lemma ConsSorted<T>(less: (T, T) -> bool, x: T, s: seq<T>)
    requires Sorted(less, s)
    requires forall j :: 0 <= j < |s| ==> !less(s[j], x)
    ensures Sorted(less, [x] + s)
  {
    var r := [x] + s;
    forall i, j | 0 <= i < j < |r| ensures !less(r[j], r[i]) {
      if i > 0 {
        assert r[i] == s[i - 1] && r[j] == s[j - 1];
      } else {
        assert r[j] == s[j - 1];
      }
    }
  }

  /** No element of `t` is less than `y` when that holds of every element of `s` and of `x`. */
  lemma NoneLessAfterInsert<T>(less: (T, T) -> bool, y: T, x: T, s: seq<T>, t: seq<T>)
    requires multiset(t) == multiset(s) + multiset{x}
    requires forall j :: 0 <= j < |s| ==> !less(s[j], y)
    requires !less(x, y)
    ensures forall j :: 0 <= j < |t| ==> !less(t[j], y)
  {
    forall j | 0 <= j < |t| ensures !less(t[j], y) {
      assert t[j] in multiset(t);
      if t[j] != x {
        assert t[j] in multiset(s);
        var k :| 0 <= k < |s| && s[k] == t[j];
      }
    }
  }

  lemma {:induction false} InsertSorted<T(!new)>(less: (T, T) -> bool, x: T, s: seq<T>)
    requires StrictWeakOrder(less) && Sorted(less, s)
    ensures Sorted(less, Insert(less, x, s))
    decreases |s|
  {
    if s == [] || !less(s[0], x) {
      forall j | 0 <= j < |s| ensures !less(s[j], x) {
        if j > 0 {
          assert !less(s[j], s[0]);
        }
      }
      ConsSorted(less, x, s);
    } else {
      var t := Insert(less, x, s[1..]);
      assert Sorted(less, s[1..]) by {
        forall i, j | 0 <= i < j < |s[1..]| ensures !less(s[1..][j], s[1..][i]) {
          assert s[1..][i] == s[i + 1] && s[1..][j] == s[j + 1];
        }
      }
      InsertSorted(less, x, s[1..]);
      assert forall j :: 0 <= j < |s[1..]| ==> !less(s[1..][j], s[0]) by {
        forall j | 0 <= j < |s[1..]| ensures !less(s[1..][j], s[0]) {
          assert s[1..][j] == s[j + 1];
        }
      }
      NoneLessAfterInsert(less, s[0], x, s[1..], t);
      ConsSorted(less, s[0], t);
    }
  }

  lemma {:induction false} SortBySorted<T(!new)>(less: (T, T) -> bool, s: seq<T>)
    requires StrictWeakOrder(less)
    ensures Sorted(less, SortBy(less, s))
  {
    if s != [] {
      SortBySorted(less, s[1..]);
      InsertSorted(less, s[0], SortBy(less, s[1..]));
    }
  }

  /** Two sorted permutations of the same elements start with the same element. */
  lemma SortedSameHead<T>(less: (T, T) -> bool, s: seq<T>, t: seq<T>)
    requires Sorted(less, s) && Sorted(less, t) && Connected(less, s)
    requires multiset(s) == multiset(t) && s != []
    ensures t != [] && s[0] == t[0]
  {
    assert s[0] in multiset(t);
    var j :| 0 <= j < |t| && t[j] == s[0];
    assert t[0] in multiset(s);
    var k :| 0 <= k < |s| && s[k] == t[0];
    if s[0] != t[0] {
      assert false;
    }
  }

  lemma SameHeadSameTail<T>(s: seq<T>, t: seq<T>)
    requires s != [] && t != [] && s[0] == t[0] && multiset(s) == multiset(t)
    ensures multiset(s[1..]) == multiset(t[1..])
  {
    assert s == [s[0]] + s[1..] && t == [t[0]] + t[1..];
    assert multiset(s) == multiset{s[0]} + multiset(s[1..]);
    assert multiset(t) == multiset{t[0]} + multiset(t[1..]);
    forall x ensures multiset(s[1..])[x] == multiset(t[1..])[x] {
      assert multiset(s)[x] == multiset{s[0]}[x] + multiset(s[1..])[x];
      assert multiset(t)[x] == multiset{t[0]}[x] + multiset(t[1..])[x];
    }
  }

  lemma TailSortedConnected<T>(less: (T, T) -> bool, s: seq<T>)
    requires s != []
    ensures Sorted(less, s) ==> Sorted(less, s[1..])
    ensures Connected(less, s) ==> Connected(less, s[1..])
  {
    assert forall i :: 0 <= i < |s[1..]| ==> s[1..][i] == s[i + 1];
  }

  /**
   * When `less` orders every two different elements, the sorted arrangement is
   * unique: any two sorted permutations of the same elements are equal. So the
   * insertion sort gives the same sequence as any other correct sort.
   */
  lemma {:induction false} SortedUnique<T>(less: (T, T) -> bool, s: seq<T>, t: seq<T>)
    requires Sorted(less, s) && Sorted(less, t) && Connected(less, s)
    requires multiset(s) == multiset(t)
    ensures s == t
  {
    if s == [] {
      assert |t| == |multiset(t)| == 0;
    } else {
      SortedSameHead(less, s, t);
      SameHeadSameTail(s, t);
      TailSortedConnected(less, s);
      TailSortedConnected(less, t);
      SortedUnique(less, s[1..], t[1..]);
      assert s == [s[0]] + s[1..] && t == [t[0]] + t[1..];
    }
  }
}

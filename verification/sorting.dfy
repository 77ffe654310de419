/** Python's `sorted(xs, key=...)`: a stable sort on an integer key. With
    `reverse=True` Python still keeps equal elements in their original order,
    which is the stable ascending sort on the negated key. */
module Sorting {

  predicate SortedBy<T>(s: seq<T>, key: T -> int) {
    forall i, j :: 0 <= i < j < |s| ==> key(s[i]) <= key(s[j])
  }

  /** The elements of `s` whose key is `v`, in their order in `s`. */
  function WithKey<T>(s: seq<T>, key: T -> int, v: int): seq<T> {
    if |s| == 0 then [] else (if key(s[0]) == v then [s[0]] else []) + WithKey(s[1..], key, v)
  }

  /** Insert `x` in front of the first element whose key is not smaller. */
  function Insert<T>(x: T, s: seq<T>, key: T -> int): seq<T> {
    if |s| == 0 || key(x) <= key(s[0]) then [x] + s
    else [s[0]] + Insert(x, s[1..], key)
  }

  /** Stable insertion sort: the first element is inserted into the sorted
      rest, in front of every element with an equal key. */
  function SortBy<T>(s: seq<T>, key: T -> int): seq<T> {
    if |s| == 0 then [] else Insert(s[0], SortBy(s[1..], key), key)
  }

  lemma {:induction false} InsertPerm<T>(x: T, s: seq<T>, key: T -> int)
    ensures multiset(Insert(x, s, key)) == multiset(s) + multiset{x}
    ensures |Insert(x, s, key)| == |s| + 1
  {
    if |s| > 0 && key(x) > key(s[0]) {
      InsertPerm(x, s[1..], key);
      assert s == [s[0]] + s[1..];
    }
  }

  /** Inserting an element no smaller than a bound keeps every key above
      the bound. */
  lemma {:induction false} InsertLowerBound<T>(x: T, s: seq<T>, key: T -> int, v: int)
    requires key(x) >= v
    requires forall i :: 0 <= i < |s| ==> key(s[i]) >= v
    ensures forall i :: 0 <= i < |Insert(x, s, key)| ==> key(Insert(x, s, key)[i]) >= v
  {
    if |s| > 0 && key(x) > key(s[0]) {
      InsertLowerBound(x, s[1..], key, v);
      var q := [s[0]] + Insert(x, s[1..], key);
      assert forall i :: 1 <= i < |q| ==> q[i] == Insert(x, s[1..], key)[i - 1];
    } else {
      var q := [x] + s;
      assert forall i :: 1 <= i < |q| ==> q[i] == s[i - 1];
    }
  }

  lemma {:induction false} InsertSorted<T>(x: T, s: seq<T>, key: T -> int)
    requires SortedBy(s, key)
    ensures SortedBy(Insert(x, s, key), key)
  {
    if |s| > 0 && key(x) > key(s[0]) {
      InsertSorted(x, s[1..], key);
      var r := Insert(x, s[1..], key);
      assert forall i :: 0 <= i < |s[1..]| ==> key(s[1..][i]) >= key(s[0]) by {
        forall i | 0 <= i < |s[1..]| ensures key(s[1..][i]) >= key(s[0]) {
          assert s[1..][i] == s[i + 1];
        }
      }
      InsertLowerBound(x, s[1..], key, key(s[0]));
      var q := [s[0]] + r;
      forall i, j | 0 <= i < j < |q| ensures key(q[i]) <= key(q[j]) {
        assert q[j] == r[j - 1];
        if i > 0 {
          assert q[i] == r[i - 1];
        }
      }
    } else {
      var q := [x] + s;
      forall i, j | 0 <= i < j < |q| ensures key(q[i]) <= key(q[j]) {
        if i > 0 {
          assert q[i] == s[i - 1] && q[j] == s[j - 1];
        } else if |s| > 0 {
          assert key(s[0]) <= key(s[j - 1]);
        }
      }
    }
  }

  lemma {:induction false} InsertWithKey<T>(x: T, s: seq<T>, key: T -> int, v: int)
    ensures WithKey(Insert(x, s, key), key, v)
      == (if key(x) == v then [x] else []) + WithKey(s, key, v)
  {
    if |s| == 0 || key(x) <= key(s[0]) {
      var q := [x] + s;
      assert q[0] == x && q[1..] == s;
    } else {
      InsertWithKey(x, s[1..], key, v);
      var q := [s[0]] + Insert(x, s[1..], key);
      assert q[0] == s[0] && q[1..] == Insert(x, s[1..], key);
      var head: seq<T> := if key(s[0]) == v then [s[0]] else [];
      var mid: seq<T> := if key(x) == v then [x] else [];
      assert WithKey(q, key, v) == head + (mid + WithKey(s[1..], key, v));
      assert WithKey(s, key, v) == head + WithKey(s[1..], key, v);
      assert head == [] || mid == [];
    }
  }

  /** The result is ordered by key, is a permutation of the input, and keeps
      the input order among elements with equal keys. */
  lemma {:induction false} SortBySpec<T>(s: seq<T>, key: T -> int)
    ensures SortedBy(SortBy(s, key), key)
    ensures multiset(SortBy(s, key)) == multiset(s)
    ensures |SortBy(s, key)| == |s|
    ensures SameGroups(SortBy(s, key), s, key)
  {
    SortBySorted(s, key);
    SortByPerm(s, key);
    SortByGroups(s, key);
  }

  lemma {:induction false} SortBySorted<T>(s: seq<T>, key: T -> int)
    ensures SortedBy(SortBy(s, key), key)
  {
    if |s| > 0 {
      SortBySorted(s[1..], key);
      InsertSorted(s[0], SortBy(s[1..], key), key);
    }
  }

  lemma {:induction false} SortByPerm<T>(s: seq<T>, key: T -> int)
    ensures multiset(SortBy(s, key)) == multiset(s)
    ensures |SortBy(s, key)| == |s|
  {
    if |s| > 0 {
      var r := SortBy(s[1..], key);
      SortByPerm(s[1..], key);
      InsertPerm(s[0], r, key);
      MultisetCons(s);
      calc {
        multiset(SortBy(s, key));
        multiset(Insert(s[0], r, key));
        multiset(r) + multiset{s[0]};
        multiset(s[1..]) + multiset{s[0]};
        multiset(s);
      }
    }
  }

  lemma MultisetCons<T>(s: seq<T>)
    requires |s| > 0
    ensures multiset(s) == multiset(s[1..]) + multiset{s[0]}
  {
    assert s == [s[0]] + s[1..];
  }

  lemma {:induction false} SortByGroups<T>(s: seq<T>, key: T -> int)
    ensures SameGroups(SortBy(s, key), s, key)
  {
    if |s| > 0 {
      SortByGroups(s[1..], key);
      var r := SortBy(s[1..], key);
      forall v ensures WithKey(SortBy(s, key), key, v) == WithKey(s, key, v) {
        InsertWithKey(s[0], r, key, v);
        assert WithKey(r, key, v) == WithKey(s[1..], key, v);
      }
    }
  }


  /** A suffix of a sorted sequence is sorted. */
  lemma SortedSuffix<T>(s: seq<T>, key: T -> int, k: nat)
    requires SortedBy(s, key) && k <= |s|
    ensures SortedBy(s[k..], key)
  {
    forall i, j | 0 <= i < j < |s[k..]| ensures key(s[k..][i]) <= key(s[k..][j]) {
      assert s[k..][i] == s[k + i] && s[k..][j] == s[k + j];
    }
  }

  /** The head of a sorted sequence has the least key. */
  lemma SortedHeadLeast<T>(s: seq<T>, key: T -> int, x: T)
    requires SortedBy(s, key) && |s| > 0 && x in s
    ensures key(s[0]) <= key(x)
  {
    var j :| 0 <= j < |s| && s[j] == x;
    if j > 0 {
      assert key(s[0]) <= key(s[j]);
    }
  }

  lemma {:induction false} WithKeyHead<T>(s: seq<T>, key: T -> int)
    requires |s| > 0
    ensures WithKey(s, key, key(s[0])) != []
  {
  }

  lemma {:induction false} WithKeyMember<T>(s: seq<T>, key: T -> int, v: int)
    requires WithKey(s, key, v) != []
    ensures exists i :: 0 <= i < |s| && key(s[i]) == v
  {
    if key(s[0]) != v {
      WithKeyMember(s[1..], key, v);
      var i :| 0 <= i < |s[1..]| && key(s[1..][i]) == v;
      assert key(s[i + 1]) == v;
    }
  }

  /** `a` and `b` hold the same elements of every key, in the same order. */
  ghost predicate SameGroups<T>(a: seq<T>, b: seq<T>, key: T -> int) {
    forall v :: WithKey(a, key, v) == WithKey(b, key, v)
  }

  /** Dropping a common head keeps per-key agreement. */
  lemma WithKeyTail<T>(a: seq<T>, b: seq<T>, key: T -> int)
    requires |a| > 0 && |b| > 0 && a[0] == b[0]
    requires SameGroups(a, b, key)
    ensures SameGroups(a[1..], b[1..], key)
  {
    forall u ensures WithKey(a[1..], key, u) == WithKey(b[1..], key, u) {
      assert WithKey(a, key, u) == WithKey(b, key, u);
      if key(a[0]) == u {
        assert ([a[0]] + WithKey(a[1..], key, u))[1..] == WithKey(a[1..], key, u);
        assert ([b[0]] + WithKey(b[1..], key, u))[1..] == WithKey(b[1..], key, u);
      } else {
        assert WithKey(a, key, u) == WithKey(a[1..], key, u);
        assert WithKey(b, key, u) == WithKey(b[1..], key, u);
      }
    }
  }

  /** If `a` is sorted and holds an element of `b`'s head key, its own head
      key is no larger. */
  lemma SortedHeadBelow<T>(a: seq<T>, b: seq<T>, key: T -> int)
    requires SortedBy(a, key) && |b| > 0 && SameGroups(a, b, key)
    ensures |a| > 0 && key(a[0]) <= key(b[0])
  {
    var v := key(b[0]);
    WithKeyHead(b, key);
    assert WithKey(a, key, v) == WithKey(b, key, v);
    WithKeyMember(a, key, v);
    var i :| 0 <= i < |a| && key(a[i]) == v;
    if i > 0 {
      assert key(a[0]) <= key(a[i]);
    }
  }

  /** Two sorted sequences with the same groups start with the same element. */
  lemma SortedHeadsAgree<T>(a: seq<T>, b: seq<T>, key: T -> int)
    requires SortedBy(a, key) && SortedBy(b, key) && |a| > 0
    requires SameGroups(a, b, key)
    ensures |b| > 0 && a[0] == b[0]
  {
    WithKeyHead(a, key);
    var v := key(a[0]);
    assert WithKey(b, key, v) == WithKey(a, key, v);
    assert |b| > 0;
    SortedHeadBelow(a, b, key);
    SortedHeadBelow(b, a, key);
    assert key(b[0]) == v;
    assert WithKey(a, key, v) == [a[0]] + WithKey(a[1..], key, v);
    assert WithKey(b, key, v) == [b[0]] + WithKey(b[1..], key, v);
    assert a[0] == WithKey(a, key, v)[0] == WithKey(b, key, v)[0] == b[0];
  }

  /** Sorting by a key with stability determines the order completely: two
      sorted sequences that agree on the elements of every key, in order,
      are equal. So `SortBy` is the only stable sort. */
  lemma {:induction false} StableSortUnique<T>(a: seq<T>, b: seq<T>, key: T -> int)
    requires SortedBy(a, key) && SortedBy(b, key)
    requires SameGroups(a, b, key)
    ensures a == b
    decreases |a|
  {
    if |a| == 0 {
      if |b| > 0 {
        SortedHeadBelow(a, b, key);
      }
    } else {
      SortedHeadsAgree(a, b, key);
      WithKeyTail(a, b, key);
      SortedSuffix(a, key, 1);
      SortedSuffix(b, key, 1);
      StableSortUnique(a[1..], b[1..], key);
      assert a == [a[0]] + a[1..] && b == [b[0]] + b[1..];
    }
  }
}

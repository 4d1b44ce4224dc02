/** The orderings the comparison builtins rely on (b_lab/lab.py:115-129): each compares its
    argument list with `sorted(args)` or `sorted(set(args))`, ascending or, with
    `reverse = True`, descending. Modelled over the integers the arguments denote. */
module Sorting {
  import opened Seqs

  /** `a` may come before `b`: ascending order, or descending when `desc`. */
  predicate Le(a: int, b: int, desc: bool) {
    if desc then b <= a else a <= b
  }

  predicate Sorted(s: seq<int>, desc: bool) {
    forall i, j :: 0 <= i < j < |s| ==> Le(s[i], s[j], desc)
  }

  /** Strictly increasing, or strictly decreasing when `desc`. */
  predicate StrictlySorted(s: seq<int>, desc: bool) {
    forall i, j :: 0 <= i < j < |s| ==> Le(s[i], s[j], desc) && s[i] != s[j]
  }

  function Insert(x: int, s: seq<int>, desc: bool): (r: seq<int>)
    requires Sorted(s, desc)
    ensures Sorted(r, desc)
    ensures multiset(r) == multiset(s) + multiset{x}
  {
    if |s| == 0 then [x]
    else if Le(x, s[0], desc) then [x] + s
    else
      var t := Insert(x, s[1..], desc);
      assert s == [s[0]] + s[1..];
      assert forall k :: 0 <= k < |t| ==> Le(s[0], t[k], desc) by {
        forall k | 0 <= k < |t| ensures Le(s[0], t[k], desc) {
          assert t[k] in multiset(s[1..]) + multiset{x};
        }
      }
      [s[0]] + t
  }

  /** `sorted(s)` (with `reverse = desc`): the sorted permutation of `s`. */
  function Sort(s: seq<int>, desc: bool): (r: seq<int>)
    ensures Sorted(r, desc)
    ensures multiset(r) == multiset(s)
  {
    if |s| == 0 then []
    else
      assert s == [s[0]] + s[1..];
      Insert(s[0], Sort(s[1..], desc), desc)
  }

  /** Keeps the first occurrence of each value: the elements of `set(s)`. */
  function Dedup(s: seq<int>): (r: seq<int>)
    ensures Distinct(r)
    ensures forall x :: x in r <==> x in s
  {
    if |s| == 0 then []
    else
      var t := Dedup(s[1..]);
      if s[0] in t then t else [s[0]] + t
  }

  lemma {:induction false} DedupDistinct(s: seq<int>)
    requires Distinct(s)
    ensures Dedup(s) == s
  {
    if |s| > 0 {
      DedupDistinct(s[1..]);
      assert s[0] !in s[1..] by {
        forall k | 0 <= k < |s[1..]| ensures s[1..][k] != s[0] {
          assert s[1..][k] == s[k + 1];
        }
      }
      assert [s[0]] + s[1..] == s;
    }
  }

  lemma {:induction false} InsertDistinct(x: int, s: seq<int>, desc: bool)
    requires Sorted(s, desc) && Distinct(s) && x !in s
    ensures Distinct(Insert(x, s, desc))
  {
    var r := Insert(x, s, desc);
    if |s| > 0 && !Le(x, s[0], desc) {
      var t := Insert(x, s[1..], desc);
      assert x !in s[1..];
      InsertDistinct(x, s[1..], desc);
      assert s[0] !in multiset(s[1..]) + multiset{x} by {
        assert s == [s[0]] + s[1..];
        assert s[0] !in s[1..];
      }
      assert s[0] !in t;
    }
  }

  lemma {:induction false} SortDistinct(s: seq<int>, desc: bool)
    requires Distinct(s)
    ensures Distinct(Sort(s, desc))
  {
    if |s| > 0 {
      SortDistinct(s[1..], desc);
      var t := Sort(s[1..], desc);
      assert s == [s[0]] + s[1..];
      assert s[0] !in multiset(s[1..]);
      assert s[0] !in t;
      InsertDistinct(s[0], t, desc);
    }
  }

  lemma MultisetTail(a: seq<int>)
    requires |a| > 0
    ensures multiset(a[1..]) == multiset(a) - multiset{a[0]}
  {
    assert a == [a[0]] + a[1..];
  }

  /** Both sequences start with the least (greatest when `desc`) of their common values. */
  lemma SortedHeads(a: seq<int>, b: seq<int>, desc: bool)
    requires Sorted(a, desc) && Sorted(b, desc) && multiset(a) == multiset(b) && |a| > 0
    ensures |b| > 0 && a[0] == b[0]
  {
    assert a[0] in multiset(b);
    var j :| 0 <= j < |b| && b[j] == a[0];
    assert b[0] == b[j] || Le(b[0], b[j], desc);
    assert b[0] in multiset(a);
    var i :| 0 <= i < |a| && a[i] == b[0];
    assert i == 0 || Le(a[0], a[i], desc);
  }

  /** Two sorted sequences holding the same values are the same sequence. */
  lemma {:induction false} SortedUnique(a: seq<int>, b: seq<int>, desc: bool)
    requires Sorted(a, desc) && Sorted(b, desc) && multiset(a) == multiset(b)
    ensures a == b
  {
    if |a| > 0 {
      SortedHeads(a, b, desc);
      MultisetTail(a);
      MultisetTail(b);
      SortedUnique(a[1..], b[1..], desc);
      assert a == [a[0]] + a[1..] && b == [b[0]] + b[1..];
    } else {
      assert |b| == |multiset(b)| == 0;
    }
  }

  /** `args == sorted(args)` exactly when the arguments are already in order: `<=` and `>=`. */
  lemma SortFixedIff(s: seq<int>, desc: bool)
    ensures s == Sort(s, desc) <==> Sorted(s, desc)
  {
    if Sorted(s, desc) {
      SortedUnique(s, Sort(s, desc), desc);
    }
  }

  /** `args == sorted(set(args))` exactly when the arguments are strictly in order: `<`
      and `>`. */
  lemma SortSetFixedIff(s: seq<int>, desc: bool)
    ensures s == Sort(Dedup(s), desc) <==> StrictlySorted(s, desc)
  {
    if s == Sort(Dedup(s), desc) {
      SortDistinct(Dedup(s), desc);
    }
    if StrictlySorted(s, desc) {
      DedupDistinct(s);
      SortedUnique(s, Sort(s, desc), desc);
    }
  }
}

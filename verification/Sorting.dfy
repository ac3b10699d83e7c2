// Stable sorting by a total preorder: what Rust's `sort_by`, Python's `sorted` and JavaScript's
// `sort` all promise.
module Sorting {
  ghost predicate TotalPreorder<T(!new)>(le: (T, T) -> bool) {
    && (forall a, b :: le(a, b) || le(b, a))
    && (forall a, b, c :: le(a, b) && le(b, c) ==> le(a, c))
  }

  predicate Sorted<T>(le: (T, T) -> bool, s: seq<T>) {
    forall j, k :: 0 <= j < k < |s| ==> le(s[j], s[k])
  }

  /** Inserts `e` behind every element that is not greater. */
  function Insert<T>(le: (T, T) -> bool, s: seq<T>, e: T): seq<T> {
    if s == [] || le(s[|s| - 1], e) then s + [e]
    else Insert(le, s[..|s| - 1], e) + [s[|s| - 1]]
  }

  function Sort<T>(le: (T, T) -> bool, s: seq<T>): seq<T> {
    if s == [] then [] else Insert(le, Sort(le, s[..|s| - 1]), s[|s| - 1])
  }

  /** The elements of `s` that rank equal to `x`, in order. */
  function Ties<T>(le: (T, T) -> bool, s: seq<T>, x: T): seq<T> {
    if s == [] then []
    else
      var last := s[|s| - 1];
      Ties(le, s[..|s| - 1], x) + (if le(last, x) && le(x, last) then [last] else [])
  }

  lemma {:induction false} InsertPermutes<T(!new)>(le: (T, T) -> bool, s: seq<T>, e: T)
    ensures multiset(Insert(le, s, e)) == multiset(s) + multiset{e}
  {
    if s != [] && !le(s[|s| - 1], e) {
      var front, last := s[..|s| - 1], s[|s| - 1];
      assert s == front + [last];
      InsertPermutes(le, front, e);
    }
  }

  lemma {:induction false} InsertHolds<T(!new)>(le: (T, T) -> bool, s: seq<T>, e: T, x: T)
    requires x in Insert(le, s, e)
    ensures x in s || x == e
  {
    if s != [] && !le(s[|s| - 1], e) {
      var front, last := s[..|s| - 1], s[|s| - 1];
      assert Insert(le, s, e) == Insert(le, front, e) + [last];
      if x in Insert(le, front, e) {
        InsertHolds(le, front, e, x);
      }
    }
  }

  lemma {:induction false} AppendSorted<T(!new)>(le: (T, T) -> bool, s: seq<T>, last: T)
    requires Sorted(le, s) && forall x :: x in s ==> le(x, last)
    ensures Sorted(le, s + [last])
  {
    hide TotalPreorder;
    var r := s + [last];
    forall j, k | 0 <= j < k < |r| ensures le(r[j], r[k]) {
      assert r[j] == s[j];
      assert s[j] in s;
    }
  }

  lemma {:induction false} InsertSorted<T(!new)>(le: (T, T) -> bool, s: seq<T>, e: T)
    requires TotalPreorder(le) && Sorted(le, s)
    ensures Sorted(le, Insert(le, s, e))
  {
    if s == [] || le(s[|s| - 1], e) {
      forall x | x in s ensures le(x, e) {
        LastIsGreatest(le, s, x);
      }
      AppendSorted(le, s, e);
    } else {
      var front, last := s[..|s| - 1], s[|s| - 1];
      assert Sorted(le, front);
      InsertSorted(le, front, e);
      forall x | x in Insert(le, front, e) ensures le(x, last) {
        InsertHolds(le, front, e, x);
        if x in front {
          LastIsGreatest(le, s, x);
        }
      }
      AppendSorted(le, Insert(le, front, e), last);
    }
  }

  lemma {:induction false} InsertKeepsTies<T(!new)>(le: (T, T) -> bool, s: seq<T>, e: T, x: T)
    requires TotalPreorder(le)
    ensures Ties(le, Insert(le, s, e), x) == Ties(le, s, x) + (if le(e, x) && le(x, e) then [e] else [])
  {
    if s == [] || le(s[|s| - 1], e) {
      assert (s + [e])[..|s|] == s;
    } else {
      var front, last := s[..|s| - 1], s[|s| - 1];
      InsertKeepsTies(le, front, e, x);
      var r := Insert(le, front, e);
      assert (r + [last])[..|r|] == r;
    }
  }

  /** The result is a sorted permutation, and elements that rank equal keep their order. */
  lemma {:induction false} SortSorts<T(!new)>(le: (T, T) -> bool, s: seq<T>)
    requires TotalPreorder(le)
    ensures Sorted(le, Sort(le, s))
    ensures multiset(Sort(le, s)) == multiset(s)
    ensures forall x :: Ties(le, Sort(le, s), x) == Ties(le, s, x)
  {
    if s != [] {
      var front, last := s[..|s| - 1], s[|s| - 1];
      assert s == front + [last];
      SortSorts(le, front);
      InsertSorted(le, Sort(le, front), last);
      InsertPermutes(le, Sort(le, front), last);
      forall x ensures Ties(le, Sort(le, s), x) == Ties(le, s, x) {
        InsertKeepsTies(le, Sort(le, front), last, x);
      }
    }
  }

  lemma {:induction false} SortElements<T(!new)>(le: (T, T) -> bool, s: seq<T>, x: T)
    requires TotalPreorder(le)
    ensures x in Sort(le, s) <==> x in s
    ensures |Sort(le, s)| == |s|
  {
    SortSorts(le, s);
    assert x in Sort(le, s) <==> x in multiset(Sort(le, s));
    assert |multiset(Sort(le, s))| == |multiset(s)|;
  }

  lemma {:induction false} SortedStays<T>(le: (T, T) -> bool, s: seq<T>)
    requires Sorted(le, s)
    ensures Sort(le, s) == s
  {
    if s != [] {
      var front, last := s[..|s| - 1], s[|s| - 1];
      assert front != [] ==> le(front[|front| - 1], last);
      SortedStays(le, front);
      assert Insert(le, front, last) == front + [last];
    }
  }

  lemma {:induction false} LastIsGreatest<T>(le: (T, T) -> bool, s: seq<T>, x: T)
    requires Sorted(le, s) && x in s
    ensures x == s[|s| - 1] || le(x, s[|s| - 1])
  {
    var k :| 0 <= k < |s| && s[k] == x;
  }

  ghost predicate NoTies<T>(le: (T, T) -> bool, s: seq<T>) {
    forall a, b :: a in s && b in s && le(a, b) && le(b, a) ==> a == b
  }

  lemma {:induction false} SplitLast<T>(s: seq<T>)
    requires s != []
    ensures multiset(s[..|s| - 1]) == multiset(s) - multiset{s[|s| - 1]}
  {
    assert s == s[..|s| - 1] + [s[|s| - 1]];
  }

  lemma {:induction false} LastUnique<T>(le: (T, T) -> bool, s: seq<T>, t: seq<T>)
    requires Sorted(le, s) && Sorted(le, t) && multiset(s) == multiset(t)
    requires NoTies(le, s) && s != []
    ensures t != [] && s[|s| - 1] == t[|t| - 1]
  {
    assert s[0] in multiset(t);
    var a, b := s[|s| - 1], t[|t| - 1];
    assert a in multiset(t) && b in multiset(s);
    LastIsGreatest(le, s, b);
    LastIsGreatest(le, t, a);
  }

  lemma {:induction false} NoTiesPermutes<T>(le: (T, T) -> bool, s: seq<T>, t: seq<T>)
    requires NoTies(le, s) && multiset(s) == multiset(t)
    ensures NoTies(le, t)
  {
    forall x | x in t ensures x in s {
      assert x in multiset(t);
    }
  }

  lemma {:induction false} FrontSorted<T>(le: (T, T) -> bool, s: seq<T>)
    requires Sorted(le, s) && NoTies(le, s) && s != []
    ensures Sorted(le, s[..|s| - 1]) && NoTies(le, s[..|s| - 1])
  {
    forall x | x in s[..|s| - 1] ensures x in s { }
  }

  /** Without ties there is only one sorted arrangement, whatever the order before. */
  lemma {:induction false} SortedUnique<T>(le: (T, T) -> bool, s: seq<T>, t: seq<T>)
    requires Sorted(le, s) && Sorted(le, t) && multiset(s) == multiset(t)
    requires NoTies(le, s)
    ensures s == t
  {
    hide Sorted, NoTies;
    if s == [] {
      assert |multiset(t)| == 0;
    } else {
      LastUnique(le, s, t);
      SplitLast(s);
      SplitLast(t);
      FrontSorted(le, s);
      NoTiesPermutes(le, s, t);
      FrontSorted(le, t);
      SortedUnique(le, s[..|s| - 1], t[..|t| - 1]);
      assert s == s[..|s| - 1] + [s[|s| - 1]] && t == t[..|t| - 1] + [t[|t| - 1]];
    }
  }

  // ---------------------------------------------------------------- sequences without duplicates

  predicate NoDup<T(==)>(s: seq<T>) {
    forall j, k :: 0 <= j < k < |s| ==> s[j] != s[k]
  }

  lemma {:induction false} NoDupCounts<T>(s: seq<T>)
    ensures NoDup(s) <==> forall x :: multiset(s)[x] <= 1
  {
    if j, k :| 0 <= j < k < |s| && s[j] == s[k] {
      assert s == s[..j] + [s[j]] + s[j + 1..];
      assert s[j + 1..][k - j - 1] == s[k];
      assert s[k] in multiset(s[j + 1..]);
      assert multiset(s)[s[j]] >= 2;
    } else {
      NoDupCountsOnce(s);
    }
  }

  lemma {:induction false} NoDupCountsOnce<T>(s: seq<T>)
    requires NoDup(s)
    ensures forall x :: multiset(s)[x] <= 1
  {
    if s != [] {
      var front, last := s[..|s| - 1], s[|s| - 1];
      assert s == front + [last];
      NoDupCountsOnce(front);
      assert last !in front;
    }
  }

  /** A permutation of a sequence without duplicates has none either. */
  lemma {:induction false} NoDupPermutes<T>(s: seq<T>, t: seq<T>)
    requires NoDup(s) && multiset(s) == multiset(t)
    ensures NoDup(t)
  {
    NoDupCounts(s);
    NoDupCounts(t);
  }

  /** Sequences without duplicates that hold the same elements are permutations of each other. */
  lemma {:induction false} NoDupSameElements<T>(s: seq<T>, t: seq<T>)
    requires NoDup(s) && NoDup(t)
    requires forall x :: x in s <==> x in t
    ensures multiset(s) == multiset(t)
  {
    NoDupCounts(s);
    NoDupCounts(t);
    forall x ensures multiset(s)[x] == multiset(t)[x] {
      assert x in s <==> x in multiset(s);
      assert x in t <==> x in multiset(t);
    }
  }
}

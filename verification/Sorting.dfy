/** Python's `sorted`: a stable sort by a total preorder, here as insertion sort with the laws its
    callers rely on. `le(x, y)` reads "x may stand before y". */
module Sorting {
  import opened Prelude

  ghost predicate TotalPreorder<T(!new)>(le: (T, T) -> bool) {
    && (forall x, y :: le(x, y) || le(y, x))
    && (forall x, y, z :: le(x, y) && le(y, z) ==> le(x, z))
  }

  ghost predicate Ordered<T>(s: seq<T>, le: (T, T) -> bool) {
    forall i, j :: 0 <= i < j < |s| ==> le(s[i], s[j])
  }

  /** Puts `x` in front of the first element it may stand before. */
  function Insert<T>(x: T, s: seq<T>, le: (T, T) -> bool): seq<T> {
    if s == [] then [x]
    else if le(x, s[0]) then [x] + s
    else [s[0]] + Insert(x, s[1..], le)
  }

  function Sorted<T>(s: seq<T>, le: (T, T) -> bool): seq<T> {
    if s == [] then [] else Insert(s[0], Sorted(s[1..], le), le)
  }

  lemma {:induction false} InsertMembers<T>(x: T, s: seq<T>, le: (T, T) -> bool)
    ensures multiset(Insert(x, s, le)) == multiset(s) + multiset{x}
    ensures |Insert(x, s, le)| == |s| + 1
    ensures forall y :: y in Insert(x, s, le) <==> y == x || y in s
    decreases |s|
  {
    if s != [] && !le(x, s[0]) {
      InsertMembers(x, s[1..], le);
      assert s == [s[0]] + s[1..];
    } else if s != [] {
      assert [x] + s == [x] + s;
    }
  }

  lemma OrderedCons<T(!new)>(h: T, s: seq<T>, le: (T, T) -> bool)
    requires Ordered(s, le) && forall y :: y in s ==> le(h, y)
    ensures Ordered([h] + s, le)
  {
  }

  lemma {:induction false} InsertOrdered<T(!new)>(x: T, s: seq<T>, le: (T, T) -> bool)
    requires TotalPreorder(le) && Ordered(s, le)
    ensures Ordered(Insert(x, s, le), le)
    decreases |s|
  {
    if s != [] && !le(x, s[0]) {
      InsertOrdered(x, s[1..], le);
      InsertMembers(x, s[1..], le);
      forall y | y in Insert(x, s[1..], le) ensures le(s[0], y) {
        if y != x { var k :| 0 <= k < |s[1..]| && s[1..][k] == y; }
      }
      OrderedCons(s[0], Insert(x, s[1..], le), le);
    } else if s != [] {
      forall y | y in s ensures le(x, y) {
        var j :| 0 <= j < |s| && s[j] == y;
        if j > 0 { assert le(s[0], s[j]); }
      }
      OrderedCons(x, s, le);
    }
  }

  /** The result is an ordered permutation of the input. */
  lemma {:induction false} SortedCorrect<T(!new)>(s: seq<T>, le: (T, T) -> bool)
    requires TotalPreorder(le)
    ensures Ordered(Sorted(s, le), le) && multiset(Sorted(s, le)) == multiset(s) && |Sorted(s, le)| == |s|
    ensures forall y :: y in Sorted(s, le) <==> y in s
    decreases |s|
  {
    if s != [] {
      SortedCorrect(s[1..], le);
      InsertOrdered(s[0], Sorted(s[1..], le), le);
      InsertMembers(s[0], Sorted(s[1..], le), le);
      assert s == [s[0]] + s[1..];
    }
  }

  lemma BeforeCons<T(!new)>(h: T, s: seq<T>, a: T, b: T)
    requires Before(s, a, b)
    ensures Before([h] + s, a, b)
  {
    var i, j :| 0 <= i < j < |s| && s[i] == a && s[j] == b;
    assert ([h] + s)[i + 1] == a && ([h] + s)[j + 1] == b;
  }

  lemma BeforeFirst<T(!new)>(h: T, s: seq<T>, b: T)
    requires b in s
    ensures Before([h] + s, h, b)
  {
    var j :| 0 <= j < |s| && s[j] == b;
    assert ([h] + s)[0] == h && ([h] + s)[j + 1] == b;
  }

  /** Inserting keeps the relative order of what was there. */
  lemma {:induction false} InsertKeepsBefore<T(!new)>(x: T, s: seq<T>, le: (T, T) -> bool, a: T, b: T)
    requires Before(s, a, b)
    ensures Before(Insert(x, s, le), a, b)
    decreases |s|
  {
    if le(x, s[0]) {
      BeforeCons(x, s, a, b);
    } else {
      var i, j :| 0 <= i < j < |s| && s[i] == a && s[j] == b;
      if i == 0 {
        assert b in s[1..] by { assert s[1..][j - 1] == b; }
        InsertMembers(x, s[1..], le);
        BeforeFirst(a, Insert(x, s[1..], le), b);
      } else {
        assert s[1..][i - 1] == a && s[1..][j - 1] == b;
        InsertKeepsBefore(x, s[1..], le, a, b);
        BeforeCons(s[0], Insert(x, s[1..], le), a, b);
      }
    }
  }

  /** `x` ends up in front of everything it may stand before. */
  lemma {:induction false} InsertBefore<T(!new)>(x: T, s: seq<T>, le: (T, T) -> bool, b: T)
    requires TotalPreorder(le) && Ordered(s, le) && b in s && le(x, b)
    ensures Before(Insert(x, s, le), x, b)
    decreases |s|
  {
    if le(x, s[0]) {
      BeforeFirst(x, s, b);
    } else {
      assert b in s[1..] by {
        var j :| 0 <= j < |s| && s[j] == b;
        assert j > 0 && s[1..][j - 1] == b;
      }
      InsertBefore(x, s[1..], le, b);
      BeforeCons(s[0], Insert(x, s[1..], le), x, b);
    }
  }

  /** Stability: of two elements in allowed order, the earlier one stays in front. */
  lemma {:induction false} SortedStable<T(!new)>(s: seq<T>, le: (T, T) -> bool, i: nat, j: nat)
    requires TotalPreorder(le) && i < j < |s| && le(s[i], s[j])
    ensures Before(Sorted(s, le), s[i], s[j])
    decreases |s|
  {
    SortedCorrect(s[1..], le);
    if i == 0 {
      assert s[j] == s[1..][j - 1];
      InsertBefore(s[0], Sorted(s[1..], le), le, s[j]);
    } else {
      SortedStable(s[1..], le, i - 1, j - 1);
      InsertKeepsBefore(s[0], Sorted(s[1..], le), le, s[i], s[j]);
    }
  }

  lemma {:induction false} NoDupCount<T>(s: seq<T>, x: T)
    requires NoDup(s)
    ensures multiset(s)[x] <= 1
    decreases |s|
  {
    if s != [] {
      NoDupCount(s[1..], x);
      assert s == [s[0]] + s[1..];
      assert s[0] !in s[1..];
      assert s[0] == x ==> multiset(s[1..])[x] == 0;
    }
  }

  lemma NoDupByMultiset<T>(s: seq<T>, t: seq<T>)
    requires NoDup(s) && multiset(s) == multiset(t)
    ensures NoDup(t)
  {
    forall i, j | 0 <= i < j < |t| ensures t[i] != t[j] {
      if t[i] == t[j] {
        assert t == t[..i] + [t[i]] + t[i + 1..j] + [t[j]] + t[j + 1..];
        assert multiset(t)[t[i]] >= 2;
        NoDupCount(s, t[i]);
      }
    }
  }
}

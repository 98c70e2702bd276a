/**
 Ordered listings.  `ORDER BY` and `sort.Slice` both turn a finite set into the one
 sequence that lists it in order; this module defines that sequence for any strict total
 order, and the cursor operation that keyset paging is built on.
 */
module Order {
  import opened Basics

  ghost predicate StrictTotal<T(!new)>(less: (T, T) -> bool) {
    && (forall x :: !less(x, x))
    && (forall x, y, z :: less(x, y) && less(y, z) ==> less(x, z))
    && (forall x, y :: less(x, y) || x == y || less(y, x))
  }

  ghost predicate Ascending<T>(s: seq<T>, less: (T, T) -> bool) {
    forall i, j :: 0 <= i < j < |s| ==> less(s[i], s[j])
  }

  function Elements<T>(s: seq<T>): set<T> {
    set x | x in s
  }

  /** `s` lists exactly the members of `all`, in order. */
  ghost predicate Lists<T>(s: seq<T>, all: set<T>, less: (T, T) -> bool) {
    Ascending(s, less) && Elements(s) == all
  }

  /** Every finite set has a least member. */
  lemma {:induction false} LeastExists<T(!new)>(all: set<T>, less: (T, T) -> bool) returns (m: T)
    requires StrictTotal(less) && all != {}
    ensures m in all && forall x :: x in all && x != m ==> less(m, x)
  {
    m :| m in all;
    var rest := all - {m};
    if rest != {} {
      var n := LeastExists(rest, less);
      if less(n, m) {
        m := n;
      }
    }
  }

  lemma {:induction false} SortedExists<T(!new)>(all: set<T>, less: (T, T) -> bool)
    requires StrictTotal(less)
    ensures exists s :: Lists(s, all, less)
  {
    if all == {} {
      assert Lists([], all, less);
    } else {
      var m := LeastExists(all, less);
      SortedExists(all - {m}, less);
      var rest :| Lists(rest, all - {m}, less);
      var s := [m] + rest;
      forall i, j | 0 <= i < j < |s| ensures less(s[i], s[j]) {
        assert s[j] in Elements(rest);
      }
      assert Elements(s) == {m} + Elements(rest);
      assert Lists(s, all, less);
    }
  }

  lemma NoElements<T>(s: seq<T>)
    ensures Elements(s) == {} <==> s == []
  {
    if s != [] { assert s[0] in Elements(s); }
  }

  /** A listing is determined by the set it lists. */
  lemma {:induction false} ListingUnique<T(!new)>(a: seq<T>, b: seq<T>, all: set<T>, less: (T, T) -> bool)
    requires StrictTotal(less) && Lists(a, all, less) && Lists(b, all, less)
    ensures a == b
    decreases |a|
  {
    if a == [] || b == [] {
      NoElements(a);
      NoElements(b);
    } else {
      assert a[0] in Elements(b) && b[0] in Elements(a);
      assert a[0] == b[0];
      TailLists(a, all, less);
      TailLists(b, all, less);
      ListingUnique(a[1..], b[1..], all - {a[0]}, less);
      assert a == [a[0]] + a[1..] && b == [b[0]] + b[1..];
    }
  }

  lemma TailLists<T(!new)>(a: seq<T>, all: set<T>, less: (T, T) -> bool)
    requires StrictTotal(less) && Lists(a, all, less) && a != []
    ensures Lists(a[1..], all - {a[0]}, less)
  {
    assert a == [a[0]] + a[1..];
    forall x ensures x in a[1..] <==> x in all && x != a[0] {
      if x in a[1..] {
        var j :| 0 <= j < |a[1..]| && a[1..][j] == x;
        assert less(a[0], a[j + 1]);
        assert x in Elements(a);
      }
      if x in all {
        assert x in Elements(a);
      }
    }
  }

  /** The `ORDER BY` result. */
  ghost function Sorted<T(!new)>(all: set<T>, less: (T, T) -> bool): (s: seq<T>)
    requires StrictTotal(less)
    ensures Lists(s, all, less)
  {
    SortedExists(all, less);
    var s :| Lists(s, all, less);
    s
  }

  lemma {:induction false} AscendingSize<T(!new)>(s: seq<T>, all: set<T>, less: (T, T) -> bool)
    requires StrictTotal(less) && Lists(s, all, less)
    ensures |s| == |all|
    decreases |s|
  {
    if s == [] {
    } else {
      assert s[0] in Elements(s);
      TailLists(s, all, less);
      AscendingSize(s[1..], all - {s[0]}, less);
    }
  }

  /** What follows the cursor `c`: the loop that skips entries up to and including it. */
  function After<T>(s: seq<T>, less: (T, T) -> bool, c: T): (r: seq<T>)
    ensures |r| <= |s|
  {
    if s == [] then [] else if less(c, s[0]) then s else After(s[1..], less, c)
  }

  /** On an ordered listing the skip loop keeps exactly the members beyond the cursor. */
  lemma {:induction false} AfterSpec<T(!new)>(s: seq<T>, less: (T, T) -> bool, c: T) returns (k: nat)
    requires StrictTotal(less) && Ascending(s, less)
    ensures k <= |s| && After(s, less, c) == s[k..]
    ensures forall i :: 0 <= i < k ==> !less(c, s[i])
    ensures forall i :: k <= i < |s| ==> less(c, s[i])
  {
    if s == [] || less(c, s[0]) {
      k := 0;
      assert s[0..] == s;
    } else {
      var tail := s[1..];
      k := AfterSpec(tail, less, c);
      assert tail[k..] == s[k + 1..];
      assert forall i :: 1 <= i < |s| ==> s[i] == tail[i - 1];
      k := k + 1;
    }
  }

  /** Resuming after a member of the listing continues with its successor. */
  lemma {:induction false} AfterMember<T(!new)>(s: seq<T>, less: (T, T) -> bool, k: nat)
    requires StrictTotal(less) && Ascending(s, less) && k < |s|
    ensures After(s, less, s[k]) == s[k + 1..]
  {
    if k == 0 {
      if |s| > 1 {
        assert less(s[0], s[1]);
        assert s[1..][0] == s[1];
      }
    } else {
      assert !less(s[k], s[0]) by { assert less(s[0], s[k]); }
      AfterMember(s[1..], less, k - 1);
      assert s[1..][k..] == s[k + 1..];
    }
  }

  /** A suffix of a listing is a listing of its own members. */
  lemma SuffixAscending<T>(s: seq<T>, less: (T, T) -> bool, k: nat)
    requires Ascending(s, less) && k <= |s|
    ensures Ascending(s[k..], less) && Ascending(s[..k], less)
  {
  }

  /** What comes before `k`. */
  function Ahead<T>(all: set<T>, less: (T, T) -> bool, k: T): set<T> {
    set x | x in all && less(x, k)
  }

  /** The place of a member in the listing is the number of members before it. */
  lemma RankIsIndex<T(!new)>(s: seq<T>, all: set<T>, less: (T, T) -> bool, i: nat)
    requires StrictTotal(less) && Lists(s, all, less) && i < |s|
    ensures |Ahead(all, less, s[i])| == i
  {
    var front := s[..i];
    forall x ensures x in Ahead(all, less, s[i]) <==> x in Elements(front) {
      if x in all {
        assert x in Elements(s);
        var j :| 0 <= j < |s| && s[j] == x;
        if j < i {
          assert front[j] == x && less(s[j], s[i]);
        } else {
          assert !less(x, s[i]) by { if j > i { assert less(s[i], s[j]); } }
        }
      }
    }
    assert Ahead(all, less, s[i]) == Elements(front);
    SuffixAscending(s, less, i);
    AscendingSize(front, Elements(front), less);
  }

  /** A limit of `n` keeps exactly the members that have fewer than `n` before them. */
  lemma TakeIff<T(!new)>(s: seq<T>, all: set<T>, less: (T, T) -> bool, n: nat, k: T)
    requires StrictTotal(less) && Lists(s, all, less)
    ensures k in Take(s, n) <==> k in all && |Ahead(all, less, k)| < n
  {
    assert k in Elements(s) <==> k in s;
    assert k in Take(s, n) ==> k in s;
    if k in all {
      var i :| 0 <= i < |s| && s[i] == k;
      RankIsIndex(s, all, less, i);
      if i < n { assert Take(s, n)[i] == k; }
      if k in Take(s, n) {
        var j :| 0 <= j < |Take(s, n)| && Take(s, n)[j] == k;
        RankIsIndex(s, all, less, j);
      }
    }
  }

  /** Byte-wise string order, as `ORDER BY` and Go's `<` use it. */
  predicate StringLess(a: string, b: string) {
    b != [] && (a == [] || a[0] < b[0] || (a[0] == b[0] && StringLess(a[1..], b[1..])))
  }

  lemma {:induction false} StringLessIrreflexive(a: string)
    ensures !StringLess(a, a)
  {
    if a != [] { StringLessIrreflexive(a[1..]); }
  }

  lemma {:induction false} StringLessTransitive(a: string, b: string, c: string)
    requires StringLess(a, b) && StringLess(b, c)
    ensures StringLess(a, c)
  {
    if a != [] && a[0] == b[0] == c[0] {
      StringLessTransitive(a[1..], b[1..], c[1..]);
    }
  }

  lemma {:induction false} StringLessTotal(a: string, b: string)
    ensures StringLess(a, b) || a == b || StringLess(b, a)
  {
    if a != [] && b != [] && a[0] == b[0] {
      StringLessTotal(a[1..], b[1..]);
      assert a == [a[0]] + a[1..] && b == [b[0]] + b[1..];
    }
  }

  lemma StringOrder()
    ensures StrictTotal(StringLess)
  {
    forall x ensures !StringLess(x, x) { StringLessIrreflexive(x); }
    forall x, y, z | StringLess(x, y) && StringLess(y, z) ensures StringLess(x, z) {
      StringLessTransitive(x, y, z);
    }
    forall x, y ensures StringLess(x, y) || x == y || StringLess(y, x) { StringLessTotal(x, y); }
  }
}

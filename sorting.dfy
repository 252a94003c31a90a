// Three-way comparison results and the sort by a comparison function that
// Rust's `sort_by` / `sort_by_key` provide.  The sort is a library call in
// the source; here it is an insertion sort that puts each element after
// the last one not greater than it, so its result is fixed even for a
// comparison that is not a total order.  That equal elements keep their
// order, as they do in Rust, is not stated here.
module Sorting {

  datatype Ordering = Less | Equal | Greater {
    function Reverse(): Ordering
    {
      match this
      case Less => Greater
      case Equal => Equal
      case Greater => Less
    }
  }

  /// `Ord::cmp` on integers.
  function CmpInt(a: int, b: int): (r: Ordering)
    ensures r == Less <==> a < b
    ensures r == Equal <==> a == b
  {
    if a < b then Less else if a == b then Equal else Greater
  }

  /// Lexicographic comparison of integer sequences (`Ord` on slices).
  function LexCmp(a: seq<int>, b: seq<int>): (r: Ordering)
    ensures r == Equal <==> a == b
  {
    if a == [] && b == [] then Equal
    else if a == [] then Less
    else if b == [] then Greater
    else if a[0] != b[0] then CmpInt(a[0], b[0])
    else
      var r := LexCmp(a[1..], b[1..]);
      assert r == Equal ==> a == [a[0]] + a[1..] == [b[0]] + b[1..] == b;
      r
  }

  lemma {:induction false} LexCmpReverse(a: seq<int>, b: seq<int>)
    ensures LexCmp(a, b) == LexCmp(b, a).Reverse()
  {
    if a != [] && b != [] && a[0] == b[0] {
      LexCmpReverse(a[1..], b[1..]);
    }
  }

  lemma {:induction false} LexCmpTransitive(a: seq<int>, b: seq<int>, c: seq<int>)
    requires LexCmp(a, b) != Greater && LexCmp(b, c) != Greater
    ensures LexCmp(a, c) != Greater
  {
    if a != [] && b != [] && c != [] && a[0] == b[0] == c[0] {
      LexCmpTransitive(a[1..], b[1..], c[1..]);
    }
  }

  /// The code points of a string, compared lexicographically by `Ord` on `str`.
  function Codes(s: string): (r: seq<int>)
    ensures |r| == |s|
    ensures forall i :: 0 <= i < |s| ==> r[i] == s[i] as int
  {
    if s == [] then [] else [s[0] as int] + Codes(s[1..])
  }

  lemma CodesInjective(a: string, b: string)
    requires Codes(a) == Codes(b)
    ensures a == b
  {
    assert |a| == |b|;
    forall i | 0 <= i < |a| ensures a[i] == b[i] {
      assert Codes(a)[i] == Codes(b)[i];
    }
  }

  ghost predicate TotalPreorderOn<T(!new)>(cmp: (T, T) -> Ordering, xs: seq<T>)
  {
    (forall a, b :: a in xs && b in xs ==> cmp(a, b) == cmp(b, a).Reverse())
    && (forall a, b, c :: a in xs && b in xs && c in xs && cmp(a, b) != Greater && cmp(b, c) != Greater ==> cmp(a, c) != Greater)
  }

  ghost predicate SortedBy<T>(cmp: (T, T) -> Ordering, s: seq<T>)
  {
    forall i, j :: 0 <= i < j < |s| ==> cmp(s[i], s[j]) != Greater
  }

  /// Inserts `x` after the last element that is not greater than it.
  function InsertBy<T>(x: T, s: seq<T>, cmp: (T, T) -> Ordering): (r: seq<T>)
    ensures multiset(r) == multiset(s) + multiset{x}
  {
    if s == [] then [x]
    else if cmp(s[|s| - 1], x) == Greater then
      var r := InsertBy(x, s[..|s| - 1], cmp) + [s[|s| - 1]];
      assert s == s[..|s| - 1] + [s[|s| - 1]];
      r
    else s + [x]
  }

  /// `slice::sort_by`, as an insertion sort by `cmp`.
  function SortBy<T>(s: seq<T>, cmp: (T, T) -> Ordering): (r: seq<T>)
    ensures multiset(r) == multiset(s)
    ensures |r| == |s|
  {
    if s == [] then []
    else
      var r := InsertBy(s[|s| - 1], SortBy(s[..|s| - 1], cmp), cmp);
      assert s == s[..|s| - 1] + [s[|s| - 1]];
      assert |r| == |multiset(r)|;
      r
  }

  lemma {:induction false} InsertBySorted<T(!new)>(x: T, s: seq<T>, cmp: (T, T) -> Ordering, all: seq<T>)
    requires TotalPreorderOn(cmp, all)
    requires x in all && forall y :: y in s ==> y in all
    requires SortedBy(cmp, s)
    ensures SortedBy(cmp, InsertBy(x, s, cmp))
    decreases |s|
  {
    if s != [] && cmp(s[|s| - 1], x) == Greater {
      var p := s[..|s| - 1];
      assert forall y :: y in p ==> y in s;
      InsertBySorted(x, p, cmp, all);
      LastAfterInsert(x, s, cmp, all);
    } else if s != [] {
      AppendSorted(x, s, cmp, all);
    }
  }

  /// When the last element is greater than `x`, it stays last and is not
  /// less than anything before it.
  lemma LastAfterInsert<T(!new)>(x: T, s: seq<T>, cmp: (T, T) -> Ordering, all: seq<T>)
    requires TotalPreorderOn(cmp, all)
    requires x in all && forall y :: y in s ==> y in all
    requires SortedBy(cmp, s)
    requires s != [] && cmp(s[|s| - 1], x) == Greater
    requires SortedBy(cmp, InsertBy(x, s[..|s| - 1], cmp))
    ensures SortedBy(cmp, InsertBy(x, s, cmp))
  {
    var p := s[..|s| - 1];
    var l := s[|s| - 1];
    var q := InsertBy(x, p, cmp);
    var r := q + [l];
    assert InsertBy(x, s, cmp) == r;
    assert forall y :: y in q ==> y in multiset(q);
    forall i, j | 0 <= i < j < |r| ensures cmp(r[i], r[j]) != Greater {
      if j == |r| - 1 {
        var y := r[i];
        assert y in multiset(q);
        if y == x {
          assert cmp(x, l) == Less;
        } else {
          assert y in multiset(p);
          var k :| 0 <= k < |p| && p[k] == y;
          assert cmp(s[k], s[|s| - 1]) != Greater;
        }
      }
    }
  }

  /// Appending an element that is not less than the last one keeps the
  /// sequence sorted.
  lemma AppendSorted<T(!new)>(x: T, s: seq<T>, cmp: (T, T) -> Ordering, all: seq<T>)
    requires TotalPreorderOn(cmp, all)
    requires x in all && forall y :: y in s ==> y in all
    requires SortedBy(cmp, s)
    requires s != [] && cmp(s[|s| - 1], x) != Greater
    ensures SortedBy(cmp, s + [x])
  {
    var r := s + [x];
    forall i, j | 0 <= i < j < |r| ensures cmp(r[i], r[j]) != Greater {
      if j == |r| - 1 && i < |s| - 1 {
        assert cmp(s[i], s[|s| - 1]) != Greater;
        assert s[i] in all && s[|s| - 1] in all;
      }
    }
  }

  /// `sort_by` sorts when `cmp` is a total preorder on the elements.
  /// The sort of a sequence inserts its last element into the sort of
  /// the rest.
  lemma SortBySnoc<T>(s: seq<T>, cmp: (T, T) -> Ordering)
    requires s != []
    ensures SortBy(s, cmp) == InsertBy(s[|s| - 1], SortBy(s[..|s| - 1], cmp), cmp)
  {
  }

  lemma {:induction false} SortBySorted<T(!new)>(s: seq<T>, cmp: (T, T) -> Ordering)
    requires TotalPreorderOn(cmp, s)
    ensures SortedBy(cmp, SortBy(s, cmp))
    decreases |s|
  {
    if s != [] {
      var p := s[..|s| - 1];
      assert forall y :: y in p ==> y in s;
      assert TotalPreorderOn(cmp, p);
      SortBySorted(p, cmp);
      var sp := SortBy(p, cmp);
      assert forall y :: y in sp ==> y in multiset(sp);
      InsertBySorted(s[|s| - 1], sp, cmp, s);
    }
  }
}

/** `Array.prototype.sort` with a comparator, modelled as a stable insertion
    sort. `le(a, b)` stands for `compare(a, b) <= 0`. The result is always a
    permutation of the input; it is ordered whenever the comparator is total
    on the elements present, and ordered pairwise when it is also transitive. */
module Sorting {

  /** Every element is `le` its successor. */
  ghost predicate AdjacentSorted<T>(s: seq<T>, le: (T, T) -> bool)
  {
    forall i :: 0 < i < |s| ==> le(s[i - 1], s[i])
  }

  /** Every element is `le` every later element. */
  ghost predicate SortedBy<T>(s: seq<T>, le: (T, T) -> bool)
  {
    forall i, j :: 0 <= i < j < |s| ==> le(s[i], s[j])
  }

  /** Any two elements of `xs` are comparable one way or the other. */
  ghost predicate TotalOn<T>(xs: seq<T>, le: (T, T) -> bool)
  {
    forall a, b :: a in xs && b in xs ==> le(a, b) || le(b, a)
  }

  ghost predicate TransitiveOn<T>(xs: seq<T>, le: (T, T) -> bool)
  {
    forall a, b, c :: a in xs && b in xs && c in xs && le(a, b) && le(b, c) ==> le(a, c)
  }

  /** Puts `x` after every leading element that is `le` it. */
  function Insert<T>(x: T, s: seq<T>, le: (T, T) -> bool): (r: seq<T>)
    ensures |r| == |s| + 1
    ensures multiset(r) == multiset(s) + multiset{x}
    ensures r[0] == x || (s != [] && r[0] == s[0])
  {
    if s == [] then [x]
    else if !le(s[0], x) then [x] + s
    else
      assert s == [s[0]] + s[1..];
      [s[0]] + Insert(x, s[1..], le)
  }

  /** Sorts `s` by inserting its last element into the sorted rest. */
  function SortBy<T>(s: seq<T>, le: (T, T) -> bool): (r: seq<T>)
    ensures |r| == |s|
    ensures multiset(r) == multiset(s)
  {
    if s == [] then []
    else
      assert s == s[..|s| - 1] + [s[|s| - 1]];
      Insert(s[|s| - 1], SortBy(s[..|s| - 1], le), le)
  }

  lemma {:induction false} InsertSorted<T>(x: T, s: seq<T>, le: (T, T) -> bool)
    requires AdjacentSorted(s, le)
    requires TotalOn(s + [x], le)
    ensures AdjacentSorted(Insert(x, s, le), le)
  {
    if s != [] {
      assert s[0] in s + [x] && x in s + [x];
      if le(s[0], x) {
        var t := s[1..];
        assert TotalOn(t + [x], le) by {
          forall a | a in t + [x] ensures a in s + [x] {
            if a in t { assert a in s; }
          }
        }
        InsertSorted(x, t, le);
        var r := Insert(x, t, le);
        assert r[0] == x || r[0] == s[1];
        assert le(s[0], r[0]);
      }
    }
  }

  lemma SubsetTotal<T>(xs: seq<T>, ys: seq<T>, le: (T, T) -> bool)
    requires TotalOn(ys, le)
    requires forall a :: a in xs ==> a in ys
    ensures TotalOn(xs, le)
  {
  }

  /** With a comparator total on the input, the sort puts every element
      `le` its successor. */
  lemma {:induction false} SortBySorted<T>(s: seq<T>, le: (T, T) -> bool)
    requires TotalOn(s, le)
    ensures AdjacentSorted(SortBy(s, le), le)
  {
    if s != [] {
      var p, x := s[..|s| - 1], s[|s| - 1];
      SubsetTotal(p, s, le);
      SortBySorted(p, le);
      var q := SortBy(p, le);
      forall a | a in q + [x] ensures a in s {
        if a in q {
          assert a in multiset(q);
          assert a in multiset(p);
        }
      }
      SubsetTotal(q + [x], s, le);
      InsertSorted(x, q, le);
    }
  }

  /** Adjacent order plus transitivity gives order between any two positions. */
  lemma {:induction false} AdjacentToPairwise<T>(s: seq<T>, le: (T, T) -> bool)
    requires AdjacentSorted(s, le)
    requires TransitiveOn(s, le)
    ensures SortedBy(s, le)
  {
    forall i, j | 0 <= i < j < |s| ensures le(s[i], s[j]) {
      var k := i + 1;
      while k < j
        invariant i < k <= j
        invariant le(s[i], s[k])
      {
        assert le(s[k], s[k + 1]);
        assert s[i] in s && s[k] in s && s[k + 1] in s;
        k := k + 1;
      }
    }
  }
}

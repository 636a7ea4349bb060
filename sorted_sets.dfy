/** Sorted, duplicate-free integer lists.

    Several places in the core collect indices with push_back and then run
    `std::sort`, `std::unique` and `erase` (or `resize`) on the vector. Those are
    standard-library calls; their combined effect is captured here once, by
    `SortUnique`, together with the fact that a strictly increasing list is
    determined by its set of elements, so the result is the only possible one. */
module SortedSets {

  predicate StrictlyIncreasing(s: seq<int>) {
    forall i, j :: 0 <= i < j < |s| ==> s[i] < s[j]
  }

  function Elements(s: seq<int>): set<int> {
    set x | x in s
  }

  /** Inserts `x` into a strictly increasing list, dropping it if present. */
  function Insert(s: seq<int>, x: int): (r: seq<int>)
    requires StrictlyIncreasing(s)
    ensures StrictlyIncreasing(r)
    ensures Elements(r) == Elements(s) + {x}
    ensures |r| <= |s| + 1
  {
    if s == [] then [x]
    else if x < s[0] then [x] + s
    else if x == s[0] then s
    else
      var tail := Insert(s[1..], x);
      ConsElements(s[0], s[1..]);
      ConsElements(s[0], tail);
      ConsIncreasing(s[0], tail);
      [s[0]] + tail
  }

  lemma ConsElements(h: int, t: seq<int>)
    ensures Elements([h] + t) == {h} + Elements(t)
  {
    assert forall y :: y in [h] + t <==> y == h || y in t;
  }

  lemma ConsIncreasing(h: int, t: seq<int>)
    requires StrictlyIncreasing(t)
    requires forall y :: y in Elements(t) ==> h < y
    ensures StrictlyIncreasing([h] + t)
  {
    forall i, j | 0 <= i < j < |[h] + t| ensures ([h] + t)[i] < ([h] + t)[j] {
      assert t[j - 1] in Elements(t);
    }
  }

  /** The effect of `std::sort` followed by `std::unique` and erasing the tail. */
  function SortUnique(s: seq<int>): (r: seq<int>)
    ensures StrictlyIncreasing(r)
    ensures Elements(r) == Elements(s)
    ensures |r| <= |s|
  {
    if s == [] then []
    else
      var init := s[..|s| - 1];
      assert s == init + [s[|s| - 1]];
      assert Elements(s) == Elements(init) + {s[|s| - 1]};
      Insert(SortUnique(init), s[|s| - 1])
  }

  lemma {:induction false} IncreasingHeadIsMinimum(s: seq<int>, x: int)
    requires StrictlyIncreasing(s) && x in s
    ensures s[0] <= x
  {
  }

  lemma EmptyElements(s: seq<int>)
    ensures Elements(s) == {} <==> s == []
  {
    if s != [] { assert s[0] in Elements(s); }
  }

  /** A strictly increasing list is determined by its elements: whatever the
      order in which the indices were pushed, sort-then-unique yields one list. */
  lemma {:induction false} StrictlyIncreasingUnique(a: seq<int>, b: seq<int>)
    requires StrictlyIncreasing(a) && StrictlyIncreasing(b)
    requires Elements(a) == Elements(b)
    ensures a == b
  {
    if a == [] || b == [] {
      EmptyElements(a);
      EmptyElements(b);
    } else {
      assert a[0] in Elements(b) && b[0] in Elements(a);
      IncreasingHeadIsMinimum(b, a[0]);
      IncreasingHeadIsMinimum(a, b[0]);
      assert a[0] == b[0];
      assert Elements(a[1..]) == Elements(a) - {a[0]} by {
        assert a == [a[0]] + a[1..];
        forall x | x in a[1..] ensures x != a[0] {
          var k :| 0 <= k < |a[1..]| && a[1..][k] == x;
          assert a[k + 1] == x;
        }
      }
      assert Elements(b[1..]) == Elements(b) - {b[0]} by {
        assert b == [b[0]] + b[1..];
        forall x | x in b[1..] ensures x != b[0] {
          var k :| 0 <= k < |b[1..]| && b[1..][k] == x;
          assert b[k + 1] == x;
        }
      }
      StrictlyIncreasingUnique(a[1..], b[1..]);
      assert a == [a[0]] + a[1..] && b == [b[0]] + b[1..];
    }
  }

  /** Sorting and deduplicating does not depend on the push order: any two
      lists with the same elements give the same result. */
  lemma SortUniqueDependsOnlyOnElements(s: seq<int>, t: seq<int>)
    requires Elements(s) == Elements(t)
    ensures SortUnique(s) == SortUnique(t)
  {
    StrictlyIncreasingUnique(SortUnique(s), SortUnique(t));
  }

  /** Running sort-then-unique on an already sorted, duplicate-free list
      changes nothing. */
  lemma SortUniqueIdempotent(s: seq<int>)
    requires StrictlyIncreasing(s)
    ensures SortUnique(s) == s
  {
    StrictlyIncreasingUnique(SortUnique(s), s);
  }
}

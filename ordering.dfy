/**
 * The scheduling order: processes sorted ascending by size with the
 * comparator `(a, b) => a.size - b.size`. JavaScript's Array.prototype.sort
 * is stable, so processes of equal size keep their submission order.
 */
module Ordering {
  import opened Cells

  /** Sizes never decrease from left to right. */
  ghost predicate SortedBySize(s: seq<Process>) {
    forall i, j :: 0 <= i < j < |s| ==> s[i].size <= s[j].size
  }

  /** The processes of s whose size is k, in the order of s. */
  function OfSize(s: seq<Process>, k: nat): (r: seq<Process>)
    ensures |r| <= |s|
  {
    if s == [] then []
    else OfSize(s[..|s| - 1], k) + (if s[|s| - 1].size == k then [s[|s| - 1]] else [])
  }

  /**
   * Inserts x into s after every element whose size is at most x's size,
   * that is, after all of its equals.
   */
  function Insert(s: seq<Process>, x: Process): (r: seq<Process>)
    ensures |r| == |s| + 1
  {
    if s == [] || s[|s| - 1].size <= x.size then s + [x]
    else Insert(s[..|s| - 1], x) + [s[|s| - 1]]
  }

  /** The stable ascending-by-size order of s (insertion sort, from the left). */
  function SortBySize(s: seq<Process>): (r: seq<Process>)
    ensures |r| == |s|
  {
    if s == [] then [] else Insert(SortBySize(s[..|s| - 1]), s[|s| - 1])
  }

  lemma {:induction false} InsertSorted(s: seq<Process>, x: Process)
    requires SortedBySize(s)
    ensures SortedBySize(Insert(s, x))
  {
    if s != [] && s[|s| - 1].size > x.size {
      var front := s[..|s| - 1];
      InsertSorted(front, x);
      var r := Insert(front, x);
      InsertMembers(front, x);
      forall i | 0 <= i < |r| ensures r[i].size <= s[|s| - 1].size {
        assert r[i] in front || r[i] == x;
      }
    }
  }

  lemma {:induction false} InsertMembers(s: seq<Process>, x: Process)
    ensures multiset(Insert(s, x)) == multiset(s) + multiset{x}
    ensures forall p :: p in Insert(s, x) <==> p in s || p == x
  {
    if s != [] && s[|s| - 1].size > x.size {
      var front := s[..|s| - 1];
      InsertMembers(front, x);
      assert s == front + [s[|s| - 1]];
    }
  }

  lemma {:induction false} OfSizeAppend(a: seq<Process>, b: seq<Process>, k: nat)
    ensures OfSize(a + b, k) == OfSize(a, k) + OfSize(b, k)
  {
    if b != [] {
      assert (a + b)[..|a + b| - 1] == a + b[..|b| - 1];
      OfSizeAppend(a, b[..|b| - 1], k);
    } else {
      assert a + b == a;
    }
  }

  /** Inserting x adds x to the end of its own size class and changes no other. */
  lemma {:induction false} InsertOfSize(s: seq<Process>, x: Process, k: nat)
    ensures OfSize(Insert(s, x), k) == OfSize(s, k) + (if x.size == k then [x] else [])
  {
    if s != [] && s[|s| - 1].size > x.size {
      var front, last := s[..|s| - 1], s[|s| - 1];
      InsertOfSize(front, x, k);
      OfSizeAppend(Insert(front, x), [last], k);
      assert s == front + [last];
      OfSizeAppend(front, [last], k);
      assert OfSize([last], k) == if last.size == k then [last] else [] by {
        assert [last][..0] == [];
      }
    } else {
      OfSizeAppend(s, [x], k);
      assert OfSize([x], k) == if x.size == k then [x] else [] by {
        assert [x][..0] == [];
      }
    }
  }

  /** The sorted order is ascending by size. */
  lemma {:induction false} SortBySizeSorted(s: seq<Process>)
    ensures SortedBySize(SortBySize(s))
  {
    if s != [] {
      SortBySizeSorted(s[..|s| - 1]);
      InsertSorted(SortBySize(s[..|s| - 1]), s[|s| - 1]);
    }
  }

  /** The sorted order holds exactly the submitted processes. */
  lemma {:induction false} SortBySizePermutes(s: seq<Process>)
    ensures multiset(SortBySize(s)) == multiset(s)
  {
    if s != [] {
      SortBySizePermutes(s[..|s| - 1]);
      InsertMembers(SortBySize(s[..|s| - 1]), s[|s| - 1]);
      assert s == s[..|s| - 1] + [s[|s| - 1]];
    }
  }

  /** The sort is stable: each size class keeps its submission order. */
  lemma {:induction false} SortBySizeStable(s: seq<Process>, k: nat)
    ensures OfSize(SortBySize(s), k) == OfSize(s, k)
  {
    if s != [] {
      SortBySizeStable(s[..|s| - 1], k);
      InsertOfSize(SortBySize(s[..|s| - 1]), s[|s| - 1], k);
    }
  }

  /** Ids that are unique before sorting are unique after it. */
  ghost predicate DistinctIds(s: seq<Process>) {
    forall i, j :: 0 <= i < j < |s| ==> s[i].id != s[j].id
  }

  lemma {:induction false} SortBySizeDistinct(s: seq<Process>)
    requires DistinctIds(s)
    ensures DistinctIds(SortBySize(s))
  {
    if s != [] {
      var front, last := s[..|s| - 1], s[|s| - 1];
      var sorted := SortBySize(front);
      SortBySizeDistinct(front);
      SortBySizePermutes(front);
      assert forall p :: p in sorted ==> p in front by {
        forall p | p in sorted ensures p in front {
          assert p in multiset(sorted);
        }
      }
      InsertDistinct(sorted, last);
    }
  }

  lemma {:induction false} InsertDistinct(s: seq<Process>, x: Process)
    requires DistinctIds(s) && forall p :: p in s ==> p.id != x.id
    ensures DistinctIds(Insert(s, x))
  {
    if s != [] && s[|s| - 1].size > x.size {
      var front, last := s[..|s| - 1], s[|s| - 1];
      InsertDistinct(front, x);
      InsertMembers(front, x);
      var r := Insert(front, x);
      forall i | 0 <= i < |r| ensures r[i].id != last.id {
        assert r[i] in front || r[i] == x;
      }
    }
  }

  /**
   * `processes.sort((a, b) => a.size - b.size)` done in place; the array ends
   * up holding the stable ascending-by-size order of what it held.
   */
  method SortProcesses(a: array<Process>)
    modifies a
    ensures a[..] == SortBySize(old(a[..]))
  {
    ghost var orig := a[..];
    for i := 0 to a.Length
      invariant a[..] == SortBySize(orig[..i]) + orig[i..]
    {
      InsertNext(a, i);
      assert orig[..i + 1] == orig[..i] + [orig[i]];
      SortBySizeSnoc(orig[..i], orig[i]);
    }
    assert orig[..a.Length] == orig;
  }

  /**
   * One step of the sort: a[i] moves left past the larger elements of the
   * already sorted a[..i] and lands after its equals.
   */
  method InsertNext(a: array<Process>, i: nat)
    requires i < a.Length
    modifies a
    ensures a[..] == Insert(old(a[..i]), old(a[i])) + old(a[i + 1..])
  {
    ghost var sorted := a[..i];
    var key := a[i];
    var j := i;
    while j > 0 && a[j - 1].size > key.size
      invariant 0 <= j <= i
      invariant forall k :: 0 <= k < j ==> a[k] == old(a[k])
      invariant forall k :: j < k <= i ==> a[k] == old(a[k - 1])
      invariant forall k :: i < k < a.Length ==> a[k] == old(a[k])
      invariant forall k :: j <= k < i ==> sorted[k].size > key.size
    {
      a[j] := a[j - 1];
      j := j - 1;
    }
    a[j] := key;
    InsertAt(sorted, key, j);
    ghost var rest := old(a[i + 1..]);
    ghost var expected := sorted[..j] + [key] + sorted[j..] + rest;
    assert |expected| == a.Length;
    forall k | 0 <= k < a.Length ensures a[k] == expected[k] {
      if k < j {
        assert expected[k] == sorted[k];
      } else if k == j {
        assert expected[k] == key;
      } else if k <= i {
        assert expected[k] == sorted[k - 1];
      } else {
        assert expected[k] == rest[k - i - 1];
      }
    }
    assert a[..] == expected;
  }

  lemma {:induction false} SortBySizeSnoc(s: seq<Process>, x: Process)
    ensures SortBySize(s + [x]) == Insert(SortBySize(s), x)
  {
    assert (s + [x])[..|s|] == s;
  }

  /** Where Insert puts x: after the prefix of size at most x's, before the larger rest. */
  lemma {:induction false} InsertAt(s: seq<Process>, x: Process, j: nat)
    requires j <= |s|
    requires j == 0 || s[j - 1].size <= x.size
    requires forall k :: j <= k < |s| ==> s[k].size > x.size
    ensures Insert(s, x) == s[..j] + [x] + s[j..]
  {
    if j < |s| {
      var front := s[..|s| - 1];
      InsertAt(front, x, j);
      assert front[..j] == s[..j];
      assert s[j..] == front[j..] + [s[|s| - 1]];
    } else {
      assert s[..j] == s;
    }
  }
}

/**
  The list of plotted points and the way a new point is placed in it.

  The application keeps its points in a vector, pushes a new point at the
  end and re-sorts the vector by x with the standard library's stable sort,
  comparing x coordinates only. A stable sort is determined by what it must
  achieve: the result is ordered by x, and the points that share an x value
  appear in the order they had before. This module states that as
  `StableSortOf`, proves that it fixes the result uniquely, and proves that
  on an already sorted list it amounts to inserting the new point after
  every point whose x is not larger.
 */
module PointList {

  /** A data point (x, y). */
  type Point = (real, real)

  predicate SortedByX(s: seq<Point>)
  {
    forall i, j :: 0 <= i < j < |s| ==> s[i].0 <= s[j].0
  }

  /** The points of s whose x coordinate is k, in their order in s. */
  function WithX(s: seq<Point>, k: real): (r: seq<Point>)
    ensures |r| <= |s|
    ensures forall p :: p in r ==> p in s && p.0 == k
  {
    if s == [] then [] else (if s[0].0 == k then [s[0]] else []) + WithX(s[1..], k)
  }

  /** r is what a stable sort by x makes of s. */
  ghost predicate StableSortOf(r: seq<Point>, s: seq<Point>)
  {
    SortedByX(r) && forall k :: WithX(r, k) == WithX(s, k)
  }

  /** s with p placed after the last point whose x is at most p's x, found from the end. */
  function InsertByX(s: seq<Point>, p: Point): seq<Point>
  {
    if s == [] then [p]
    else if s[|s| - 1].0 <= p.0 then s + [p]
    else InsertByX(s[..|s| - 1], p) + [s[|s| - 1]]
  }

  lemma {:induction false} WithXAppend(a: seq<Point>, b: seq<Point>, k: real)
    ensures WithX(a + b, k) == WithX(a, k) + WithX(b, k)
  {
    if a == [] {
      assert a + b == b;
    } else {
      assert (a + b)[1..] == a[1..] + b;
      WithXAppend(a[1..], b, k);
    }
  }

  lemma {:induction false} InsertByXElements(s: seq<Point>, p: Point)
    ensures multiset(InsertByX(s, p)) == multiset(s) + multiset{p}
  {
    if s != [] && s[|s| - 1].0 > p.0 {
      var init, last := s[..|s| - 1], s[|s| - 1];
      assert s == init + [last];
      InsertByXElements(init, p);
    }
  }

  /** Inserting into a sorted list keeps it sorted. */
  lemma {:induction false} InsertByXSorted(s: seq<Point>, p: Point)
    requires SortedByX(s)
    ensures SortedByX(InsertByX(s, p))
  {
    if s != [] && s[|s| - 1].0 > p.0 {
      var init, last := s[..|s| - 1], s[|s| - 1];
      InsertByXSorted(init, p);
      InsertByXElements(init, p);
      var r := InsertByX(init, p);
      forall q | q in r ensures q.0 <= last.0 {
        assert q in multiset(init) + multiset{p};
        if q != p {
          assert q in init;
        }
      }
      assert InsertByX(s, p) == r + [last];
    }
  }

  /** Inserting p does to every group of equal x what appending p does. */
  lemma {:induction false} InsertByXStable(s: seq<Point>, p: Point, k: real)
    ensures WithX(InsertByX(s, p), k) == WithX(s + [p], k)
  {
    if s != [] && s[|s| - 1].0 > p.0 {
      var init, last := s[..|s| - 1], s[|s| - 1];
      assert s == init + [last];
      assert s + [p] == init + ([last] + [p]);
      InsertByXStable(init, p, k);
      WithXAppend(InsertByX(init, p), [last], k);
      WithXAppend(init, [p], k);
      WithXAppend(init, [last] + [p], k);
      WithXAppend([last], [p], k);
    }
  }

  /** On a sorted list, pushing p and sorting stably gives InsertByX(s, p). */
  lemma InsertByXSortsPush(s: seq<Point>, p: Point)
    requires SortedByX(s)
    ensures StableSortOf(InsertByX(s, p), s + [p])
  {
    InsertByXSorted(s, p);
    forall k ensures WithX(InsertByX(s, p), k) == WithX(s + [p], k) {
      InsertByXStable(s, p, k);
    }
  }

  lemma {:induction false} CountWithX(s: seq<Point>, p: Point)
    ensures multiset(WithX(s, p.0))[p] == multiset(s)[p]
  {
    if s != [] {
      assert s == [s[0]] + s[1..];
      CountWithX(s[1..], p);
    }
  }

  /** A stable sort is a permutation. */
  lemma StableSortPermutes(r: seq<Point>, s: seq<Point>)
    requires forall k :: WithX(r, k) == WithX(s, k)
    ensures multiset(r) == multiset(s)
  {
    forall p ensures multiset(r)[p] == multiset(s)[p] {
      CountWithX(r, p);
      CountWithX(s, p);
    }
  }

  lemma WithXFirst(s: seq<Point>)
    requires s != []
    ensures WithX(s, s[0].0) != [] && WithX(s, s[0].0)[0] == s[0]
  {
  }

  lemma WithXTail(s: seq<Point>, k: real)
    requires s != []
    ensures WithX(s[1..], k) == if s[0].0 == k then WithX(s, k)[1..] else WithX(s, k)
  {
  }

  /** Two sorted lists with the same equal-x groups start with the same point. */
  lemma HeadsAgree(a: seq<Point>, b: seq<Point>)
    requires SortedByX(a) && SortedByX(b) && a != [] && b != []
    requires forall k :: WithX(a, k) == WithX(b, k)
    ensures a[0] == b[0]
  {
    var ka, kb := a[0].0, b[0].0;
    assert WithX(a, ka) == WithX(b, ka) && WithX(a, kb) == WithX(b, kb);
    WithXFirst(a);
    WithXFirst(b);
    InGroupOrder(b, a[0]);
    InGroupOrder(a, b[0]);
    var ga, gb := WithX(a, ka), WithX(b, kb);
    assert ga[0] == a[0] && gb[0] == b[0];
    assert ga == gb;
  }

  /** A point of a sorted list has an x at least that of the list's first point. */
  lemma InGroupOrder(s: seq<Point>, p: Point)
    requires SortedByX(s) && s != [] && p in WithX(s, p.0)
    ensures s[0].0 <= p.0
  {
  }

  /** Lists with the same first point and the same equal-x groups have tails with the same groups. */
  lemma TailsAgree(a: seq<Point>, b: seq<Point>)
    requires a != [] && b != [] && a[0] == b[0]
    requires forall k :: WithX(a, k) == WithX(b, k)
    ensures forall k :: WithX(a[1..], k) == WithX(b[1..], k)
  {
    forall k ensures WithX(a[1..], k) == WithX(b[1..], k) {
      WithXTail(a, k);
      WithXTail(b, k);
    }
  }

  /** Two lists that are both stable sorts of the same points are equal. */
  lemma {:induction false} StableSortUnique(a: seq<Point>, b: seq<Point>)
    requires SortedByX(a) && SortedByX(b)
    requires forall k :: WithX(a, k) == WithX(b, k)
    ensures a == b
    decreases |a|
  {
    if a == [] {
      if b != [] {
        WithXFirst(b);
      }
    } else if b == [] {
      WithXFirst(a);
    } else {
      HeadsAgree(a, b);
      TailsAgree(a, b);
      StableSortUnique(a[1..], b[1..]);
      assert a == [a[0]] + a[1..];
      assert b == [b[0]] + b[1..];
    }
  }

  /** `sort_by` on x: a stable sort, here by insertion. */
  method SortByX(s: seq<Point>) returns (r: seq<Point>)
    ensures StableSortOf(r, s)
  {
    r := [];
    for i := 0 to |s|
      invariant SortedByX(r)
      invariant forall k :: WithX(r, k) == WithX(s[..i], k)
    {
      InsertByXSorted(r, s[i]);
      forall k ensures WithX(InsertByX(r, s[i]), k) == WithX(s[..i + 1], k) {
        InsertByXStable(r, s[i], k);
        WithXAppend(r, [s[i]], k);
        WithXAppend(s[..i], [s[i]], k);
        assert s[..i + 1] == s[..i] + [s[i]];
      }
      r := InsertByX(r, s[i]);
    }
    assert s[..|s|] == s;
  }
}

/**
 * Day 2, "I Was Told There Would Be No Math": wrapping paper and ribbon for a
 * list of boxes, each given as the three-element list `[l, w, h]` that the
 * input parser builds (so every dimension is a non-negative integer).
 */
module NoMath {

  /** A box's dimensions as the source holds them: a list of exactly three numbers. */
  predicate IsBox(d: seq<int>) {
    |d| == 3
  }

  predicate AllBoxes(boxes: seq<seq<int>>) {
    forall i :: 0 <= i < |boxes| ==> IsBox(boxes[i])
  }

  function Min3(a: int, b: int, c: int): (m: int)
    ensures m <= a && m <= b && m <= c
    ensures m == a || m == b || m == c
  {
    if a <= b && a <= c then a else if b <= c then b else c
  }

  /** Paper for one box exactly as computed: the doubled side areas plus half the smallest doubled area. */
  function Paper(d: seq<int>): int
    requires IsBox(d)
  {
    var lw, wh, hl := 2 * d[0] * d[1], 2 * d[1] * d[2], 2 * d[2] * d[0];
    lw + wh + hl + Min3(lw, wh, hl) / 2
  }

  /** The halving is exact: paper is the surface area plus the area of the smallest side. */
  lemma PaperIsSurfacePlusSmallestSide(d: seq<int>)
    requires IsBox(d)
    ensures Paper(d) == 2 * d[0] * d[1] + 2 * d[1] * d[2] + 2 * d[2] * d[0] + Min3(d[0] * d[1], d[1] * d[2], d[2] * d[0])
  {
    var a, b, c := d[0] * d[1], d[1] * d[2], d[2] * d[0];
    assert 2 * d[0] * d[1] == 2 * a && 2 * d[1] * d[2] == 2 * b && 2 * d[2] * d[0] == 2 * c;
    assert Min3(2 * a, 2 * b, 2 * c) == 2 * Min3(a, b, c);
  }

  /** The paper needed for all boxes. */
  function TotalPaper(boxes: seq<seq<int>>): int
    requires AllBoxes(boxes)
  {
    if boxes == [] then 0 else TotalPaper(boxes[..|boxes| - 1]) + Paper(boxes[|boxes| - 1])
  }

  /** The total is a sum: the paper for two lists of boxes is the paper for each, added. */
  lemma {:induction false} TotalPaperAppend(a: seq<seq<int>>, b: seq<seq<int>>)
    requires AllBoxes(a) && AllBoxes(b)
    ensures AllBoxes(a + b) && TotalPaper(a + b) == TotalPaper(a) + TotalPaper(b)
  {
    if b != [] {
      assert (a + b)[..|a + b| - 1] == a + b[..|b| - 1];
      TotalPaperAppend(a, b[..|b| - 1]);
    } else {
      assert a + b == a;
    }
  }

  predicate NonNegative(boxes: seq<seq<int>>) {
    forall i, k :: 0 <= i < |boxes| && 0 <= k < |boxes[i]| ==> boxes[i][k] >= 0
  }

  lemma {:induction false} TotalPaperNonNegative(boxes: seq<seq<int>>)
    requires AllBoxes(boxes) && NonNegative(boxes)
    ensures TotalPaper(boxes) >= 0
  {
    if boxes != [] {
      var d := boxes[|boxes| - 1];
      assert d[0] >= 0 && d[1] >= 0 && d[2] >= 0;
      assert d[0] * d[1] >= 0 && d[1] * d[2] >= 0 && d[2] * d[0] >= 0;
      TotalPaperNonNegative(boxes[..|boxes| - 1]);
    }
  }

  predicate Ascending(d: seq<int>)
    requires IsBox(d)
  {
    d[0] <= d[1] <= d[2]
  }

  /** The three dimensions in ascending order: what `size.sort()` leaves in the list. */
  function SortedBox(d: seq<int>): (s: seq<int>)
    requires IsBox(d)
    ensures IsBox(s) && Ascending(s)
    ensures forall k :: 0 <= k < 3 ==> s[k] == d[0] || s[k] == d[1] || s[k] == d[2]
  {
    var a, b, c := d[0], d[1], d[2];
    if a <= b && b <= c then [a, b, c]
    else if a <= c && c <= b then [a, c, b]
    else if c <= a && a <= b then [c, a, b]
    else if b <= a && a <= c then [b, a, c]
    else if b <= c && c <= a then [b, c, a]
    else [c, b, a]
  }

  lemma SwapFirstTwo(a: int, b: int, c: int)
    ensures multiset{b, a, c} == multiset{a, b, c}
  {
  }

  lemma SwapLastTwo(a: int, b: int, c: int)
    ensures multiset{a, c, b} == multiset{a, b, c}
  {
  }

  lemma MultisetOfBox(d: seq<int>)
    requires IsBox(d)
    ensures multiset(d) == multiset{d[0], d[1], d[2]}
  {
    assert d == [d[0], d[1], d[2]];
  }

  lemma AscendingTriplesEqual(a: int, b: int, c: int, x: int, y: int, z: int)
    requires a <= b <= c && x <= y <= z
    requires multiset{a, b, c} == multiset{x, y, z}
    ensures a == x && b == y && c == z
  {
    assert a in multiset{x, y, z} && x in multiset{a, b, c};
    assert c in multiset{x, y, z} && z in multiset{a, b, c};
    assert multiset{a, b, c}[b] == multiset{x, y, z}[b];
  }

  /** There is only one ascending arrangement of three numbers. */
  lemma AscendingUnique(s: seq<int>, t: seq<int>)
    requires IsBox(s) && IsBox(t) && Ascending(s) && Ascending(t)
    requires multiset(s) == multiset(t)
    ensures s == t
  {
    MultisetOfBox(s);
    MultisetOfBox(t);
    AscendingTriplesEqual(s[0], s[1], s[2], t[0], t[1], t[2]);
    assert s == [s[0], s[1], s[2]] && t == [t[0], t[1], t[2]];
  }

  /** Sorting only rearranges: the sorted list holds the same dimensions. */
  lemma SortedBoxPermutes(d: seq<int>)
    requires IsBox(d)
    ensures multiset(SortedBox(d)) == multiset(d)
  {
    var s, a, b, c := SortedBox(d), d[0], d[1], d[2];
    MultisetOfBox(d);
    MultisetOfBox(s);
    if a <= b && b <= c {
    } else if a <= c && c <= b {
      SwapLastTwo(a, b, c);
    } else if c <= a && a <= b {
      SwapLastTwo(a, b, c);
      SwapFirstTwo(a, c, b);
    } else if b <= a && a <= c {
      SwapFirstTwo(a, b, c);
    } else if b <= c && c <= a {
      SwapFirstTwo(a, b, c);
      SwapLastTwo(b, a, c);
    } else {
      SwapFirstTwo(a, b, c);
      SwapLastTwo(b, a, c);
      SwapFirstTwo(b, c, a);
    }
  }

  /** Sorting a sorted list leaves it as it is. */
  lemma SortedBoxIdempotent(d: seq<int>)
    requires IsBox(d)
    ensures SortedBox(SortedBox(d)) == SortedBox(d)
  {
    SortedBoxPermutes(d);
    SortedBoxPermutes(SortedBox(d));
    AscendingUnique(SortedBox(SortedBox(d)), SortedBox(d));
  }

  /** Ribbon for one box: the smallest perimeter, 2 * smallest + 2 * middle, plus the volume for the bow. */
  function Ribbon(d: seq<int>): int
    requires IsBox(d)
  {
    var s := SortedBox(d);
    2 * s[0] + 2 * s[1] + s[0] * s[1] * s[2]
  }

  /** The ribbon does not depend on the order in which the dimensions are listed. */
  lemma RibbonIgnoresOrder(d: seq<int>, e: seq<int>)
    requires IsBox(d) && IsBox(e) && multiset(d) == multiset(e)
    ensures Ribbon(d) == Ribbon(e)
  {
    SortedBoxPermutes(d);
    SortedBoxPermutes(e);
    AscendingUnique(SortedBox(d), SortedBox(e));
  }

  lemma RibbonNonNegative(d: seq<int>)
    requires IsBox(d) && d[0] >= 0 && d[1] >= 0 && d[2] >= 0
    ensures Ribbon(d) >= 0
  {
    var s := SortedBox(d);
    var a, b, c := s[0], s[1], s[2];
    assert a >= 0 && b >= 0 && c >= 0;
    assert a * b >= 0;
    assert (a * b) * c >= 0;
    assert Ribbon(d) == 2 * a + 2 * b + (a * b) * c;
  }

  /** The ribbon needed for all boxes. */
  function TotalRibbon(boxes: seq<seq<int>>): int
    requires AllBoxes(boxes)
  {
    if boxes == [] then 0 else TotalRibbon(boxes[..|boxes| - 1]) + Ribbon(boxes[|boxes| - 1])
  }

  lemma {:induction false} TotalRibbonAppend(a: seq<seq<int>>, b: seq<seq<int>>)
    requires AllBoxes(a) && AllBoxes(b)
    ensures AllBoxes(a + b) && TotalRibbon(a + b) == TotalRibbon(a) + TotalRibbon(b)
  {
    if b != [] {
      assert (a + b)[..|a + b| - 1] == a + b[..|b| - 1];
      TotalRibbonAppend(a, b[..|b| - 1]);
    } else {
      assert a + b == a;
    }
  }

  lemma {:induction false} TotalRibbonNonNegative(boxes: seq<seq<int>>)
    requires AllBoxes(boxes) && NonNegative(boxes)
    ensures TotalRibbon(boxes) >= 0
  {
    if boxes != [] {
      var d := boxes[|boxes| - 1];
      RibbonNonNegative(d);
      TotalRibbonNonNegative(boxes[..|boxes| - 1]);
    }
  }

  /** Sorting a list that is either the original box or its sorted form gives the sorted box. */
  lemma SortedAgain(d: seq<int>, before: seq<int>)
    requires IsBox(d) && (before == d || before == SortedBox(d))
    ensures SortedBox(before) == SortedBox(d)
  {
    if before != d {
      SortedBoxIdempotent(d);
    }
  }

  /** One step of the ribbon total, with the box already sorted. */
  lemma RibbonStep(boxes: seq<seq<int>>, i: nat, s: seq<int>)
    requires AllBoxes(boxes) && i < |boxes| && s == SortedBox(boxes[i])
    ensures TotalRibbon(boxes[..i + 1]) == TotalRibbon(boxes[..i]) + 2 * s[0] + 2 * s[1] + s[0] * s[1] * s[2]
  {
    assert boxes[..i + 1][..i] == boxes[..i];
  }

  /** The current contents of the caller's dimension lists. */
  ghost function Contents(sizes: seq<array<int>>): (boxes: seq<seq<int>>)
    reads sizes
    ensures |boxes| == |sizes|
    ensures forall i :: 0 <= i < |sizes| ==> boxes[i] == sizes[i][..]
  {
    if sizes == [] then [] else Contents(sizes[..|sizes| - 1]) + [sizes[|sizes| - 1][..]]
  }

  predicate AllTriples(sizes: seq<array<int>>) {
    forall i :: 0 <= i < |sizes| ==> sizes[i].Length == 3
  }

  /** `get_total_square_feet`: the paper for every box; the lists are only read. */
  method GetTotalSquareFeet(sizes: seq<array<int>>) returns (total: int)
    requires AllTriples(sizes)
    ensures total == TotalPaper(Contents(sizes))
  {
    ghost var boxes := Contents(sizes);
    total := 0;
    for i := 0 to |sizes|
      invariant total == TotalPaper(boxes[..i])
    {
      var size := sizes[i];
      var lw := 2 * size[0] * size[1];
      var wh := 2 * size[1] * size[2];
      var hl := 2 * size[2] * size[0];
      total := total + lw + wh + hl + Min3(lw, wh, hl) / 2;
      assert boxes[..i + 1][..i] == boxes[..i];
    }
    assert boxes[..|sizes|] == boxes;
  }

  /** `size.sort()` on a three-element list: sorts it in place. */
  method SortDimensions(size: array<int>)
    requires size.Length == 3
    modifies size
    ensures size[..] == SortedBox(old(size[..]))
  {
    if size[0] > size[1] {
      size[0], size[1] := size[1], size[0];
    }
    if size[1] > size[2] {
      size[1], size[2] := size[2], size[1];
    }
    if size[0] > size[1] {
      size[0], size[1] := size[1], size[0];
    }
    assert size[..] == [size[0], size[1], size[2]];
  }

  /**
   * `get_total_ribbon_length`: the ribbon for every box. As a side effect every
   * list of dimensions is left sorted in place (lists that alias one another included).
   */
  method GetTotalRibbonLength(sizes: seq<array<int>>) returns (total: int)
    requires AllTriples(sizes)
    modifies sizes
    ensures forall i :: 0 <= i < |sizes| ==> sizes[i][..] == SortedBox(old(sizes[i][..]))
    ensures total == TotalRibbon(old(Contents(sizes)))
  {
    ghost var boxes := Contents(sizes);
    // two entries that are the same list start out with the same contents
    assert forall j, k :: 0 <= j < |sizes| && 0 <= k < |sizes| && sizes[j] == sizes[k] ==> boxes[j] == boxes[k];
    total := 0;
    for i := 0 to |sizes|
      invariant forall j :: 0 <= j < |sizes| ==> sizes[j][..] == boxes[j] || sizes[j][..] == SortedBox(boxes[j])
      invariant forall j :: 0 <= j < i ==> sizes[j][..] == SortedBox(boxes[j])
      invariant total == TotalRibbon(boxes[..i])
    {
      var size := sizes[i];
      ghost var before := size[..];
      label Unsorted:
      SortDimensions(size);
      SortedAgain(boxes[i], before);
      forall j | 0 <= j < |sizes|
        ensures sizes[j][..] == boxes[j] || sizes[j][..] == SortedBox(boxes[j])
        ensures j < i + 1 ==> sizes[j][..] == SortedBox(boxes[j])
      {
        if sizes[j] != size {
          assert sizes[j][..] == old@Unsorted(sizes[j][..]);
        }
      }
      var ribbon := 2 * size[0] + 2 * size[1] + size[0] * size[1] * size[2];
      RibbonStep(boxes, i, size[..]);
      total := total + ribbon;
    }
    assert boxes[..|sizes|] == boxes;
  }
}

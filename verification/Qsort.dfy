/** qsort of bsdlibc/gen/qsort.c; a record is an element of the array. */
module Qsort {
  import opened QsortOrder

  const THRESH: int := 4
  const MTHRESH: int := 6

  /** `y` lies between the other two. */
  predicate Median<T>(cmp: (T, T) -> int, x: T, y: T, z: T) {
    (Le(cmp, x, y) && Le(cmp, y, z)) || (Le(cmp, z, y) && Le(cmp, y, x))
  }

  /** `v` is one of the three, and lies between the others. */
  ghost predicate MedianOf<T(!new)>(cmp: (T, T) -> int, x: T, y: T, z: T, v: T) {
    (v == x && Median(cmp, y, v, z)) || (v == y && Median(cmp, x, v, z)) || (v == z && Median(cmp, x, v, y))
  }

  /** The place of the median of the first, the middle and the last element. */
  method MedianPlace<T(!new)>(cmp: (T, T) -> int, a: array<T>, base: nat, i: nat, max: nat) returns (j: nat)
    requires Preorder(cmp) && base < i < max - 1 < a.Length
    ensures j == base || j == i || j == max - 1
    ensures j == base ==> Median(cmp, a[i], a[j], a[max - 1])
    ensures j == i ==> Median(cmp, a[base], a[j], a[max - 1])
    ensures j == max - 1 ==> Median(cmp, a[base], a[j], a[i])
  {
    var jj, tmp := base, max - 1;
    j := if cmp(a[jj], a[i]) > 0 then jj else i;
    if cmp(a[j], a[tmp]) > 0 {
      j := if j == jj then i else jj;
      if cmp(a[j], a[tmp]) < 0 {
        j := tmp;
      }
    }
  }

  method Swap<T(!new)>(a: array<T>, i: nat, j: nat, ghost lo: int, ghost hi: int)
    requires 0 <= lo <= i < hi <= a.Length && lo <= j < hi
    modifies a
    ensures a[..] == old(a[..])[i := old(a[j])][j := old(a[i])] && Rearranged(old(a[..]), a[..], lo, hi)
  {
    Swapped(a[..], i, j, lo, hi);
    a[i], a[j] := a[j], a[i];
  }

  /** What the partitioning loop has done: nothing above the pivot before `i`, nothing below it behind `j`. */
  ghost predicate Parting<T(!new)>(cmp: (T, T) -> int, s: seq<T>, base: int, max: int, i: int, mid: int, j: int) {
    && 0 <= base <= i <= mid <= j < max <= |s|
    && (forall p :: base <= p < i ==> Le(cmp, s[p], s[mid]))
    && (forall p :: j < p < max ==> Le(cmp, s[mid], s[p]))
  }

  lemma PartingStart<T(!new)>(cmp: (T, T) -> int, s: seq<T>, base: int, max: int, m: int)
    requires 0 <= base <= m < max <= |s|
    ensures Parting(cmp, s, base, max, base, m, max - 1)
  {
  }

  lemma Parted<T(!new)>(cmp: (T, T) -> int, s: seq<T>, base: int, max: int, mid: int)
    requires Preorder(cmp) && Parting(cmp, s, base, max, mid, mid, mid)
    ensures Split(cmp, s, base, mid, max) && Split(cmp, s, base, mid + 1, max)
  {
    forall p, q | base <= p < q < max && p <= mid <= q
      ensures Le(cmp, s[p], s[q])
    {
      LeTotal(cmp, s[mid], s[mid]);
      LeTrans(cmp, s[p], s[mid], s[q]);
    }
  }

  /** The pivot changes places with a smaller element on the right. */
  lemma PivotRight<T(!new)>(cmp: (T, T) -> int, s: seq<T>, base: int, max: int, mid: int, j: int)
    requires Preorder(cmp) && Parting(cmp, s, base, max, mid, mid, j) && mid < j && Le(cmp, s[j], s[mid])
    ensures Parting(cmp, s[mid := s[j]][j := s[mid]], base, max, mid + 1, j, j)
  {
  }

  /** Two elements on either side of the pivot change places. */
  lemma Across<T(!new)>(cmp: (T, T) -> int, s: seq<T>, base: int, max: int, i: int, mid: int, j: int)
    requires Parting(cmp, s, base, max, i, mid, j) && i < mid < j && Le(cmp, s[j], s[mid]) && Le(cmp, s[mid], s[i])
    ensures Parting(cmp, s[i := s[j]][j := s[i]], base, max, i + 1, mid, j - 1)
  {
  }

  /** The pivot changes places with a larger element on the left. */
  lemma PivotLeft<T(!new)>(cmp: (T, T) -> int, s: seq<T>, base: int, max: int, i: int, mid: int)
    requires Parting(cmp, s, base, max, i, mid, mid) && i < mid && Le(cmp, s[mid], s[i])
    ensures Parting(cmp, s[i := s[mid]][mid := s[i]], base, max, i, i, mid - 1)
  {
  }

  /** One exchange of the partitioning loop: two elements, or the pivot and one on its other side. */
  method Exchange<T(!new)>(cmp: (T, T) -> int, a: array<T>, base: nat, max: nat, i: nat, mid: nat, j: nat)
    returns (i': nat, mid': nat, j': nat)
    requires Preorder(cmp) && max <= a.Length && Parting(cmp, a[..], base, max, i, mid, j) && i < j
    requires i < mid ==> Le(cmp, a[mid], a[i])
    requires j > mid ==> Le(cmp, a[j], a[mid])
    modifies a
    ensures Parting(cmp, a[..], base, max, i', mid', j') && base <= mid' < max && j' - i' < j - i
    ensures Rearranged(old(a[..]), a[..], base, max) && a[mid'] == old(a[mid])
  {
    hide Rearranged, Preorder, Le, Parting;
    ghost var s := a[..];
    i', mid', j' := i, mid, j;
    PartingBounds(cmp, s, base, max, i, mid, j);
    if j > mid {
      if i == mid {
        PivotRight(cmp, s, base, max, mid, j);
        Swap(a, i, j, base, max);
        mid' := j;
        i' := i + 1;
      } else {
        Across(cmp, s, base, max, i, mid, j);
        Swap(a, i, j, base, max);
        i', j' := i + 1, j - 1;
      }
    } else {
      PivotLeft(cmp, s, base, max, i, mid);
      Swap(a, i, mid, base, max);
      mid', j' := i, j - 1;
    }
  }

  /** The partitioning loop: the pivot at `mid` moves to where all before it are at most it, all behind at least it. */
  method Partition<T(!new)>(cmp: (T, T) -> int, a: array<T>, base: nat, max: nat, m: nat) returns (mid: nat)
    requires Preorder(cmp) && base <= m < max <= a.Length
    modifies a
    ensures base <= mid < max && Rearranged(old(a[..]), a[..], base, max)
    ensures a[mid] == old(a[m])
    ensures Split(cmp, a[..], base, mid, max) && Split(cmp, a[..], base, mid + 1, max)
  {
    hide Rearranged, Preorder, Le, Split, Parting;
    ghost var s0 := a[..];
    var i, j := base, max - 1;
    mid := m;
    RearrangedNot(s0, base, max);
    PartingStart(cmp, s0, base, max, m);
    while true
      invariant base <= mid < max && Parting(cmp, a[..], base, max, i, mid, j)
      invariant Rearranged(s0, a[..], base, max) && a[mid] == s0[m]
      decreases j - i
    {
      ghost var s := a[..];
      PartingBounds(cmp, s, base, max, i, mid, j);
      i, j := Advance(cmp, a, base, max, i, mid, j);
      PartingBounds(cmp, s, base, max, i, mid, j);
      if i == j {
        Parted(cmp, s, base, max, mid);
        break;
      }
      i, mid, j := Exchange(cmp, a, base, max, i, mid, j);
      RearrangedTrans(s0, s, a[..], base, max, base, max);
    }
  }

  /** The two scans: past what is in order on the left, and past what is in order on the right. */
  method Advance<T(!new)>(cmp: (T, T) -> int, a: array<T>, base: nat, max: nat, i: nat, mid: nat, j: nat)
    returns (i': nat, j': nat)
    requires Preorder(cmp) && max <= a.Length && Parting(cmp, a[..], base, max, i, mid, j)
    ensures i <= i' && j' <= j && Parting(cmp, a[..], base, max, i', mid, j')
    ensures i' < mid ==> Le(cmp, a[mid], a[i'])
    ensures j' > mid ==> Le(cmp, a[j'], a[mid])
  {
    hide Preorder, Parting;
    i', j' := i, j;
    PartingBounds(cmp, a[..], base, max, i, mid, j);
    while i' < mid && cmp(a[i'], a[mid]) <= 0
      invariant i <= i' <= mid && Parting(cmp, a[..], base, max, i', mid, j')
    {
      PartingMore(cmp, a[..], base, max, i', mid, j');
      i' := i' + 1;
    }
    while j' > mid && cmp(a[mid], a[j']) <= 0
      invariant mid <= j' <= j && Parting(cmp, a[..], base, max, i', mid, j')
    {
      PartingMore(cmp, a[..], base, max, i', mid, j');
      j' := j' - 1;
    }
    LeTotal(cmp, a[i'], a[mid]);
    LeTotal(cmp, a[mid], a[j']);
  }

  lemma PartingBounds<T(!new)>(cmp: (T, T) -> int, s: seq<T>, base: int, max: int, i: int, mid: int, j: int)
    requires Parting(cmp, s, base, max, i, mid, j)
    ensures 0 <= base <= i <= mid <= j < max <= |s|
  {
  }

  /** An element in order on either side need not be looked at again. */
  lemma PartingMore<T(!new)>(cmp: (T, T) -> int, s: seq<T>, base: int, max: int, i: int, mid: int, j: int)
    requires Parting(cmp, s, base, max, i, mid, j)
    ensures i < mid && Le(cmp, s[i], s[mid]) ==> Parting(cmp, s, base, max, i + 1, mid, j)
    ensures j > mid && Le(cmp, s[mid], s[j]) ==> Parting(cmp, s, base, max, i, mid, j - 1)
  {
    hide Le;
  }

  /** What qst's loop has done to the part from `lo` to `hi`: all but what lies from `base` to `max` is finished. */
  ghost predicate Quick<T(!new)>(cmp: (T, T) -> int, s0: seq<T>, s: seq<T>, lo: int, base: int, max: int, hi: int) {
    && 0 <= lo <= base <= max <= hi <= |s| && Rearranged(s0, s, lo, hi)
    && Split(cmp, s, lo, base, hi) && Split(cmp, s, lo, max, hi)
    && Rough(cmp, s, lo, base) && Rough(cmp, s, max, hi)
  }

  /** Work within the unfinished part leaves the rest as it is. */
  lemma QuickKept<T(!new)>(cmp: (T, T) -> int, s0: seq<T>, s: seq<T>, t: seq<T>, lo: int, base: int, max: int, hi: int,
                           c: int, d: int)
    requires Quick(cmp, s0, s, lo, base, max, hi) && base <= c <= d <= max && Rearranged(s, t, c, d)
    ensures Quick(cmp, s0, t, lo, base, max, hi)
  {
    hide Split, Rough, Rearranged;
    Length(s, t, c, d);
    SplitKept(cmp, s, t, lo, base, hi, c, d);
    SplitKept(cmp, s, t, lo, max, hi, c, d);
    RoughKept(cmp, s, t, lo, base, c, d);
    RoughKept(cmp, s, t, max, hi, c, d);
    RearrangedTrans(s0, s, t, lo, hi, c, d);
  }

  lemma Length<T(!new)>(s: seq<T>, t: seq<T>, lo: int, hi: int)
    requires Rearranged(s, t, lo, hi)
    ensures |s| == |t|
  {
  }

  /** The part before a pivot is finished, and so is the pivot: the part behind it is left. */
  lemma QuickRight<T(!new)>(cmp: (T, T) -> int, s0: seq<T>, s: seq<T>, lo: int, base: int, mid: int, max: int, hi: int)
    requires Quick(cmp, s0, s, lo, base, max, hi) && base <= mid < max
    requires Split(cmp, s, base, mid, max) && Split(cmp, s, base, mid + 1, max) && Rough(cmp, s, base, mid)
    ensures Quick(cmp, s0, s, lo, mid + 1, max, hi)
  {
    hide Split;
    SplitWithin(cmp, s, lo, base, mid, max, hi);
    SplitWithin(cmp, s, lo, base, mid + 1, max, hi);
    SplitNarrow(cmp, s, lo, base, hi, mid);
    RoughJoin(cmp, s, lo, base, mid);
    SplitNarrow(cmp, s, lo, mid, hi, mid + 1);
    RoughJoin(cmp, s, lo, mid, mid + 1);
  }

  /** The part behind a pivot is finished, and so is the pivot: the part before it is left. */
  lemma QuickLeft<T(!new)>(cmp: (T, T) -> int, s0: seq<T>, s: seq<T>, lo: int, base: int, mid: int, max: int, hi: int)
    requires Quick(cmp, s0, s, lo, base, max, hi) && base <= mid < max
    requires Split(cmp, s, base, mid, max) && Split(cmp, s, base, mid + 1, max) && Rough(cmp, s, mid + 1, max)
    ensures Quick(cmp, s0, s, lo, base, mid, hi)
  {
    hide Split;
    SplitWithin(cmp, s, lo, base, mid, max, hi);
    SplitWithin(cmp, s, lo, base, mid + 1, max, hi);
    SplitLater(cmp, s, lo, max, hi, mid + 1);
    RoughJoin(cmp, s, mid + 1, max, hi);
    SplitLater(cmp, s, lo, mid + 1, hi, mid);
    RoughJoin(cmp, s, mid, mid + 1, hi);
  }

  lemma SplitNarrow<T(!new)>(cmp: (T, T) -> int, s: seq<T>, lo: int, m: int, hi: int, hi': int)
    requires Split(cmp, s, lo, m, hi) && hi' <= hi <= |s|
    ensures Split(cmp, s, lo, m, hi')
  {
  }

  lemma SplitLater<T(!new)>(cmp: (T, T) -> int, s: seq<T>, lo: int, m: int, hi: int, lo': int)
    requires Split(cmp, s, lo, m, hi) && 0 <= lo <= lo'
    ensures Split(cmp, s, lo', m, hi)
  {
  }

  /** Nothing is left but a small part. */
  lemma QuickDone<T(!new)>(cmp: (T, T) -> int, s0: seq<T>, s: seq<T>, lo: int, base: int, max: int, hi: int)
    requires Quick(cmp, s0, s, lo, base, max, hi) && max - base < THRESH
    ensures Rearranged(s0, s, lo, hi) && Rough(cmp, s, lo, hi)
  {
    hide Rearranged;
    SplitNarrow(cmp, s, lo, base, hi, max);
    RoughJoin(cmp, s, lo, base, max);
    RoughJoin(cmp, s, lo, max, hi);
  }

  lemma QuickStart<T(!new)>(cmp: (T, T) -> int, s: seq<T>, lo: int, hi: int)
    requires 0 <= lo <= hi <= |s|
    ensures Quick(cmp, s, s, lo, lo, hi, hi)
  {
  }

  /** One round of qst's loop up to the pivot in its place. */
  method Pivot<T(!new)>(cmp: (T, T) -> int, a: array<T>, base: nat, max: nat) returns (mid: nat)
    requires Preorder(cmp) && base + THRESH <= max <= a.Length
    modifies a
    ensures base <= mid < max && Rearranged(old(a[..]), a[..], base, max)
    ensures Split(cmp, a[..], base, mid, max) && Split(cmp, a[..], base, mid + 1, max)
    ensures var i := base + (max - base) / 2;
            if max - base >= MTHRESH then MedianOf(cmp, old(a[base]), old(a[i]), old(a[max - 1]), a[mid])
            else a[mid] == old(a[i])
  {
    hide Preorder, Split, Rearranged, Le;
    var lo := max - base;
    var i := base + lo / 2;
    ghost var s := a[..];
    RearrangedNot(s, base, max);
    if lo >= MTHRESH {
      var j := MedianPlace(cmp, a, base, i, max);
      if j != i {
        Swap(a, i, j, base, max);
      }
    }
    ghost var t := a[..];
    mid := Partition(cmp, a, base, max, i);
    RearrangedTrans(s, t, a[..], base, max, base, max);
  }

  /**
   qst: an almost sorted part.  Each recursive call is for at most half the elements, so calls nest
   no deeper than `k` beyond the first.
   */
  method Qst<T(!new)>(cmp: (T, T) -> int, a: array<T>, lo: nat, hi: nat, ghost k: nat)
    requires Preorder(cmp) && lo + THRESH <= hi <= a.Length && hi - lo < Pow2(k + 3)
    modifies a
    ensures Rearranged(old(a[..]), a[..], lo, hi) && Rough(cmp, a[..], lo, hi)
    decreases k, 1
  {
    hide Preorder, Split, Rearranged, Rough, Quick;
    ghost var s0 := a[..];
    QuickStart(cmp, s0, lo, hi);
    var base, max := lo, hi;
    while max - base >= THRESH
      invariant lo <= base <= max <= hi && Quick(cmp, s0, a[..], lo, base, max, hi)
      decreases max - base
    {
      ghost var s := a[..];
      var mid := Pivot(cmp, a, base, max);
      QuickKept(cmp, s0, s, a[..], lo, base, max, hi, base, max);
      ghost var t := a[..];
      if mid - base <= max - mid - 1 {
        Side(cmp, a, base, mid, k);
        SidesKept(cmp, s0, t, a[..], lo, base, mid, max, hi, base, mid);
        QuickRight(cmp, s0, a[..], lo, base, mid, max, hi);
        base := mid + 1;
      } else {
        Side(cmp, a, mid + 1, max, k);
        SidesKept(cmp, s0, t, a[..], lo, base, mid, max, hi, mid + 1, max);
        QuickLeft(cmp, s0, a[..], lo, base, mid, max, hi);
        max := mid;
      }
    }
    QuickDone(cmp, s0, a[..], lo, base, max, hi);
  }

  /** The recursive call for the smaller side, if it is large enough. */
  method Side<T(!new)>(cmp: (T, T) -> int, a: array<T>, lo: nat, hi: nat, ghost k: nat)
    requires Preorder(cmp) && lo <= hi <= a.Length && hi - lo < Pow2(k + 2)
    modifies a
    ensures Rearranged(old(a[..]), a[..], lo, hi) && Rough(cmp, a[..], lo, hi)
    decreases k, 0
  {
    RearrangedNot(a[..], lo, hi);
    if hi - lo >= THRESH {
      Qst(cmp, a, lo, hi, k - 1);
    }
  }

  /** Work on one side of the pivot leaves the pivot where it belongs. */
  lemma SidesKept<T(!new)>(cmp: (T, T) -> int, s0: seq<T>, s: seq<T>, t: seq<T>, lo: int,
                           base: int, mid: int, max: int, hi: int, c: int, d: int)
    requires Quick(cmp, s0, s, lo, base, max, hi) && base <= mid < max && Rearranged(s, t, c, d)
    requires Split(cmp, s, base, mid, max) && Split(cmp, s, base, mid + 1, max)
    requires base <= c <= d <= mid || mid + 1 <= c <= d <= max
    ensures Quick(cmp, s0, t, lo, base, max, hi)
    ensures Split(cmp, t, base, mid, max) && Split(cmp, t, base, mid + 1, max)
  {
    hide Split, Rearranged, Rough;
    Length(s, t, c, d);
    SplitKept(cmp, s, t, base, mid, max, c, d);
    SplitKept(cmp, s, t, base, mid + 1, max, c, d);
    QuickKept(cmp, s0, s, t, lo, base, max, hi, c, d);
  }

  // ----- the cleanup -----

  /** The place of the least of the first `hi` elements. */
  method Smallest<T(!new)>(cmp: (T, T) -> int, a: array<T>, hi: nat) returns (j: nat)
    requires Preorder(cmp) && 1 <= hi <= a.Length
    ensures j < hi && forall p :: 0 <= p < hi ==> Le(cmp, a[j], a[p])
  {
    j := 0;
    var lo := 1;
    LeTotal(cmp, a[0], a[0]);
    while lo < hi
      invariant 1 <= lo <= hi && j < lo && forall p :: 0 <= p < lo ==> Le(cmp, a[j], a[p])
    {
      LeTotal(cmp, a[lo], a[lo]);
      if cmp(a[j], a[lo]) > 0 {
        j := lo;
      }
      lo := lo + 1;
    }
  }

  /** Moves the element at `min` down to `hi`. */
  method Shift<T(!new)>(a: array<T>, hi: nat, min: nat)
    requires hi <= min < a.Length
    modifies a
    ensures a[..] == Inserted(old(a[..]), hi, min)
  {
    ghost var s := a[..];
    var c := a[min];
    var i := min;
    while i > hi
      invariant hi <= i <= min
      invariant forall p {:trigger a[p]} :: i < p <= min ==> a[p] == s[p - 1]
      invariant forall p {:trigger a[p]} :: 0 <= p <= i || min < p < a.Length ==> a[p] == s[p]
    {
      a[i] := a[i - 1];
      i := i - 1;
    }
    a[i] := c;
    forall p | 0 <= p < a.Length
      ensures a[p] == Inserted(s, hi, min)[p]
    {
      InsertedAt(s, hi, min, p);
    }
  }

  /** The scan for the place of an element, with no test for the beginning: the first element stops it. */
  method Scan<T(!new)>(cmp: (T, T) -> int, a: array<T>, min: nat) returns (hi: nat)
    requires Preorder(cmp) && 1 <= min < a.Length && Le(cmp, a[0], a[min])
    ensures 1 <= hi <= min && Le(cmp, a[hi - 1], a[min])
    ensures forall p :: hi <= p < min ==> Le(cmp, a[min], a[p])
  {
    hi := min - 1;
    while cmp(a[hi], a[min]) > 0
      invariant hi < min && forall p :: hi < p < min ==> Le(cmp, a[min], a[p])
      decreases hi
    {
      LeTotal(cmp, a[hi], a[min]);
      hi := hi - 1;
    }
    hi := hi + 1;
  }

  /** The insertion sort behind the sentinel in the first place. */
  method Insertion<T(!new)>(cmp: (T, T) -> int, a: array<T>, n: nat)
    requires Preorder(cmp) && 1 <= n <= a.Length && Least(cmp, a[..], a[0], n)
    modifies a
    ensures Sorted(cmp, a[..], 0, n) && Rearranged(old(a[..]), a[..], 0, n)
  {
    hide Preorder, Rearranged, Inserted;
    ghost var s0, x := a[..], a[0];
    RearrangedNot(s0, 0, n);
    var min := 1;
    while min < n
      invariant 1 <= min <= n && Sorted(cmp, a[..], 0, min) && Rearranged(s0, a[..], 0, n)
      invariant a[0] == x && Least(cmp, a[..], x, n)
    {
      ghost var s := a[..];
      var hi := Scan(cmp, a, min);
      InsertedSorted(cmp, s, hi, min);
      InsertedRearranged(s, hi, min, n);
      InsertedAt(s, hi, min, 0);
      if hi != min {
        Shift(a, hi, min);
      } else {
        InsertedSame(s, min);
      }
      RearrangedTrans(s0, s, a[..], 0, n, 0, n);
      LeastKept(cmp, s, a[..], x, n);
      min := min + 1;
    }
  }

  lemma InsertedSame<T(!new)>(s: seq<T>, m: nat)
    requires m < |s|
    ensures Inserted(s, m, m) == s
  {
  }

  /** qsort: the first `n` records in order, none lost and none twice. */
  method Qsort<T(!new)>(cmp: (T, T) -> int, a: array<T>, n: int)
    requires Preorder(cmp) && n <= a.Length
    modifies a
    ensures Sorted(cmp, a[..], 0, n)
    ensures n >= 0 ==> Rearranged(old(a[..]), a[..], 0, n)
    ensures n < 0 ==> a[..] == old(a[..])
  {
    hide Preorder, Rearranged, Rough;
    ghost var s := a[..];
    if n <= 1 {
      if n >= 0 {
        RearrangedNot(s, 0, n);
      }
      return;
    }
    var hi := n;
    RearrangedNot(s, 0, n);
    if n >= THRESH {
      ghost var k := Log(n);
      Qst(cmp, a, 0, n, k);
      hi := THRESH;
    }
    ghost var t := a[..];
    var j := Smallest(cmp, a, hi);
    LeastEarly(cmp, t, n, hi, j);
    if j != 0 {
      Swap(a, 0, j, 0, n);
    } else {
      RearrangedNot(t, 0, n);
    }
    ghost var u := a[..];
    RearrangedTrans(s, t, u, 0, n, 0, n);
    LeastKept(cmp, t, u, t[j], n);
    Insertion(cmp, a, n);
    RearrangedTrans(s, u, a[..], 0, n, 0, n);
  }
}

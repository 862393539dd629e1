/** Orders, rearrangements and almost sorted sequences, for bsdlibc/gen/qsort.c. */
module QsortOrder {
  /** A comparison routine that orders all records, some of them perhaps equal. */
  ghost predicate Preorder<T(!new)>(cmp: (T, T) -> int) {
    && (forall x, y :: cmp(x, y) > 0 <==> cmp(y, x) < 0)
    && (forall x, y, z :: cmp(x, y) <= 0 && cmp(y, z) <= 0 ==> cmp(x, z) <= 0)
  }

  predicate Le<T>(cmp: (T, T) -> int, x: T, y: T) {
    cmp(x, y) <= 0
  }

  lemma LeTrans<T(!new)>(cmp: (T, T) -> int, x: T, y: T, z: T)
    requires Preorder(cmp) && Le(cmp, x, y) && Le(cmp, y, z)
    ensures Le(cmp, x, z)
  {
  }

  /** Either way round two records are ordered. */
  lemma LeTotal<T(!new)>(cmp: (T, T) -> int, x: T, y: T)
    requires Preorder(cmp)
    ensures Le(cmp, x, x) && (!Le(cmp, x, y) ==> Le(cmp, y, x)) && (cmp(x, y) < 0 ==> Le(cmp, x, y))
  {
  }

  /** `t` has the elements of `s`, in another order between `lo` and `hi` only. */
  ghost predicate Rearranged<T(!new)>(s: seq<T>, t: seq<T>, lo: int, hi: int) {
    && |s| == |t| && 0 <= lo <= hi <= |s| && multiset(s) == multiset(t)
    && forall p :: (0 <= p < lo || hi <= p < |s|) ==> t[p] == s[p]
  }

  /** Everything before `m` is ordered before everything from `m` on. */
  ghost predicate Split<T(!new)>(cmp: (T, T) -> int, s: seq<T>, lo: int, m: int, hi: int) {
    forall p, q :: 0 <= lo <= p < m <= q < hi <= |s| ==> Le(cmp, s[p], s[q])
  }

  /** Elements at least three places apart are ordered. */
  ghost predicate Rough<T(!new)>(cmp: (T, T) -> int, s: seq<T>, lo: int, hi: int) {
    forall p, q :: 0 <= lo <= p && p + 3 <= q < hi <= |s| ==> Le(cmp, s[p], s[q])
  }

  ghost predicate Sorted<T(!new)>(cmp: (T, T) -> int, s: seq<T>, lo: int, hi: int) {
    forall p, q :: 0 <= lo <= p < q < hi <= |s| ==> Le(cmp, s[p], s[q])
  }

  lemma Multisets<T(!new)>(s: seq<T>, lo: int, hi: int)
    requires 0 <= lo <= hi <= |s|
    ensures multiset(s) == multiset(s[..lo]) + multiset(s[lo..hi]) + multiset(s[hi..])
  {
    assert s == s[..lo] + s[lo..hi] + s[hi..];
  }

  /** An element within the part in disorder was within it before. */
  lemma Origin<T(!new)>(s: seq<T>, t: seq<T>, lo: int, hi: int, p: int) returns (k: int)
    requires Rearranged(s, t, lo, hi) && lo <= p < hi
    ensures lo <= k < hi && s[k] == t[p]
  {
    Multisets(s, lo, hi);
    Multisets(t, lo, hi);
    assert s[..lo] == t[..lo] && s[hi..] == t[hi..];
    var x := t[p];
    assert t[lo..hi][p - lo] == x;
    assert multiset(s)[x] == multiset(s[..lo])[x] + multiset(s[lo..hi])[x] + multiset(s[hi..])[x];
    assert multiset(t)[x] == multiset(t[..lo])[x] + multiset(t[lo..hi])[x] + multiset(t[hi..])[x];
    assert multiset(s[lo..hi])[x] == multiset(t[lo..hi])[x];
    assert x in s[lo..hi];
    k :| lo <= k < hi && s[k] == t[p];
  }

  lemma RearrangedNot<T(!new)>(s: seq<T>, lo: int, hi: int)
    requires 0 <= lo <= hi <= |s|
    ensures Rearranged(s, s, lo, hi)
  {
  }

  lemma RearrangedTrans<T(!new)>(s: seq<T>, t: seq<T>, u: seq<T>, lo: int, hi: int, lo': int, hi': int)
    requires Rearranged(s, t, lo, hi) && Rearranged(t, u, lo', hi') && lo <= lo' && hi' <= hi
    ensures Rearranged(s, u, lo, hi)
  {
  }

  lemma Swapped<T(!new)>(s: seq<T>, i: int, j: int, lo: int, hi: int)
    requires 0 <= lo <= i < hi <= |s| && lo <= j < hi
    ensures Rearranged(s, s[i := s[j]][j := s[i]], lo, hi)
  {
  }

  /** Order on one side of `m` does not matter to what `m` splits. */
  lemma SplitKept<T(!new)>(cmp: (T, T) -> int, s: seq<T>, t: seq<T>, lo: int, m: int, hi: int, c: int, d: int)
    requires Split(cmp, s, lo, m, hi) && Rearranged(s, t, c, d) && 0 <= lo <= hi <= |s|
    requires lo <= c <= d <= m || m <= c <= d <= hi
    ensures Split(cmp, t, lo, m, hi)
  {
    forall p, q | lo <= p < m <= q < hi
      ensures Le(cmp, t[p], t[q])
    {
      var p', q' := p, q;
      if c <= p < d {
        p' := Origin(s, t, c, d, p);
      }
      if c <= q < d {
        q' := Origin(s, t, c, d, q);
      }
      assert Le(cmp, s[p'], s[q']);
    }
  }

  /** A split within the part between two splits is one of the whole. */
  lemma SplitWithin<T(!new)>(cmp: (T, T) -> int, s: seq<T>, lo: int, b: int, k: int, m: int, hi: int)
    requires 0 <= lo <= b <= k <= m <= hi <= |s|
    requires Split(cmp, s, lo, b, hi) && Split(cmp, s, lo, m, hi) && Split(cmp, s, b, k, m)
    ensures Split(cmp, s, lo, k, hi)
  {
  }

  lemma RoughJoin<T(!new)>(cmp: (T, T) -> int, s: seq<T>, lo: int, m: int, hi: int)
    requires 0 <= lo <= m <= hi <= |s|
    requires Rough(cmp, s, lo, m) && Rough(cmp, s, m, hi) && Split(cmp, s, lo, m, hi)
    ensures Rough(cmp, s, lo, hi)
  {
  }

  /** Disorder elsewhere does not matter to an almost sorted part. */
  lemma RoughKept<T(!new)>(cmp: (T, T) -> int, s: seq<T>, t: seq<T>, lo: int, hi: int, c: int, d: int)
    requires Rough(cmp, s, lo, hi) && Rearranged(s, t, c, d) && (hi <= c || d <= lo)
    ensures Rough(cmp, t, lo, hi)
  {
  }

  /** The element at `m` moved down to `h`. */
  function Inserted<T>(s: seq<T>, h: nat, m: nat): (t: seq<T>)
    requires h <= m < |s|
    ensures |t| == |s|
  {
    s[..h] + [s[m]] + s[h..m] + s[m + 1..]
  }

  lemma InsertedAt<T(!new)>(s: seq<T>, h: nat, m: nat, p: nat)
    requires h <= m < |s| && p < |s|
    ensures Inserted(s, h, m)[p] == if p < h || p > m then s[p] else if p == h then s[m] else s[p - 1]
  {
  }

  lemma InsertedRearranged<T(!new)>(s: seq<T>, h: nat, m: nat, n: nat)
    requires h <= m < n <= |s|
    ensures Rearranged(s, Inserted(s, h, m), 0, n)
  {
    assert s == s[..h] + s[h..m] + [s[m]] + s[m + 1..];
    forall p | n <= p < |s|
      ensures Inserted(s, h, m)[p] == s[p]
    {
      InsertedAt(s, h, m, p);
    }
  }

  /** An element moved down past larger ones only extends the sorted part. */
  lemma InsertedSorted<T(!new)>(cmp: (T, T) -> int, s: seq<T>, h: nat, m: nat)
    requires Preorder(cmp) && h <= m < |s| && Sorted(cmp, s, 0, m)
    requires h > 0 ==> Le(cmp, s[h - 1], s[m])
    requires forall p :: h <= p < m ==> Le(cmp, s[m], s[p])
    ensures Sorted(cmp, Inserted(s, h, m), 0, m + 1)
  {
    var t := Inserted(s, h, m);
    forall p, q | 0 <= p < q < m + 1
      ensures Le(cmp, t[p], t[q])
    {
      InsertedAt(s, h, m, p);
      InsertedAt(s, h, m, q);
      if p < h && q == h && p < h - 1 {
        LeTrans(cmp, s[p], s[h - 1], s[m]);
      }
    }
  }

  /** The least element is the least of the first four, if those three places apart are in order. */
  lemma LeastEarly<T(!new)>(cmp: (T, T) -> int, s: seq<T>, n: nat, early: nat, j: nat)
    requires Preorder(cmp) && 1 <= early <= n <= |s| && j < n
    requires early < n ==> early >= 3 && Rough(cmp, s, 0, n)
    requires forall p :: 0 <= p < early ==> Le(cmp, s[j], s[p])
    ensures forall p :: 0 <= p < n ==> Le(cmp, s[j], s[p])
  {
    forall p | early <= p < n
      ensures Le(cmp, s[j], s[p])
    {
      LeTrans(cmp, s[j], s[0], s[p]);
    }
  }

  /** A least element stays least when others change places. */
  ghost predicate Least<T(!new)>(cmp: (T, T) -> int, s: seq<T>, x: T, n: int) {
    forall p :: 0 <= p < n <= |s| ==> Le(cmp, x, s[p])
  }

  lemma LeastKept<T(!new)>(cmp: (T, T) -> int, s: seq<T>, t: seq<T>, x: T, n: int)
    requires Least(cmp, s, x, n) && Rearranged(s, t, 0, n)
    ensures Least(cmp, t, x, n)
  {
    forall p | 0 <= p < n <= |t|
      ensures Le(cmp, x, t[p])
    {
      var k := Origin(s, t, 0, n, p);
    }
  }

  function Pow2(k: nat): (p: nat)
    ensures p >= 1
  {
    if k == 0 then 1 else 2 * Pow2(k - 1)
  }

  /** The logarithm that bounds the depth of the recursion. */
  lemma {:induction false} Log(n: nat) returns (k: nat)
    requires n >= 4
    ensures Pow2(k + 2) <= n < Pow2(k + 3)
  {
    assert Pow2(2) == 4 && Pow2(3) == 8;
    if n < 8 {
      k := 0;
    } else {
      k := Log(n / 2);
      k := k + 1;
    }
  }
}

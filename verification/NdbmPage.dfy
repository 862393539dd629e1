/**
 The slotted page of the ndbm library (bsdlibc/gen/ndbm.c): a 1024-byte block that starts
 with a table of little-endian shorts and grows packed items downwards from its end.
 The page operations are proved against a list of key/value pairs.
 */
module NdbmPage {
  const PBLKSIZ: int := 1024

  type byte = x: int | 0 <= x < 256

  datatype Pair = Pair(key: seq<byte>, val: seq<byte>)

  /** A datum of the source: a null pointer, or some bytes. */
  datatype Datum = Null | Datum(bytes: seq<byte>)

  // ----- the list a page stands for -----

  /** The short at index `k`, as the PDP-11 reads it. */
  function Short(b: seq<byte>, k: nat): (r: nat)
    requires |b| == PBLKSIZ && 2 * k + 1 < PBLKSIZ
    ensures r < 65536
  {
    b[2 * k] as int + 256 * b[2 * k + 1] as int
  }

  function Size(p: Pair): nat {
    |p.key| + |p.val|
  }

  /** Where the items of the first `i` pairs end, filling the page from its top. */
  function Top(ps: seq<Pair>, i: nat): int
    requires i <= |ps|
  {
    if i == 0 then PBLKSIZ else Top(ps, i - 1) - Size(ps[i - 1])
  }

  /** Whether one page has room for exactly the pairs of `ps` and their table. */
  predicate Fits(ps: seq<Pair>) {
    4 * |ps| + 2 < Top(ps, |ps|)
  }

  ghost predicate HoldsAt(b: seq<byte>, p: Pair, i: nat, top: int)
    requires |b| == PBLKSIZ && 4 * i + 5 < PBLKSIZ
  {
    && Size(p) <= top <= PBLKSIZ
    && Short(b, 2 * i + 1) == top - |p.key|
    && Short(b, 2 * i + 2) == top - Size(p)
    && b[top - |p.key|..top] == p.key
    && b[top - Size(p)..top - |p.key|] == p.val
  }

  /** The bytes `b` are a well-formed page whose items are the pairs of `ps` in order. */
  ghost predicate Holds(b: seq<byte>, ps: seq<Pair>) {
    && |b| == PBLKSIZ
    && Short(b, 0) == 2 * |ps|
    && 4 * |ps| + 2 < PBLKSIZ
    && Fits(ps)
    && forall i {:trigger HoldsAt(b, ps[i], i, Top(ps, i))} :: 0 <= i < |ps| ==> HoldsAt(b, ps[i], i, Top(ps, i))
  }

  lemma {:induction false} TopDescends(ps: seq<Pair>, i: nat, j: nat)
    requires i <= j <= |ps|
    ensures Top(ps, j) <= Top(ps, i) <= PBLKSIZ
    decreases j
  {
    if i < j {
      TopDescends(ps, i, j - 1);
    } else if i > 0 {
      TopDescends(ps, i - 1, i - 1);
    }
  }

  lemma {:induction false} TopAppend(ps: seq<Pair>, qs: seq<Pair>, i: nat)
    requires i <= |ps|
    ensures Top(ps + qs, i) == Top(ps, i)
  {
    if i > 0 {
      TopAppend(ps, qs, i - 1);
    }
  }

  lemma {:induction false} TopWithout(ps: seq<Pair>, m: nat, i: nat)
    requires m < |ps| && i <= |ps| - 1
    ensures Top(Without(ps, m), i) == if i <= m then Top(ps, i) else Top(ps, i + 1) + Size(ps[m])
  {
    if i > 0 {
      TopWithout(ps, m, i - 1);
    }
  }

  // ----- primitive stores -----

  /** The page after storing the short `v` at index `k`. */
  function SetShort(b: seq<byte>, k: nat, v: nat): (r: seq<byte>)
    requires |b| == PBLKSIZ && 2 * k + 1 < PBLKSIZ && v < 65536
    ensures |r| == PBLKSIZ
  {
    b[2 * k := v % 256][2 * k + 1 := v / 256]
  }

  lemma SetShortShort(b: seq<byte>, k: nat, v: nat, j: nat)
    requires |b| == PBLKSIZ && 2 * k + 1 < PBLKSIZ && v < 65536 && 2 * j + 1 < PBLKSIZ
    ensures Short(SetShort(b, k, v), j) == if j == k then v else Short(b, j)
  {
  }

  lemma SetShortSlice(b: seq<byte>, k: nat, v: nat, lo: nat, hi: nat)
    requires |b| == PBLKSIZ && 2 * k + 1 < lo <= hi <= PBLKSIZ && v < 65536
    ensures SetShort(b, k, v)[lo..hi] == b[lo..hi]
  {
  }

  /** The page after copying the bytes `src` to position `at`. */
  function Splice(b: seq<byte>, at: nat, src: seq<byte>): (r: seq<byte>)
    requires at + |src| <= |b|
    ensures |r| == |b|
  {
    b[..at] + src + b[at + |src|..]
  }

  lemma SpliceShort(b: seq<byte>, at: nat, src: seq<byte>, k: nat)
    requires |b| == PBLKSIZ && 2 * k + 1 < at && at + |src| <= |b|
    ensures Short(Splice(b, at, src), k) == Short(b, k)
  {
  }

  lemma SpliceSlice(b: seq<byte>, at: nat, src: seq<byte>, lo: nat, hi: nat)
    requires at + |src| <= lo <= hi <= |b|
    ensures Splice(b, at, src)[lo..hi] == b[lo..hi]
    ensures Splice(b, at, src)[at..at + |src|] == src
  {
  }

  method PutShort(buf: array<byte>, k: nat, v: nat)
    requires buf.Length == PBLKSIZ && 2 * k + 1 < PBLKSIZ && v < 65536
    modifies buf
    ensures buf[..] == SetShort(old(buf[..]), k, v)
  {
    buf[2 * k], buf[2 * k + 1] := v % 256, v / 256;
  }

  /** bcopy: an overlapping source is read before it is overwritten. */
  method Bcopy(src: seq<byte>, buf: array<byte>, at: nat)
    requires at + |src| <= buf.Length
    modifies buf
    ensures buf[..] == Splice(old(buf[..]), at, src)
  {
    forall i | 0 <= i < |src| {
      buf[at + i] := src[i];
    }
  }

  // ----- makdatum -----

  /** The table entry `n`, with the end of the page before the first one. */
  function End(b: seq<byte>, n: nat): nat
    requires |b| == PBLKSIZ && 2 * n + 1 < PBLKSIZ
  {
    if n == 0 then PBLKSIZ else Short(b, n)
  }

  lemma EndIsTop(b: seq<byte>, ps: seq<Pair>, i: nat)
    requires Holds(b, ps) && i <= |ps|
    ensures End(b, 2 * i) == Top(ps, i)
  {
    if i > 0 {
      assert HoldsAt(b, ps[i - 1], i - 1, Top(ps, i - 1));
    }
  }

  lemma ItemBytes(b: seq<byte>, ps: seq<Pair>, i: nat)
    requires Holds(b, ps) && i < |ps|
    ensures 0 <= End(b, 2 * i + 2) <= End(b, 2 * i + 1) <= End(b, 2 * i) <= PBLKSIZ
    ensures b[End(b, 2 * i + 1)..End(b, 2 * i)] == ps[i].key
    ensures b[End(b, 2 * i + 2)..End(b, 2 * i + 1)] == ps[i].val
  {
    EndIsTop(b, ps, i);
    assert HoldsAt(b, ps[i], i, Top(ps, i));
  }

  /** Item `n` of a list of pairs, keys at even and values at odd numbers. */
  function Nth(ps: seq<Pair>, n: nat): Datum {
    if n < 2 * |ps| then Datum(if n % 2 == 0 then ps[n / 2].key else ps[n / 2].val) else Null
  }

  lemma NthPair(ps: seq<Pair>, i: nat)
    ensures Nth(ps, 2 * i) == if i < |ps| then Datum(ps[i].key) else Null
    ensures Nth(ps, 2 * i + 1) == if i < |ps| then Datum(ps[i].val) else Null
  {
  }

  lemma PageSize(b: seq<byte>, ps: seq<Pair>)
    requires Holds(b, ps)
    ensures |b| == PBLKSIZ && Short(b, 0) == 2 * |ps| && 4 * |ps| + 2 < PBLKSIZ
  {
  }

  method MakDatum(buf: array<byte>, n: nat, ghost ps: seq<Pair>) returns (item: Datum)
    requires Holds(buf[..], ps)
    ensures item == Nth(ps, n)
  {
    hide Short, Holds;
    PageSize(buf[..], ps);
    if n >= Short(buf[..], 0) {
      return Null;
    }
    var t := PBLKSIZ;
    if n > 0 {
      t := Short(buf[..], n);
    }
    ItemBytes(buf[..], ps, n / 2);
    item := Datum(buf[..][Short(buf[..], n + 1)..t]);
  }

  // ----- finddatum -----

  method FindDatum(buf: array<byte>, key: seq<byte>, ghost ps: seq<Pair>) returns (r: int)
    requires Holds(buf[..], ps)
    ensures r == -1 || (0 <= r < 2 * |ps| && r % 2 == 0)
    ensures r >= 0 ==> ps[r / 2].key == key
    ensures r == -1 ==> forall i :: 0 <= i < |ps| ==> ps[i].key != key
  {
    hide Short, Holds;
    PageSize(buf[..], ps);
    var i, j, n := 0, Short(buf[..], 0), PBLKSIZ;
    ghost var g := 0;
    while i < j
      invariant 0 <= g <= |ps| && i == 2 * g && j == 2 * |ps|
      invariant n == End(buf[..], i)
      invariant forall m :: 0 <= m < g ==> ps[m].key != key
    {
      ItemBytes(buf[..], ps, g);
      var start := Short(buf[..], i + 1);
      n := n - start;
      if n == |key| {
        if n == 0 || buf[..][start..start + n] == key {
          return i;
        }
      }
      i, g := i + 2, g + 1;
      n := Short(buf[..], i);
    }
    return -1;
  }

  // ----- additem -----

  /** The page after the stores of additem: a longer table, the key at the top, the value below it. */
  function StorePair(b: seq<byte>, n: nat, lo: nat, key: seq<byte>, val: seq<byte>): (r: seq<byte>)
    requires |b| == PBLKSIZ && 2 * n + 6 < lo && lo + |val| + |key| <= PBLKSIZ
    ensures |r| == PBLKSIZ
  {
    var c := SetShort(SetShort(b, 0, n + 2), n + 1, lo + |val|);
    Splice(SetShort(Splice(c, lo + |val|, key), n + 2, lo), lo, val)
  }

  lemma StorePairTable(b: seq<byte>, n: nat, lo: nat, key: seq<byte>, val: seq<byte>, k: nat)
    requires |b| == PBLKSIZ && 2 * n + 6 < lo && lo + |val| + |key| <= PBLKSIZ
    requires k <= n + 2
    ensures Short(StorePair(b, n, lo, key, val), k) ==
            if k == 0 then n + 2 else if k <= n then Short(b, k) else if k == n + 1 then lo + |val| else lo
  {
    var c1 := SetShort(b, 0, n + 2);
    var c2 := SetShort(c1, n + 1, lo + |val|);
    var c3 := Splice(c2, lo + |val|, key);
    SetShortShort(b, 0, n + 2, k);
    SetShortShort(c1, n + 1, lo + |val|, k);
    SpliceShort(c2, lo + |val|, key, k);
    SetShortShort(c3, n + 2, lo, k);
    SpliceShort(SetShort(c3, n + 2, lo), lo, val, k);
  }

  lemma StorePairData(b: seq<byte>, n: nat, lo: nat, key: seq<byte>, val: seq<byte>, hi: nat)
    requires |b| == PBLKSIZ && 2 * n + 6 < lo && lo + |val| + |key| == hi <= PBLKSIZ
    ensures StorePair(b, n, lo, key, val)[lo..lo + |val|] == val
    ensures StorePair(b, n, lo, key, val)[lo + |val|..hi] == key
    ensures StorePair(b, n, lo, key, val)[hi..PBLKSIZ] == b[hi..PBLKSIZ]
  {
    var c1 := SetShort(b, 0, n + 2);
    var c2 := SetShort(c1, n + 1, lo + |val|);
    var c3 := Splice(c2, lo + |val|, key);
    var c4 := SetShort(c3, n + 2, lo);
    SpliceSlice(c4, lo, val, lo + |val|, hi);
    SpliceSlice(c4, lo, val, hi, PBLKSIZ);
    SetShortSlice(c3, n + 2, lo, lo + |val|, hi);
    SetShortSlice(c3, n + 2, lo, hi, PBLKSIZ);
    SpliceSlice(c2, lo + |val|, key, hi, PBLKSIZ);
    SetShortSlice(c1, n + 1, lo + |val|, hi, PBLKSIZ);
    SetShortSlice(b, 0, n + 2, hi, PBLKSIZ);
  }

  lemma SliceTail(b: seq<byte>, c: seq<byte>, at: nat, lo: nat, hi: nat)
    requires at <= lo <= hi <= |b| == |c| && c[at..|b|] == b[at..|b|]
    ensures c[lo..hi] == b[lo..hi]
  {
    forall i | 0 <= i < hi - lo
      ensures c[lo..hi][i] == b[lo..hi][i]
    {
      assert c[at..|b|][lo + i - at] == b[at..|b|][lo + i - at];
    }
    assert c[lo..hi] == b[lo..hi];
  }

  /** A pair whose table entries and bytes are untouched stays in place. */
  lemma HoldsAtSame(b: seq<byte>, c: seq<byte>, p: Pair, i: nat, top: int, at: nat)
    requires |b| == PBLKSIZ && |c| == PBLKSIZ && 4 * i + 5 < PBLKSIZ
    requires HoldsAt(b, p, i, top) && at <= top - Size(p)
    requires Short(c, 2 * i + 1) == Short(b, 2 * i + 1) && Short(c, 2 * i + 2) == Short(b, 2 * i + 2)
    requires c[at..PBLKSIZ] == b[at..PBLKSIZ]
    ensures HoldsAt(c, p, i, top)
  {
    SliceTail(b, c, at, top - |p.key|, top);
    SliceTail(b, c, at, top - Size(p), top - |p.key|);
  }

  /** What the page `c` owes to the page `b` after a pair was added below `top`. */
  ghost predicate StoredFrom(b: seq<byte>, c: seq<byte>, n: nat, p: Pair, top: int)
    requires 4 * n + 6 < top <= PBLKSIZ
  {
    && |b| == PBLKSIZ && |c| == PBLKSIZ
    && Short(c, 0) == 2 * n + 2
    && HoldsAt(c, p, n, top)
    && (forall k {:trigger Short(c, k)} :: 1 <= k <= 2 * n ==> Short(c, k) == Short(b, k))
    && c[top..PBLKSIZ] == b[top..PBLKSIZ]
  }

  lemma StorePairFrom(b: seq<byte>, n: nat, lo: nat, key: seq<byte>, val: seq<byte>, top: int)
    requires |b| == PBLKSIZ && 4 * n + 6 < lo && lo + |val| + |key| == top <= PBLKSIZ
    ensures StoredFrom(b, StorePair(b, 2 * n, lo, key, val), n, Pair(key, val), top)
  {
    hide StorePair, Short;
    var c := StorePair(b, 2 * n, lo, key, val);
    StorePairData(b, 2 * n, lo, key, val, top);
    forall k | 0 <= k <= 2 * n + 2
      ensures Short(c, k) == if k == 0 then 2 * n + 2 else if k <= 2 * n then Short(b, k)
                             else if k == 2 * n + 1 then lo + |val| else lo
    {
      StorePairTable(b, 2 * n, lo, key, val, k);
    }
  }

  lemma StoredAt(b: seq<byte>, c: seq<byte>, ps: seq<Pair>, p: Pair, i: nat)
    requires Holds(b, ps) && 4 * |ps| + 6 < Top(ps, |ps|) <= PBLKSIZ && i < |ps|
    requires StoredFrom(b, c, |ps|, p, Top(ps, |ps|))
    ensures HoldsAt(c, ps[i], i, Top(ps, i))
  {
    TopDescends(ps, i + 1, |ps|);
    assert HoldsAt(b, ps[i], i, Top(ps, i));
    HoldsAtSame(b, c, ps[i], i, Top(ps, i), Top(ps, |ps|));
  }

  lemma TopLast(ps: seq<Pair>)
    requires ps != []
    ensures Top(ps, |ps|) == Top(ps, |ps| - 1) - Size(ps[|ps| - 1])
  {
  }

  lemma StoredHolds(b: seq<byte>, c: seq<byte>, ps: seq<Pair>, p: Pair)
    requires Holds(b, ps) && 4 * |ps| + 6 < Top(ps, |ps|) - Size(p) && Top(ps, |ps|) <= PBLKSIZ
    requires StoredFrom(b, c, |ps|, p, Top(ps, |ps|))
    ensures Holds(c, ps + [p])
  {
    hide HoldsAt, Short, Top;
    var n, qs := |ps|, ps + [p];
    TopAppend(ps, [p], n);
    TopLast(qs);
    forall i | 0 <= i < n + 1
      ensures HoldsAt(c, qs[i], i, Top(qs, i))
    {
      TopAppend(ps, [p], i);
      if i < n {
        StoredAt(b, c, ps, p, i);
      }
    }
  }

  method AddItem(buf: array<byte>, key: seq<byte>, val: seq<byte>, ghost ps: seq<Pair>) returns (ok: bool)
    requires Holds(buf[..], ps)
    modifies buf
    ensures ok <==> Fits(ps + [Pair(key, val)])
    ensures Holds(buf[..], if ok then ps + [Pair(key, val)] else ps)
  {
    TopAppend(ps, [Pair(key, val)], |ps|);
    var i1, i2 := PBLKSIZ, Short(buf[..], 0);
    if i2 > 0 {
      assert HoldsAt(buf[..], ps[|ps| - 1], |ps| - 1, Top(ps, |ps| - 1));
      i1 := Short(buf[..], i2);
    }
    i1 := i1 - (|key| + |val|);
    if i1 <= 2 * (i2 + 3) {
      return false;
    }
    TopDescends(ps, |ps|, |ps|);
    StorePairFrom(buf[..], |ps|, i1, key, val, Top(ps, |ps|));
    StoredHolds(buf[..], StorePair(buf[..], i2, i1, key, val), ps, Pair(key, val));
    PutPair(buf, i2, i1, key, val);
    return true;
  }

  method PutPair(buf: array<byte>, n: nat, lo: nat, key: seq<byte>, val: seq<byte>)
    requires buf.Length == PBLKSIZ && 2 * n + 6 < lo && lo + |val| + |key| <= PBLKSIZ
    modifies buf
    ensures buf[..] == StorePair(old(buf[..]), n, lo, key, val)
  {
    PutShort(buf, 0, n + 2);
    PutShort(buf, n + 1, lo + |val|);
    Bcopy(key, buf, lo + |val|);
    PutShort(buf, n + 2, lo);
    Bcopy(val, buf, lo);
  }

  // ----- delitem -----

  function Without(ps: seq<Pair>, i: nat): seq<Pair>
    requires i < |ps|
  {
    ps[..i] + ps[i + 1..]
  }

  lemma WithoutAt(ps: seq<Pair>, m: nat, i: nat)
    requires m < |ps| && i < |ps| - 1
    ensures |Without(ps, m)| == |ps| - 1
    ensures Without(ps, m)[i] == ps[if i < m then i else i + 1]
  {
  }

  /** The final loop of delitem: entries `k` to `last` come from two places further on, moved up by `d`. */
  function CloseFrom(b: seq<byte>, k: nat, last: nat, d: nat): (r: seq<byte>)
    requires |b| == PBLKSIZ && 2 * last + 5 < PBLKSIZ
    ensures |r| == PBLKSIZ
    decreases last + 1 - k
  {
    if k > last then b
    else CloseFrom(SetShort(b, k, (Short(b, k + 2) + d) % 65536), k + 1, last, d)
  }

  lemma {:induction false} CloseFromTable(b: seq<byte>, k: nat, last: nat, d: nat, j: nat)
    requires |b| == PBLKSIZ && 2 * last + 5 < PBLKSIZ && j <= last
    ensures Short(CloseFrom(b, k, last, d), j) == if j < k then Short(b, j) else (Short(b, j + 2) + d) % 65536
    decreases last + 1 - k
  {
    if k <= last {
      var v := (Short(b, k + 2) + d) % 65536;
      CloseFromTable(SetShort(b, k, v), k + 1, last, d, j);
      SetShortShort(b, k, v, j);
      SetShortShort(b, k, v, j + 2);
    }
  }

  lemma {:induction false} CloseFromSlice(b: seq<byte>, k: nat, last: nat, d: nat, lo: nat, hi: nat)
    requires |b| == PBLKSIZ && 2 * last + 5 < PBLKSIZ && 2 * last + 1 < lo <= hi <= PBLKSIZ
    ensures CloseFrom(b, k, last, d)[lo..hi] == b[lo..hi]
    decreases last + 1 - k
  {
    if k <= last {
      var v := (Short(b, k + 2) + d) % 65536;
      CloseFromSlice(SetShort(b, k, v), k + 1, last, d, lo, hi);
      SetShortSlice(b, k, v, lo, hi);
    }
  }

  lemma SliceShift(b: seq<byte>, c: seq<byte>, from: nat, upto: nat, d: nat, lo: nat, hi: nat)
    requires from <= lo <= hi <= upto && upto + d <= |b| == |c|
    requires c[from + d..upto + d] == b[from..upto]
    ensures c[lo + d..hi + d] == b[lo..hi]
  {
    forall i | 0 <= i < hi - lo
      ensures c[lo + d..hi + d][i] == b[lo..hi][i]
    {
      assert c[from + d..upto + d][lo + i - from] == b[from..upto][lo + i - from];
    }
    assert c[lo + d..hi + d] == b[lo..hi];
  }

  /** A pair below the deleted one moves up by `d` and two table places down. */
  lemma HoldsAtMoved(b: seq<byte>, c: seq<byte>, p: Pair, i: nat, top: int, from: nat, upto: nat, d: nat)
    requires |b| == PBLKSIZ && |c| == PBLKSIZ && 4 * i + 9 < PBLKSIZ && upto + d <= PBLKSIZ
    requires HoldsAt(b, p, i + 1, top) && from <= top - Size(p) && top <= upto
    requires Short(c, 2 * i + 1) == Short(b, 2 * i + 3) + d && Short(c, 2 * i + 2) == Short(b, 2 * i + 4) + d
    requires c[from + d..upto + d] == b[from..upto]
    ensures HoldsAt(c, p, i, top + d)
  {
    hide Short;
    SliceShift(b, c, from, upto, d, top - |p.key|, top);
    SliceShift(b, c, from, upto, d, top - Size(p), top - |p.key|);
  }

  /** The page after the stores of delitem on pair `m` of `n`: the bytes from `from` to `upto` move up by `d`. */
  function DropPair(b: seq<byte>, m: nat, n: nat, from: nat, upto: nat, d: nat): (r: seq<byte>)
    requires |b| == PBLKSIZ && m < n && 4 * n + 2 < from <= upto && upto + d <= PBLKSIZ
    ensures |r| == PBLKSIZ
  {
    CloseFrom(SetShort(Splice(b, from + d, b[from..upto]), 0, 2 * n - 2), 2 * m + 1, 2 * n - 2, d)
  }

  /** Table entry `k` after pair `m` is gone. */
  function Closed(b: seq<byte>, m: nat, d: nat, k: nat): nat
    requires |b| == PBLKSIZ && 2 * k + 5 < PBLKSIZ
  {
    if k <= 2 * m then Short(b, k) else (Short(b, k + 2) + d) % 65536
  }

  lemma DropPairTable(b: seq<byte>, m: nat, n: nat, from: nat, upto: nat, d: nat, k: nat)
    requires |b| == PBLKSIZ && m < n && 4 * n + 2 < from <= upto && upto + d <= PBLKSIZ
    requires k <= 2 * n - 2
    ensures Short(DropPair(b, m, n, from, upto, d), k) ==
            if k == 0 then 2 * n - 2 else Closed(b, m, d, k)
  {
    var c := Splice(b, from + d, b[from..upto]);
    var e := SetShort(c, 0, 2 * n - 2);
    CloseFromTable(e, 2 * m + 1, 2 * n - 2, d, k);
    SetShortShort(c, 0, 2 * n - 2, k);
    SetShortShort(c, 0, 2 * n - 2, k + 2);
    SpliceShort(b, from + d, b[from..upto], k);
    SpliceShort(b, from + d, b[from..upto], k + 2);
  }

  lemma DropPairMoved(b: seq<byte>, m: nat, n: nat, from: nat, upto: nat, d: nat)
    requires |b| == PBLKSIZ && m < n && 4 * n + 2 < from <= upto && upto + d <= PBLKSIZ
    ensures DropPair(b, m, n, from, upto, d)[from + d..upto + d] == b[from..upto]
  {
    var c := Splice(b, from + d, b[from..upto]);
    SpliceSlice(b, from + d, b[from..upto], upto + d, PBLKSIZ);
    SetShortSlice(c, 0, 2 * n - 2, from + d, upto + d);
    CloseFromSlice(SetShort(c, 0, 2 * n - 2), 2 * m + 1, 2 * n - 2, d, from + d, upto + d);
  }

  lemma DropPairKept(b: seq<byte>, m: nat, n: nat, from: nat, upto: nat, d: nat)
    requires |b| == PBLKSIZ && m < n && 4 * n + 2 < from <= upto && upto + d <= PBLKSIZ
    ensures DropPair(b, m, n, from, upto, d)[upto + d..PBLKSIZ] == b[upto + d..PBLKSIZ]
  {
    var c := Splice(b, from + d, b[from..upto]);
    SpliceSlice(b, from + d, b[from..upto], upto + d, PBLKSIZ);
    SetShortSlice(c, 0, 2 * n - 2, upto + d, PBLKSIZ);
    CloseFromSlice(SetShort(c, 0, 2 * n - 2), 2 * m + 1, 2 * n - 2, d, upto + d, PBLKSIZ);
  }

  ghost predicate Droppable(ps: seq<Pair>, m: nat) {
    && m < |ps|
    && 4 * |ps| + 2 < Top(ps, |ps|) <= Top(ps, m + 1)
    && Top(ps, m + 1) + Size(ps[m]) == Top(ps, m) <= PBLKSIZ
  }

  lemma HoldsDroppable(b: seq<byte>, ps: seq<Pair>, m: nat)
    requires Holds(b, ps) && m < |ps|
    ensures Droppable(ps, m)
  {
    TopDescends(ps, m + 1, |ps|);
    TopDescends(ps, m, m + 1);
  }

  /** What the page `c` owes to the page `b` after pair `m` of `ps` was dropped. */
  ghost predicate DroppedFrom(b: seq<byte>, c: seq<byte>, ps: seq<Pair>, m: nat)
    requires Droppable(ps, m)
  {
    && |b| == PBLKSIZ && |c| == PBLKSIZ
    && Short(c, 0) == 2 * |ps| - 2
    && (forall k {:trigger Closed(b, m, Size(ps[m]), k)} :: 1 <= k <= 2 * |ps| - 2 ==>
          Short(c, k) == Closed(b, m, Size(ps[m]), k))
    && c[Top(ps, |ps|) + Size(ps[m])..Top(ps, m)] == b[Top(ps, |ps|)..Top(ps, m + 1)]
    && c[Top(ps, m)..PBLKSIZ] == b[Top(ps, m)..PBLKSIZ]
  }

  lemma DropPairFrom(b: seq<byte>, ps: seq<Pair>, m: nat)
    requires |b| == PBLKSIZ && Droppable(ps, m)
    ensures DroppedFrom(b, DropPair(b, m, |ps|, Top(ps, |ps|), Top(ps, m + 1), Size(ps[m])), ps, m)
  {
    hide DropPair, Short, Top, Closed;
    var from, upto, d := Top(ps, |ps|), Top(ps, m + 1), Size(ps[m]);
    var c := DropPair(b, m, |ps|, from, upto, d);
    DropPairMoved(b, m, |ps|, from, upto, d);
    DropPairKept(b, m, |ps|, from, upto, d);
    forall k | 0 <= k <= 2 * |ps| - 2
      ensures Short(c, k) == if k == 0 then 2 * |ps| - 2 else Closed(b, m, d, k)
    {
      DropPairTable(b, m, |ps|, from, upto, d, k);
    }
  }

  lemma AboveShort(b: seq<byte>, c: seq<byte>, ps: seq<Pair>, m: nat, k: nat)
    requires Droppable(ps, m) && DroppedFrom(b, c, ps, m) && 1 <= k <= 2 * m && k <= 2 * |ps| - 2
    ensures |b| == PBLKSIZ && |c| == PBLKSIZ && Short(c, k) == Short(b, k)
    ensures c[Top(ps, m)..PBLKSIZ] == b[Top(ps, m)..PBLKSIZ]
  {
    assert Closed(b, m, Size(ps[m]), k) == Short(b, k);
  }

  lemma DroppedAbove(b: seq<byte>, c: seq<byte>, ps: seq<Pair>, m: nat, i: nat)
    requires Holds(b, ps) && Droppable(ps, m) && DroppedFrom(b, c, ps, m) && i < m
    ensures HoldsAt(c, ps[i], i, Top(ps, i))
  {
    hide DroppedFrom, HoldsAt, Short;
    TopDescends(ps, i + 1, m);
    assert HoldsAt(b, ps[i], i, Top(ps, i));
    AboveShort(b, c, ps, m, 2 * i + 1);
    AboveShort(b, c, ps, m, 2 * i + 2);
    HoldsAtSame(b, c, ps[i], i, Top(ps, i), Top(ps, m));
  }

  lemma MovedShort(b: seq<byte>, m: nat, d: nat, k: nat)
    requires |b| == PBLKSIZ && 2 * m < k && 2 * k + 5 < PBLKSIZ && Short(b, k + 2) <= PBLKSIZ && d <= PBLKSIZ
    ensures Closed(b, m, d, k) == Short(b, k + 2) + d
  {
  }

  lemma DroppedTable(b: seq<byte>, c: seq<byte>, ps: seq<Pair>, m: nat, i: nat)
    requires Droppable(ps, m) && DroppedFrom(b, c, ps, m) && m <= i < |ps| - 1
    requires HoldsAt(b, ps[i + 1], i + 1, Top(ps, i + 1))
    ensures Short(c, 2 * i + 1) == Short(b, 2 * i + 3) + Size(ps[m])
    ensures Short(c, 2 * i + 2) == Short(b, 2 * i + 4) + Size(ps[m])
  {
    hide Closed, Top;
    MovedShort(b, m, Size(ps[m]), 2 * i + 1);
    MovedShort(b, m, Size(ps[m]), 2 * i + 2);
  }

  lemma DroppedBelow(b: seq<byte>, c: seq<byte>, ps: seq<Pair>, m: nat, i: nat)
    requires Droppable(ps, m) && DroppedFrom(b, c, ps, m) && m <= i < |ps| - 1
    requires HoldsAt(b, ps[i + 1], i + 1, Top(ps, i + 1))
    ensures HoldsAt(c, ps[i + 1], i, Top(ps, i + 1) + Size(ps[m]))
  {
    TopDescends(ps, m + 1, i + 1);
    TopDescends(ps, i + 2, |ps|);
    DroppedTable(b, c, ps, m, i);
    HoldsAtMoved(b, c, ps[i + 1], i, Top(ps, i + 1), Top(ps, |ps|), Top(ps, m + 1), Size(ps[m]));
  }

  lemma DroppedLength(b: seq<byte>, c: seq<byte>, ps: seq<Pair>, m: nat)
    requires Droppable(ps, m) && DroppedFrom(b, c, ps, m)
    ensures |c| == PBLKSIZ && Short(c, 0) == 2 * (|ps| - 1) && |Without(ps, m)| == |ps| - 1
  {
  }

  /** The bytes that delitem leaves behind stand for the list without pair `m`. */
  lemma DroppedHolds(b: seq<byte>, c: seq<byte>, ps: seq<Pair>, m: nat)
    requires Holds(b, ps) && Droppable(ps, m) && DroppedFrom(b, c, ps, m)
    ensures Holds(c, Without(ps, m))
  {
    hide HoldsAt, Short, Top, DroppedFrom, Without;
    var qs, n := Without(ps, m), |ps| - 1;
    DroppedLength(b, c, ps, m);
    TopWithout(ps, m, n);
    assert |qs| == n && Fits(qs);
    forall i | 0 <= i < m
      ensures HoldsAt(c, qs[i], i, Top(qs, i))
    {
      WithoutAt(ps, m, i);
      TopWithout(ps, m, i);
      DroppedAbove(b, c, ps, m, i);
    }
    forall i | m <= i < n
      ensures HoldsAt(c, qs[i], i, Top(qs, i))
    {
      WithoutAt(ps, m, i);
      TopWithout(ps, m, i);
      assert HoldsAt(b, ps[i + 1], i + 1, Top(ps, i + 1));
      DroppedBelow(b, c, ps, m, i);
    }
    assert forall i {:trigger HoldsAt(c, qs[i], i, Top(qs, i))} :: 0 <= i < n ==> HoldsAt(c, qs[i], i, Top(qs, i));
  }

  method DelItem(buf: array<byte>, n: nat, ghost ps: seq<Pair>) returns (ok: bool)
    requires Holds(buf[..], ps)
    modifies buf
    ensures ok <==> n < 2 * |ps| && n % 2 == 0
    ensures Holds(buf[..], if ok then Without(ps, n / 2) else ps)
  {
    if n >= Short(buf[..], 0) || n % 2 == 1 {
      return false;
    }
    ghost var b, m := buf[..], n / 2;
    HoldsDroppable(b, ps, m);
    EndIsTop(b, ps, m);
    EndIsTop(b, ps, m + 1);
    EndIsTop(b, ps, |ps|);
    DropBytes(buf, n / 2, |ps|, Top(ps, |ps|), Top(ps, m + 1), Size(ps[m]));
    DropPairFrom(b, ps, m);
    DroppedHolds(b, buf[..], ps, m);
    return true;
  }

  /** The stores of delitem on pair `m`, described by the offsets it reads from the table. */
  method DropBytes(buf: array<byte>, m: nat, ghost cnt: nat, ghost from: nat, ghost upto: nat, ghost d: nat)
    requires buf.Length == PBLKSIZ && m < cnt && 4 * cnt + 2 < from <= upto && upto + d <= PBLKSIZ
    requires Short(buf[..], 0) == 2 * cnt && End(buf[..], 2 * cnt) == from
    requires End(buf[..], 2 * m + 2) == upto && End(buf[..], 2 * m) == upto + d
    modifies buf
    ensures buf[..] == DropPair(old(buf[..]), m, cnt, from, upto, d)
  {
    hide Short, SetShort, DropPair;
    var i2 := Short(buf[..], 0);
    if 2 * m == i2 - 2 {
      LastDropped(buf[..], m, upto, d);
      PutShort(buf, 0, i2 - 2);
      return;
    }
    var i1 := PBLKSIZ;
    if m > 0 {
      i1 := Short(buf[..], 2 * m);
    }
    i1 := i1 - Short(buf[..], 2 * m + 2);
    MoveItems(buf, m, i2 / 2, Short(buf[..], i2), Short(buf[..], 2 * m + 2), i1);
  }

  /** Dropping the last pair only shortens the table. */
  lemma LastDropped(b: seq<byte>, m: nat, at: nat, d: nat)
    requires |b| == PBLKSIZ && 4 * m + 6 < at && at + d <= PBLKSIZ
    ensures DropPair(b, m, m + 1, at, at, d) == SetShort(b, 0, 2 * m)
  {
    assert Splice(b, at + d, b[at..at]) == b;
  }

  lemma SpliceSame(b: seq<byte>, lo: nat, hi: nat)
    requires lo <= hi <= |b|
    ensures Splice(b, lo, b[lo..hi]) == b
  {
  }

  method MoveItems(buf: array<byte>, m: nat, cnt: nat, from: nat, upto: nat, d: nat)
    requires buf.Length == PBLKSIZ && m < cnt && 4 * cnt + 2 < from <= upto && upto + d <= PBLKSIZ
    modifies buf
    ensures buf[..] == DropPair(old(buf[..]), m, cnt, from, upto, d)
  {
    hide Short, SetShort, CloseFrom, Splice;
    SpliceSame(buf[..], from, upto);
    if d > 0 {
      Bcopy(buf[from..upto], buf, from + d);
    }
    PutShort(buf, 0, 2 * cnt - 2);
    CloseTable(buf, 2 * m + 1, 2 * cnt - 2, d);
  }

  method CloseTable(buf: array<byte>, first: nat, last: nat, d: nat)
    requires buf.Length == PBLKSIZ && 2 * last + 5 < PBLKSIZ
    modifies buf
    ensures buf[..] == CloseFrom(old(buf[..]), first, last, d)
  {
    var k := first;
    while k <= last
      invariant CloseFrom(buf[..], k, last, d) == CloseFrom(old(buf[..]), first, last, d)
    {
      PutShort(buf, k, (Short(buf[..], k + 2) + d) % 65536);
      k := k + 1;
    }
  }

  /** The page of the one pair "a" and "b": the count and two offsets, low bytes first, and the items at the end. */
  lemma OnePairPage(b: seq<byte>)
    requires Holds(b, [Pair([97], [98])])
    ensures b[0] == 2 && b[1] == 0 && b[2] == 255 && b[3] == 3 && b[4] == 254 && b[5] == 3
    ensures b[1022] == 98 && b[1023] == 97
  {
    var ps := [Pair([97], [98])];
    assert HoldsAt(b, ps[0], 0, Top(ps, 0));
    assert Short(b, 1) == 1023 && Short(b, 2) == 1022;
    assert b[1023..1024][0] == b[1023] && b[1022..1023][0] == b[1022];
  }
}

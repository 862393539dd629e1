/**
 The circular first-fit allocator of lib/gen/malloc.c over word addresses.  A header word holds
 twice the address of the next header, plus one while its block is busy.
 */
module Malloc {
  const WORD: int := 2
  const BLOCK: int := 1024

  predicate Busy(w: int) { w % 2 == 1 }

  function Ptr(w: int): int { w / 2 }

  function SetBusy(a: int): int { 2 * a + 1 }

  function Clear(a: int): int { 2 * a }

  // ----- the chain of headers -----

  predicate Link(mem: seq<int>, hs: seq<nat>, i: nat)
    requires i < |hs| - 1 && hs[i] < |mem|
  {
    Ptr(mem[hs[i]]) == hs[i + 1]
  }

  /** `hs` are the headers from allocs to alloct: increasing, linked, and wrapping round once. */
  ghost predicate Chain(mem: seq<int>, hs: seq<nat>, allocs: nat) {
    && |hs| >= 2 && hs[0] == allocs
    && (forall i, j :: 0 <= i < j < |hs| ==> hs[i] < hs[j])
    && (forall i :: 0 <= i < |hs| ==> hs[i] < |mem|)
    && (forall i {:trigger Link(mem, hs, i)} :: 0 <= i < |hs| - 1 ==> Link(mem, hs, i))
    && mem[hs[|hs| - 1]] == SetBusy(allocs)
    && Busy(mem[allocs])
  }

  predicate BlockAt(mem: seq<int>, hs: seq<nat>, i: int, h: nat, n: int) {
    0 < i < |hs| - 1 && hs[i] == h < |mem| && Busy(mem[h]) && hs[i + 1] - h - 1 >= n
  }

  /** `h` is the header of a busy block of at least `n` words. */
  ghost predicate BusyBlock(mem: seq<int>, hs: seq<nat>, h: nat, n: int) {
    exists i :: BlockAt(mem, hs, i, h, n)
  }

  /** Every live block has a busy header on the chain and at least the words asked for. */
  ghost predicate LiveOk(mem: seq<int>, hs: seq<nat>, live: map<nat, int>) {
    forall h {:trigger BusyBlock(mem, hs, h, live[h])} :: h in live ==> BusyBlock(mem, hs, h, live[h])
  }

  lemma Monotone(mem: seq<int>, hs: seq<nat>, allocs: nat, i: nat, j: nat)
    requires Chain(mem, hs, allocs) && i <= j < |hs|
    ensures hs[i] <= hs[j]
  {
  }

  /** A header points to the next one, the last one back to the first. */
  lemma NextHeader(mem: seq<int>, hs: seq<nat>, allocs: nat, i: nat)
    requires Chain(mem, hs, allocs) && i < |hs|
    ensures Ptr(mem[hs[i]]) == if i < |hs| - 1 then hs[i + 1] else allocs
    ensures Ptr(mem[hs[i]]) > hs[i] <==> i < |hs| - 1
  {
    if i < |hs| - 1 {
      assert Link(mem, hs, i);
    } else {
      assert hs[0] < hs[i];
    }
  }

  /** Words outside the headers do not matter to the chain. */
  lemma ChainFrame(mem: seq<int>, mem': seq<int>, hs: seq<nat>, allocs: nat, live: map<nat, int>)
    requires Chain(mem, hs, allocs) && LiveOk(mem, hs, live) && |mem| <= |mem'|
    requires forall a :: a in hs ==> mem'[a] == mem[a]
    ensures Chain(mem', hs, allocs) && LiveOk(mem', hs, live)
  {
    forall k | 0 <= k < |hs| - 1
      ensures Link(mem', hs, k)
    {
      assert Link(mem, hs, k);
    }
    forall h | h in live
      ensures BusyBlock(mem', hs, h, live[h])
    {
      assert BusyBlock(mem, hs, h, live[h]);
      var k :| BlockAt(mem, hs, k, h, live[h]);
      assert BlockAt(mem', hs, k, h, live[h]);
    }
  }

  // ----- coalescing -----

  /** Removing the header after index `i`. */
  function Drop(hs: seq<nat>, i: nat): seq<nat>
    requires i + 1 < |hs|
  {
    hs[..i + 1] + hs[i + 2..]
  }

  lemma DropAt(hs: seq<nat>, i: nat, k: nat)
    requires i + 1 < |hs| && k < |hs| - 1
    ensures |Drop(hs, i)| == |hs| - 1
    ensures Drop(hs, i)[k] == hs[if k <= i then k else k + 1]
  {
  }

  /** A free block swallows the free block behind it. */
  lemma MergeChain(mem: seq<int>, hs: seq<nat>, allocs: nat, i: nat)
    requires Chain(mem, hs, allocs) && i + 1 < |hs|
    requires !Busy(mem[hs[i]]) && !Busy(mem[hs[i + 1]])
    ensures i + 2 < |hs|
    ensures Chain(mem[hs[i] := mem[hs[i + 1]]], Drop(hs, i), allocs)
  {
    var mem', hs' := mem[hs[i] := mem[hs[i + 1]]], Drop(hs, i);
    forall k | 0 <= k < |hs'|
      ensures hs'[k] == hs[if k <= i then k else k + 1] && hs'[k] < |mem'|
    {
      DropAt(hs, i, k);
    }
    forall k | 0 <= k < |hs'| - 1
      ensures Link(mem', hs', k)
    {
      if k == i {
        assert Link(mem, hs, i + 1);
      } else {
        var k' := if k <= i then k else k + 1;
        assert Link(mem, hs, k');
        assert mem'[hs[k']] == mem[hs[k']];
      }
    }
  }

  lemma MergeLive(mem: seq<int>, hs: seq<nat>, allocs: nat, live: map<nat, int>, i: nat)
    requires Chain(mem, hs, allocs) && LiveOk(mem, hs, live) && i + 2 < |hs|
    requires !Busy(mem[hs[i]]) && !Busy(mem[hs[i + 1]])
    requires Chain(mem[hs[i] := mem[hs[i + 1]]], Drop(hs, i), allocs)
    ensures LiveOk(mem[hs[i] := mem[hs[i + 1]]], Drop(hs, i), live)
  {
    var mem', hs' := mem[hs[i] := mem[hs[i + 1]]], Drop(hs, i);
    forall h | h in live
      ensures BusyBlock(mem', hs', h, live[h])
    {
      assert BusyBlock(mem, hs, h, live[h]);
      var k :| BlockAt(mem, hs, k, h, live[h]);
      assert k != i && k != i + 1;
      var k' := if k <= i then k else k - 1;
      DropAt(hs, i, k');
      DropAt(hs, i, k' + 1);
      assert BlockAt(mem', hs', k', h, live[h]);
    }
  }

  /** From some header on, every block up to the last one is free, and together they span `n` words. */
  ghost predicate TailRun(mem: seq<int>, hs: seq<nat>, n: int) {
    exists i :: 0 <= i < |hs| - 1 && hs[|hs| - 1] - hs[i] >= n && FreeFrom(mem, hs, i)
  }

  ghost predicate FreeFrom(mem: seq<int>, hs: seq<nat>, i: int) {
    forall k :: 0 <= i <= k < |hs| - 1 ==> hs[k] < |mem| && !Busy(mem[hs[k]])
  }

  lemma MergeTailRun(mem: seq<int>, hs: seq<nat>, allocs: nat, i: nat, n: int)
    requires Chain(mem, hs, allocs) && i + 1 < |hs|
    requires !Busy(mem[hs[i]]) && !Busy(mem[hs[i + 1]]) && TailRun(mem, hs, n)
    ensures var mem' := mem[hs[i] := mem[hs[i + 1]]];
            Chain(mem', Drop(hs, i), allocs) && TailRun(mem', Drop(hs, i), n)
  {
    MergeChain(mem, hs, allocs, i);
    var mem', hs' := mem[hs[i] := mem[hs[i + 1]]], Drop(hs, i);
    var t :| 0 <= t < |hs| - 1 && hs[|hs| - 1] - hs[t] >= n && FreeFrom(mem, hs, t);
    var t' := if t <= i then t else if t == i + 1 then i else t - 1;
    assert hs'[t'] <= hs[t];
    assert FreeFrom(mem', hs', t') by {
      forall k | t' <= k < |hs'| - 1
        ensures !Busy(mem'[hs'[k]])
      {
        assert k > i ==> hs'[k] == hs[k + 1];
      }
    }
  }

  /** Every free block before index `i` is coalesced and too small for `nw` words. */
  ghost predicate Examined(mem: seq<int>, hs: seq<nat>, nw: nat, i: nat) {
    forall k {:trigger Small(mem, hs, nw, k)} :: 0 <= k < i ==> Small(mem, hs, nw, k)
  }

  predicate Small(mem: seq<int>, hs: seq<nat>, nw: nat, k: nat) {
    && k + 1 < |hs| && hs[k] < |mem| && hs[k + 1] < |mem|
    && (Busy(mem[hs[k]]) || (Busy(mem[hs[k + 1]]) && hs[k + 1] - hs[k] < nw))
  }

  lemma ExaminedNone(mem: seq<int>, hs: seq<nat>, nw: nat)
    ensures Examined(mem, hs, nw, 0)
  {
  }

  lemma ExaminedMore(mem: seq<int>, hs: seq<nat>, nw: nat, i: nat)
    requires Examined(mem, hs, nw, i) && Small(mem, hs, nw, i)
    ensures Examined(mem, hs, nw, i + 1)
  {
  }

  lemma ExaminedKept(mem: seq<int>, hs: seq<nat>, mem': seq<int>, hs': seq<nat>, allocs: nat, nw: nat, i: nat)
    requires Chain(mem, hs, allocs) && Chain(mem', hs', allocs) && i < |hs| && i < |hs'| && |mem'| == |mem|
    requires hs'[..i + 1] == hs[..i + 1] && !Busy(mem[hs[i]]) && !Busy(mem'[hs[i]])
    requires forall a :: 0 <= a < |mem| && a != hs[i] ==> mem'[a] == mem[a]
    requires Examined(mem, hs, nw, i)
    ensures Examined(mem', hs', nw, i)
  {
    forall k | 0 <= k < i
      ensures Small(mem', hs', nw, k)
    {
      assert Small(mem, hs, nw, k);
      assert hs'[..i + 1][k] == hs[k] && hs'[..i + 1][k + 1] == hs[k + 1];
    }
  }

  /** After a full unsuccessful pass no free run at the end is long enough. */
  lemma NoTailRun(mem: seq<int>, hs: seq<nat>, allocs: nat, nw: nat, n: int)
    requires Chain(mem, hs, allocs) && |hs| >= 1 && Examined(mem, hs, nw, |hs| - 1)
    requires n > 0 ==> TailRun(mem, hs, n)
    ensures n > 0 ==> n < nw
  {
    if n > 0 {
      var t :| 0 <= t < |hs| - 1 && hs[|hs| - 1] - hs[t] >= n && FreeFrom(mem, hs, t);
      assert Small(mem, hs, nw, t);
    }
  }

  // ----- carving a block -----

  function Insert(hs: seq<nat>, i: nat, a: nat): (r: seq<nat>)
    requires i < |hs|
    ensures |r| == |hs| + 1
  {
    hs[..i + 1] + [a] + hs[i + 1..]
  }

  lemma InsertAt(hs: seq<nat>, i: nat, a: nat, k: nat)
    requires i < |hs| && k <= |hs|
    ensures |Insert(hs, i, a)| == |hs| + 1
    ensures Insert(hs, i, a)[k] == if k <= i then hs[k] else if k == i + 1 then a else hs[k - 1]
  {
  }

  /** Splitting a free block puts a free remainder behind it. */
  lemma SplitChain(mem: seq<int>, hs: seq<nat>, allocs: nat, i: nat, a: nat)
    requires Chain(mem, hs, allocs) && i + 1 < |hs| && !Busy(mem[hs[i]]) && hs[i] < a < hs[i + 1]
    ensures Chain(mem[a := mem[hs[i]]][hs[i] := Clear(a)], Insert(hs, i, a), allocs)
  {
    hide Insert;
    var mem', hs' := mem[a := mem[hs[i]]][hs[i] := Clear(a)], Insert(hs, i, a);
    forall k | 0 <= k < |hs'|
      ensures hs'[k] < |mem'|
    {
      InsertAt(hs, i, a, k);
    }
    forall p, q | 0 <= p < q < |hs'|
      ensures hs'[p] < hs'[q]
    {
      InsertAt(hs, i, a, p);
      InsertAt(hs, i, a, q);
      Monotone(mem, hs, allocs, if p <= i then p else i, i);
      Monotone(mem, hs, allocs, i + 1, if q > i + 1 then q - 1 else i + 1);
    }
    forall k | 0 <= k < |hs'| - 1
      ensures Link(mem', hs', k)
    {
      SplitLink(mem, hs, allocs, i, a, k);
    }
    InsertAt(hs, i, a, 0);
    InsertAt(hs, i, a, |hs|);
  }

  lemma SplitLink(mem: seq<int>, hs: seq<nat>, allocs: nat, i: nat, a: nat, k: nat)
    requires Chain(mem, hs, allocs) && i + 1 < |hs| && hs[i] < a < hs[i + 1] && k < |hs|
    ensures var mem', hs' := mem[a := mem[hs[i]]][hs[i] := Clear(a)], Insert(hs, i, a);
            k < |hs'| - 1 && hs'[k] < |mem'| && Link(mem', hs', k)
  {
    hide Insert;
    InsertAt(hs, i, a, k);
    InsertAt(hs, i, a, k + 1);
    if k == i + 1 {
      assert Link(mem, hs, i);
    } else if k != i {
      assert Link(mem, hs, if k <= i then k else k - 1);
    }
  }

  lemma Between(mem: seq<int>, hs: seq<nat>, allocs: nat, i: nat, a: nat)
    requires Chain(mem, hs, allocs) && i + 1 < |hs| && hs[i] < a < hs[i + 1]
    ensures a !in hs
  {
    forall k | 0 <= k < |hs|
      ensures hs[k] != a
    {
      if k <= i {
        Monotone(mem, hs, allocs, k, i);
      } else {
        Monotone(mem, hs, allocs, i + 1, k);
      }
    }
  }

  lemma SplitLive(mem: seq<int>, hs: seq<nat>, allocs: nat, live: map<nat, int>, i: nat, a: nat)
    requires Chain(mem, hs, allocs) && LiveOk(mem, hs, live)
    requires i + 1 < |hs| && !Busy(mem[hs[i]]) && hs[i] < a < hs[i + 1]
    requires Chain(mem[a := mem[hs[i]]][hs[i] := Clear(a)], Insert(hs, i, a), allocs)
    ensures LiveOk(mem[a := mem[hs[i]]][hs[i] := Clear(a)], Insert(hs, i, a), live)
  {
    var mem', hs' := mem[a := mem[hs[i]]][hs[i] := Clear(a)], Insert(hs, i, a);
    forall h | h in live
      ensures BusyBlock(mem', hs', h, live[h])
    {
      assert BusyBlock(mem, hs, h, live[h]);
      var k :| BlockAt(mem, hs, k, h, live[h]);
      assert k != i;
      var k' := if k <= i then k else k + 1;
      InsertAt(hs, i, a, k');
      InsertAt(hs, i, a, k' + 1);
      Between(mem, hs, allocs, i, a);
      assert hs[k] in hs;
      assert BlockAt(mem', hs', k', h, live[h]);
    }
  }

  /** Marking the free block at index `i` busy. */
  lemma TakeChain(mem: seq<int>, hs: seq<nat>, allocs: nat, live: map<nat, int>, i: nat, n: int)
    requires Chain(mem, hs, allocs) && LiveOk(mem, hs, live)
    requires i + 1 < |hs| && !Busy(mem[hs[i]]) && hs[i + 1] - hs[i] - 1 >= n
    ensures hs[i] !in live
    ensures var mem' := mem[hs[i] := SetBusy(hs[i + 1])];
            Chain(mem', hs, allocs) && LiveOk(mem', hs, live[hs[i] := n])
  {
    var mem' := mem[hs[i] := SetBusy(hs[i + 1])];
    forall k | 0 <= k < |hs| - 1
      ensures Link(mem', hs, k)
    {
      assert Link(mem, hs, k);
      assert k != i ==> mem'[hs[k]] == mem[hs[k]];
    }
    assert Chain(mem', hs, allocs);
    assert hs[i] in live ==> BusyBlock(mem, hs, hs[i], live[hs[i]]);
    var live' := live[hs[i] := n];
    forall h | h in live'
      ensures BusyBlock(mem', hs, h, live'[h])
    {
      if h == hs[i] {
        assert BlockAt(mem', hs, i, h, n);
      } else {
        assert BusyBlock(mem, hs, h, live[h]);
        var k :| BlockAt(mem, hs, k, h, live[h]);
        assert BlockAt(mem', hs, k, h, live[h]);
      }
    }
  }

  // ----- growing the arena -----

  /** Words that line the break up so that `nw` more fit before the next multiple of BLOCK bytes. */
  function GrowBy(brk: nat, nw: nat): (t: int)
    ensures t >= nw && WORD * (brk + t) % BLOCK == 0 && WORD * t < WORD * nw + BLOCK
  {
    ((WORD * brk + WORD * nw + BLOCK - 1) / BLOCK * BLOCK - WORD * brk) / WORD
  }

  /** The words after the break moved by `t`: the old last header points to the new region. */
  function Grown(mem: seq<int>, alloct: nat, allocs: nat, t: nat): seq<int>
    requires alloct < |mem| && t >= 2
  {
    var q := |mem|;
    (mem + seq(t, _ => 0))
      [alloct := if q == alloct + 1 then Clear(q) else SetBusy(q)]
      [q := Clear(q + t - 1)]
      [q + t - 1 := SetBusy(allocs)]
  }

  lemma GrowChain(mem: seq<int>, hs: seq<nat>, allocs: nat, live: map<nat, int>, t: nat)
    requires Chain(mem, hs, allocs) && LiveOk(mem, hs, live) && t >= 2
    ensures var mem' := Grown(mem, hs[|hs| - 1], allocs, t);
            var hs': seq<nat> := hs + [|mem|, |mem| + t - 1];
            Chain(mem', hs', allocs) && LiveOk(mem', hs', live)
  {
    var mem' := Grown(mem, hs[|hs| - 1], allocs, t);
    var hs': seq<nat> := hs + [|mem|, |mem| + t - 1];
    forall k | 0 <= k < |hs'| - 1
      ensures Link(mem', hs', k)
    {
      assert k < |hs| - 1 ==> Link(mem, hs, k) && hs'[k] == hs[k] && mem'[hs[k]] == mem[hs[k]];
    }
    forall h | h in live
      ensures BusyBlock(mem', hs', h, live[h])
    {
      assert BusyBlock(mem, hs, h, live[h]);
      var k :| BlockAt(mem, hs, k, h, live[h]);
      assert hs[k] < hs[|hs| - 1];
      assert BlockAt(mem', hs', k, h, live[h]);
    }
  }

  /** The new region is a free run of its own; next to the old end it lengthens the run there. */
  lemma GrowTailRun(mem: seq<int>, hs: seq<nat>, allocs: nat, live: map<nat, int>, t: nat, n: int)
    requires Chain(mem, hs, allocs) && LiveOk(mem, hs, live) && t >= 2
    requires n > 0 ==> TailRun(mem, hs, n) && hs[|hs| - 1] + 1 == |mem|
    ensures var mem' := Grown(mem, hs[|hs| - 1], allocs, t);
            var hs': seq<nat> := hs + [|mem|, |mem| + t - 1];
            Chain(mem', hs', allocs) && TailRun(mem', hs', if n > 0 then n + t else t - 1)
  {
    GrowChain(mem, hs, allocs, live, t);
    var mem' := Grown(mem, hs[|hs| - 1], allocs, t);
    var hs': seq<nat> := hs + [|mem|, |mem| + t - 1];
    if n > 0 {
      var i :| 0 <= i < |hs| - 1 && hs[|hs| - 1] - hs[i] >= n && FreeFrom(mem, hs, i);
      forall k | i <= k < |hs'| - 1
        ensures !Busy(mem'[hs'[k]])
      {
        assert k < |hs| - 1 ==> hs'[k] == hs[k] && mem'[hs[k]] == mem[hs[k]];
      }
      assert hs'[i] == hs[i] && FreeFrom(mem', hs', i);
    } else {
      assert FreeFrom(mem', hs', |hs|);
    }
  }

  // ----- what an allocation leaves alone -----

  /** Words that were no headers are untouched, and the headers are old ones or lie in new memory. */
  ghost predicate Kept(mem0: seq<int>, hs0: seq<nat>, mem: seq<int>, hs: seq<nat>) {
    && |mem0| <= |mem|
    && (forall a :: 0 <= a < |mem0| && a !in hs0 ==> mem[a] == mem0[a])
    && (forall h :: h in hs ==> h in hs0 || h >= |mem0|)
    && Coarser(mem0, hs0, mem, hs)
  }

  // ----- which block a search finds -----

  /** The header `h` is that of a free block; before the first call there is none. */
  predicate FreeHead(mem: seq<int>, hs: seq<nat>, h: nat) {
    hs != [] && hs[0] < |mem| && mem[hs[0]] != 0 && h < |mem| && !Busy(mem[h])
  }

  predicate Inside(hs: seq<nat>, i: int, g: nat) {
    0 <= i < |hs| - 1 && hs[i] < g < hs[i + 1]
  }

  function Top(hs: seq<nat>): nat {
    if hs == [] then 0 else hs[|hs| - 1]
  }

  /**
   Up to the old end of the arena the headers are old ones, free and busy as before, and the old headers that are gone
   are those of free blocks behind free ones.
   */
  ghost predicate Coarser(mem0: seq<int>, hs0: seq<nat>, mem: seq<int>, hs: seq<nat>) {
    && hs0 != [] && hs != [] && Top(hs) >= Top(hs0)
    && (forall g :: g in hs0 ==> hs[0] <= g <= Top(hs0))
    && (forall h :: h in hs && h < Top(hs0) ==> h in hs0 && h < |mem| && (Busy(mem[h]) <==> !FreeHead(mem0, hs0, h)))
    && (forall g, i {:trigger Inside(hs, i, g)} :: g in hs0 && Inside(hs, i, g) ==>
          hs[i] < |mem| && !Busy(mem[hs[i]]) && (g < Top(hs0) ==> FreeHead(mem0, hs0, g)))
  }

  /** From `h` up to the header `e` there are free blocks only. */
  ghost predicate SpanFree(mem: seq<int>, hs: seq<nat>, h: nat, e: nat) {
    h in hs && e in hs && h < e && forall g :: g in hs && h <= g < e ==> FreeHead(mem, hs, g)
  }

  /** The free blocks from `h` on make a block of `nw` words. */
  ghost predicate FitsFrom(mem: seq<int>, hs: seq<nat>, h: nat, nw: nat) {
    exists e: nat :: SpanFree(mem, hs, h, e) && e - h >= nw
  }

  ghost predicate NoneFits(mem: seq<int>, hs: seq<nat>, nw: nat, lo: nat, hi: int) {
    forall h {:trigger FitsFrom(mem, hs, h, nw)} :: h in hs && lo <= h < hi ==> !FitsFrom(mem, hs, h, nw)
  }

  /**
   The block that a search from `allocp` on takes: the first one with room, in the order of addresses and then from the
   beginning of the arena; if there is none, one that reaches beyond the old end.
   */
  ghost predicate FirstFit(mem: seq<int>, hs: seq<nat>, allocp: nat, nw: nat, p: nat) {
    if NoneFits(mem, hs, nw, 0, Top(hs)) then p + nw > Top(hs)
    else
      && FitsFrom(mem, hs, p, nw)
      && if NoneFits(mem, hs, nw, allocp, Top(hs)) then NoneFits(mem, hs, nw, 0, p)
         else allocp <= p && NoneFits(mem, hs, nw, allocp, p)
  }

  lemma MergeCoarser(mem0: seq<int>, hs0: seq<nat>, mem: seq<int>, hs: seq<nat>, allocs: nat, i: nat)
    requires Chain(mem, hs, allocs) && i + 1 < |hs| && Coarser(mem0, hs0, mem, hs)
    requires !Busy(mem[hs[i]]) && !Busy(mem[hs[i + 1]])
    ensures Coarser(mem0, hs0, mem[hs[i] := mem[hs[i + 1]]], Drop(hs, i))
  {
    var mem', hs' := mem[hs[i] := mem[hs[i + 1]]], Drop(hs, i);
    assert Busy(mem[hs[|hs| - 1]]);
    DropAt(hs, i, 0);
    DropAt(hs, i, |hs| - 2);
    forall h | h in hs'
      ensures h in hs && h < |mem'| && (Busy(mem'[h]) <==> Busy(mem[h]))
    {
      var k :| 0 <= k < |hs'| && hs'[k] == h;
      DropAt(hs, i, k);
    }
    forall g, k | g in hs0 && Inside(hs', k, g)
      ensures hs'[k] < |mem'| && !Busy(mem'[hs'[k]]) && (g < Top(hs0) ==> FreeHead(mem0, hs0, g))
    {
      MergeInside(mem0, hs0, mem, hs, i, k, g);
      assert hs'[k] in hs';
    }
  }

  lemma MergeInside(mem0: seq<int>, hs0: seq<nat>, mem: seq<int>, hs: seq<nat>, i: nat, k: int, g: nat)
    requires Coarser(mem0, hs0, mem, hs) && i + 1 < |hs| && hs[i] < |mem| && hs[i + 1] < |mem|
    requires !Busy(mem[hs[i]]) && !Busy(mem[hs[i + 1]]) && g in hs0 && Inside(Drop(hs, i), k, g)
    ensures var h := Drop(hs, i)[k]; h < |mem| && !Busy(mem[h]) && (g < Top(hs0) ==> FreeHead(mem0, hs0, g))
  {
    hide FreeHead;
    DropAt(hs, i, k);
    DropAt(hs, i, k + 1);
    if k == i {
      assert Inside(hs, i, g) || g == hs[i + 1] || Inside(hs, i + 1, g);
      assert hs[i + 1] in hs;
    } else {
      assert Inside(hs, if k < i then k else k + 1, g);
    }
  }

  lemma GrowCoarser(mem0: seq<int>, hs0: seq<nat>, mem: seq<int>, hs: seq<nat>, allocs: nat, t: nat)
    requires Chain(mem, hs, allocs) && Coarser(mem0, hs0, mem, hs) && t >= 2
    ensures Coarser(mem0, hs0, Grown(mem, hs[|hs| - 1], allocs, t), hs + [|mem|, |mem| + t - 1])
  {
    var mem' := Grown(mem, hs[|hs| - 1], allocs, t);
    var hs': seq<nat> := hs + [|mem|, |mem| + t - 1];
    forall h | h in hs' && h < Top(hs0)
      ensures h in hs && mem'[h] == mem[h]
    {
    }
    forall g, k | g in hs0 && Inside(hs', k, g)
      ensures Inside(hs, k, g) && mem'[hs'[k]] == mem[hs[k]]
    {
      assert k < |hs| - 1;
    }
  }

  lemma SameCoarser(mem0: seq<int>, mem: seq<int>, hs: seq<nat>, allocs: nat)
    requires Chain(mem, hs, allocs) && allocs < |mem0|
    requires mem0 == mem || (mem0[allocs] == 0 && forall h :: h in hs ==> Busy(mem[h]))
    ensures Coarser(mem0, hs, mem, hs)
  {
    forall g | g in hs
      ensures hs[0] <= g <= Top(hs)
    {
    }
  }

  /** A free block with room is one that would have fitted before. */
  lemma FoundFits(mem0: seq<int>, hs0: seq<nat>, mem: seq<int>, hs: seq<nat>, allocs: nat, nw: nat, i: nat)
    requires Chain(mem, hs, allocs) && Coarser(mem0, hs0, mem, hs) && i + 1 < |hs| && !Busy(mem[hs[i]]) && nw >= 1
    requires hs[i + 1] >= hs[i] + nw && hs[i] + nw <= Top(hs0)
    ensures FitsFrom(mem0, hs0, hs[i], nw)
  {
    var p, q := hs[i], hs[i + 1];
    var e := if q <= Top(hs0) then q else Top(hs0);
    assert p in hs && q in hs;
    forall g | g in hs0 && p <= g < e
      ensures FreeHead(mem0, hs0, g)
    {
      assert g > p ==> Inside(hs, i, g);
    }
    assert SpanFree(mem0, hs0, p, e);
  }

  /** No old header in a block that was passed over had room. */
  lemma PassedOver(mem0: seq<int>, hs0: seq<nat>, mem: seq<int>, hs: seq<nat>, allocs: nat, nw: nat, i: nat)
    requires Chain(mem, hs, allocs) && Coarser(mem0, hs0, mem, hs) && Small(mem, hs, nw, i) && nw >= 1
    ensures NoneFits(mem0, hs0, nw, hs[i], hs[i + 1])
  {
    forall h | h in hs0 && hs[i] <= h < hs[i + 1]
      ensures !FitsFrom(mem0, hs0, h, nw)
    {
      assert hs[i] in hs && hs[i + 1] in hs;
      assert h > hs[i] ==> Inside(hs, i, h);
      forall e: nat | SpanFree(mem0, hs0, h, e)
        ensures e - h < nw
      {
        assert FreeHead(mem0, hs0, h);
      }
    }
  }

  lemma NoneMore(mem: seq<int>, hs: seq<nat>, nw: nat, lo: nat, mid: nat, hi: int)
    requires NoneFits(mem, hs, nw, lo, mid) && NoneFits(mem, hs, nw, mid, hi)
    ensures NoneFits(mem, hs, nw, lo, hi)
  {
  }

  lemma NoneBelow(mem0: seq<int>, hs0: seq<nat>, mem: seq<int>, hs: seq<nat>, nw: nat, lo: nat)
    requires Coarser(mem0, hs0, mem, hs)
    ensures NoneFits(mem0, hs0, nw, 0, hs[0]) && NoneFits(mem0, hs0, nw, lo, lo)
  {
  }

  lemma NoneFewer(mem: seq<int>, hs: seq<nat>, nw: nat, lo: nat, hi: int, lo': nat, hi': int)
    requires NoneFits(mem, hs, nw, lo, hi) && lo <= lo' && hi' <= hi
    ensures NoneFits(mem, hs, nw, lo', hi')
  {
  }

  /** The words of a live block are no headers. */
  lemma LiveWord(mem: seq<int>, hs: seq<nat>, allocs: nat, live: map<nat, int>, h: nat, a: nat)
    requires Chain(mem, hs, allocs) && LiveOk(mem, hs, live) && h in live && h < a <= h + live[h]
    ensures a < |mem| && a !in hs
  {
    assert BusyBlock(mem, hs, h, live[h]);
    var i :| BlockAt(mem, hs, i, h, live[h]);
    Between(mem, hs, allocs, i, a);
  }

  lemma GrowSound(mem: seq<int>, hs: seq<nat>, allocs: nat, live: map<nat, int>, t: nat, n: int,
                  mem0: seq<int>, hs0: seq<nat>, mem': seq<int>)
    returns (hs': seq<nat>)
    requires Chain(mem, hs, allocs) && LiveOk(mem, hs, live) && Kept(mem0, hs0, mem, hs) && t >= 2
    requires n > 0 ==> TailRun(mem, hs, n) && hs[|hs| - 1] + 1 == |mem|
    requires mem' == Grown(mem, hs[|hs| - 1], allocs, t)
    ensures Chain(mem', hs', allocs) && LiveOk(mem', hs', live) && Kept(mem0, hs0, mem', hs')
    ensures TailRun(mem', hs', if n > 0 then n + t else t - 1)
    ensures hs'[|hs'| - 1] == |mem| + t - 1 == |mem'| - 1
  {
    GrowChain(mem, hs, allocs, live, t);
    GrowTailRun(mem, hs, allocs, live, t, n);
    GrowCoarser(mem0, hs0, mem, hs, allocs, t);
    assert hs[|hs| - 1] in hs;
    hs' := hs + [|mem|, |mem| + t - 1];
  }

  // ----- the code at the label found -----

  /** The stores of a carved block: its header, and a header for a remainder. */
  ghost predicate CarvedFrom(mem: seq<int>, mem': seq<int>, p: nat, q: nat, a: nat)
    requires p < |mem| && a < |mem|
  {
    && |mem'| == |mem|
    && mem'[p] == SetBusy(a)
    && (q > a ==> mem'[a] == mem[p])
    && (forall x :: 0 <= x < |mem| && x != p && (x != a || q <= a) ==> mem'[x] == mem[x])
  }

  lemma SplitTaken(mem: seq<int>, hs: seq<nat>, allocs: nat, live: map<nat, int>, i: nat, a: nat, n: int)
    requires i + 1 < |hs| && hs[i] < |mem| && a < |mem|
    requires var mem1, hs1 := mem[a := mem[hs[i]]][hs[i] := Clear(a)], Insert(hs, i, a);
             && Chain(mem1, hs1, allocs) && LiveOk(mem1, hs1, live)
             && hs1[i] == hs[i] && hs1[i + 1] == a && a - hs[i] - 1 >= n
    ensures hs[i] !in live
    ensures var mem', hs1 := mem[a := mem[hs[i]]][hs[i] := SetBusy(a)], Insert(hs, i, a);
            Chain(mem', hs1, allocs) && LiveOk(mem', hs1, live[hs[i] := n])
  {
    var mem1 := mem[a := mem[hs[i]]][hs[i] := Clear(a)];
    TakeChain(mem1, Insert(hs, i, a), allocs, live, i, n);
    assert mem1[hs[i] := SetBusy(a)] == mem[a := mem[hs[i]]][hs[i] := SetBusy(a)];
  }

  /** A carved block is live, and its end is a header again. */
  lemma CarveChain(mem: seq<int>, hs: seq<nat>, allocs: nat, live: map<nat, int>, i: nat, nw: nat, mem': seq<int>)
    returns (hs': seq<nat>)
    requires Chain(mem, hs, allocs) && LiveOk(mem, hs, live) && nw >= 1
    requires i < |hs| - 1 && !Busy(mem[hs[i]]) && hs[i + 1] >= hs[i] + nw
    requires CarvedFrom(mem, mem', hs[i], hs[i + 1], hs[i] + nw)
    ensures hs[i] !in live
    ensures Chain(mem', hs', allocs) && LiveOk(mem', hs', live[hs[i] := nw - 1])
    ensures hs[i] + nw in hs' && hs'[|hs'| - 1] == hs[|hs| - 1]
  {
    var p, q, a := hs[i], hs[i + 1], hs[i] + nw;
    if q > a {
      hs' := Insert(hs, i, a);
      SplitChain(mem, hs, allocs, i, a);
      SplitLive(mem, hs, allocs, live, i, a);
      InsertAt(hs, i, a, i);
      InsertAt(hs, i, a, i + 1);
      InsertAt(hs, i, a, |hs|);
      assert mem' == mem[a := mem[p]][p := SetBusy(a)];
      SplitTaken(mem, hs, allocs, live, i, a, nw - 1);
      assert hs'[i + 1] in hs';
    } else {
      hs' := hs;
      assert mem' == mem[p := SetBusy(q)];
      TakeChain(mem, hs, allocs, live, i, nw - 1);
      assert hs'[i + 1] in hs';
    }
  }

  /**
   What an allocation of `n` words at header `h` did to the memory `mem0` with headers `hs0`:
   words that were no headers are untouched, but for the new header at the end of the block,
   and what that word held is kept in `saved`.
   */
  ghost predicate Carved(mem0: seq<int>, hs0: seq<nat>, mem: seq<int>, h: nat, n: int, saved: int) {
    && |mem0| <= |mem| && (h in hs0 || h >= |mem0|)
    && (forall a :: 0 <= a < |mem0| && a !in hs0 && a != h + 1 + n ==> mem[a] == mem0[a])
    && (0 <= h + 1 + n < |mem0| && h + 1 + n !in hs0 ==> saved == mem0[h + 1 + n])
  }

  lemma CarveKept(mem: seq<int>, hs: seq<nat>, allocs: nat, i: nat, nw: nat, mem': seq<int>,
                  mem0: seq<int>, hs0: seq<nat>, saved: int)
    requires Chain(mem, hs, allocs) && Kept(mem0, hs0, mem, hs) && nw >= 1
    requires i < |hs| - 1 && hs[i + 1] >= hs[i] + nw
    requires CarvedFrom(mem, mem', hs[i], hs[i + 1], hs[i] + nw)
    requires hs[i + 1] > hs[i] + nw ==> saved == mem[hs[i] + nw]
    ensures Carved(mem0, hs0, mem', hs[i], nw - 1, saved)
  {
    assert hs[i] in hs && hs[i + 1] in hs;
  }

  // ----- free -----

  predicate FreeAt(mem: seq<int>, hs: seq<nat>, i: int, h: nat) {
    0 <= i < |hs| - 1 && hs[i] == h < |mem| && !Busy(mem[h])
  }

  /** `h` is the header of a free block on the chain. */
  ghost predicate FreeBlock(mem: seq<int>, hs: seq<nat>, h: nat) {
    exists i :: FreeAt(mem, hs, i, h)
  }

  lemma FreeSound(mem: seq<int>, hs: seq<nat>, allocs: nat, live: map<nat, int>, h: nat)
    requires Chain(mem, hs, allocs) && LiveOk(mem, hs, live) && h in live
    ensures h in hs && h < |mem| && Clear(Ptr(mem[h])) == mem[h] - 1
    ensures var mem' := mem[h := Clear(Ptr(mem[h]))];
            Chain(mem', hs, allocs) && LiveOk(mem', hs, live - {h}) && FreeBlock(mem', hs, h)
  {
    assert BusyBlock(mem, hs, h, live[h]);
    var i :| BlockAt(mem, hs, i, h, live[h]);
    var mem' := mem[h := Clear(Ptr(mem[h]))];
    forall k | 0 <= k < |hs| - 1
      ensures Link(mem', hs, k)
    {
      assert Link(mem, hs, k);
    }
    assert hs[0] < h < hs[|hs| - 1];
    assert FreeAt(mem', hs, i, h);
    forall g | g in live - {h}
      ensures BusyBlock(mem', hs, g, live[g])
    {
      assert BusyBlock(mem, hs, g, live[g]);
      var k :| BlockAt(mem, hs, k, g, live[g]);
      assert BlockAt(mem', hs, k, g, live[g]);
    }
  }

  // ----- the contents of blocks -----

  /** The `n` words behind header `h`. */
  function Data(mem: seq<int>, h: nat, n: int): seq<int> {
    if 0 <= n && h + 1 + n <= |mem| then mem[h + 1..h + 1 + n] else []
  }

  ghost predicate SameData(mem0: seq<int>, mem: seq<int>, live: map<nat, int>) {
    forall h {:trigger Data(mem, h, live[h])} :: h in live ==> Data(mem, h, live[h]) == Data(mem0, h, live[h])
  }

  /** Two live blocks share no words. */
  lemma LiveDisjoint(mem: seq<int>, hs: seq<nat>, allocs: nat, live: map<nat, int>, h: nat, g: nat)
    requires Chain(mem, hs, allocs) && LiveOk(mem, hs, live) && h in live && g in live && h < g
    ensures h + 1 + live[h] <= g && g + 1 + live[g] <= |mem|
  {
    assert BusyBlock(mem, hs, h, live[h]) && BusyBlock(mem, hs, g, live[g]);
    var i :| BlockAt(mem, hs, i, h, live[h]);
    var j :| BlockAt(mem, hs, j, g, live[g]);
    if i < j {
      Monotone(mem, hs, allocs, i + 1, j);
    }
  }

  /** An allocation keeps the contents of every live block. */
  lemma CarvedKeepsData(mem0: seq<int>, hs0: seq<nat>, live0: map<nat, int>, allocs: nat,
                        mem: seq<int>, hs: seq<nat>, live: map<nat, int>, h: nat, n: int, saved: int)
    requires live0 != map[] ==> Chain(mem0, hs0, allocs) && LiveOk(mem0, hs0, live0)
    requires Chain(mem, hs, allocs) && LiveOk(mem, hs, live) && live == live0[h := n] && h !in live0
    requires Carved(mem0, hs0, mem, h, n, saved) && h + 1 + n >= 0 && h + 1 + n in hs
    ensures SameData(mem0, mem, live0)
  {
    hide Chain, LiveOk, Carved, Data;
    forall g | g in live0
      ensures Data(mem, g, live0[g]) == Data(mem0, g, live0[g])
    {
      assert g in live && live[g] == live0[g];
      BlockUncarved(mem0, hs0, live0, allocs, mem, hs, live, h, n, saved, g);
    }
  }

  lemma BlockUncarved(mem0: seq<int>, hs0: seq<nat>, live0: map<nat, int>, allocs: nat,
                      mem: seq<int>, hs: seq<nat>, live: map<nat, int>, h: nat, n: int, saved: int, g: nat)
    requires Chain(mem0, hs0, allocs) && LiveOk(mem0, hs0, live0) && Chain(mem, hs, allocs) && LiveOk(mem, hs, live)
    requires g in live0 && g in live && live[g] == live0[g]
    requires Carved(mem0, hs0, mem, h, n, saved) && h + 1 + n >= 0 && h + 1 + n in hs
    ensures Data(mem, g, live0[g]) == Data(mem0, g, live0[g])
  {
    hide Chain, LiveOk, Data;
    DataLength(mem0, hs0, allocs, live0, g);
    forall a: nat | g < a <= g + live0[g]
      ensures a < |mem0| && mem[a] == mem0[a]
    {
      LiveWord(mem0, hs0, allocs, live0, g, a);
      LiveWord(mem, hs, allocs, live, g, a);
    }
    DataEqual(mem0, mem, g, live0[g]);
  }

  lemma DataEqual(mem0: seq<int>, mem: seq<int>, h: nat, n: int)
    requires |mem0| <= |mem| && h + 1 + n <= |mem0|
    requires forall a :: h < a <= h + n ==> mem[a] == mem0[a]
    ensures Data(mem, h, n) == Data(mem0, h, n)
  {
  }

  lemma DataLength(mem: seq<int>, hs: seq<nat>, allocs: nat, live: map<nat, int>, h: nat)
    requires Chain(mem, hs, allocs) && LiveOk(mem, hs, live) && h in live
    ensures h + 1 + live[h] < |mem|
  {
    assert BusyBlock(mem, hs, h, live[h]);
    var i :| BlockAt(mem, hs, i, h, live[h]);
    assert hs[i + 1] < |mem|;
  }

  // ----- realloc -----

  /** Writing a header or another block's words keeps the contents of a live block. */
  lemma WritesKeepData(mem: seq<int>, hs: seq<nat>, allocs: nat, live: map<nat, int>, mem': seq<int>, lo: nat, hi: nat)
    requires Chain(mem, hs, allocs) && LiveOk(mem, hs, live) && |mem'| == |mem|
    requires forall a :: 0 <= a < |mem| && !(lo <= a < hi) ==> mem'[a] == mem[a]
    requires forall h :: h in live ==> h + live[h] < lo || hi <= h + 1
    ensures SameData(mem, mem', live)
  {
    forall h | h in live
      ensures Data(mem', h, live[h]) == Data(mem, h, live[h])
    {
      DataLength(mem, hs, allocs, live, h);
      DataEqual(mem, mem', h, live[h]);
    }
  }

  lemma FreeKeepsData(mem: seq<int>, hs: seq<nat>, allocs: nat, live: map<nat, int>, h: nat)
    requires Chain(mem, hs, allocs) && LiveOk(mem, hs, live) && h in live && h < |mem|
    ensures SameData(mem, mem[h := Clear(Ptr(mem[h]))], live)
  {
    var mem' := mem[h := Clear(Ptr(mem[h]))];
    forall g | g in live
      ensures g + live[g] < h || h + 1 <= g + 1
    {
      if g < h {
        LiveDisjoint(mem, hs, allocs, live, g, h);
      }
    }
    WritesKeepData(mem, hs, allocs, live, mem', h, h + 1);
  }

  lemma BlockWritesKeepData(mem: seq<int>, hs: seq<nat>, allocs: nat, live: map<nat, int>, mem': seq<int>, h: nat)
    requires Chain(mem, hs, allocs) && LiveOk(mem, hs, live) && |mem'| == |mem| && h in live && live[h] >= 0
    requires forall a :: 0 <= a < |mem| && !(h + 1 <= a < h + 1 + live[h]) ==> mem'[a] == mem[a]
    ensures SameData(mem, mem', live - {h})
  {
    var rest := live - {h};
    forall g | g in rest
      ensures BusyBlock(mem, hs, g, rest[g]) && (g + rest[g] < h + 1 || h + 1 + live[h] <= g + 1)
    {
      assert BusyBlock(mem, hs, g, live[g]);
      if g < h {
        LiveDisjoint(mem, hs, allocs, live, g, h);
      } else {
        LiveDisjoint(mem, hs, allocs, live, h, g);
      }
    }
    WritesKeepData(mem, hs, allocs, rest, mem', h + 1, h + 1 + live[h]);
  }

  /** Where the words of a free block are: none is a header, and later headers lie behind them. */
  lemma FreeWords(mem: seq<int>, hs: seq<nat>, allocs: nat, h: nat)
    requires Chain(mem, hs, allocs) && FreeBlock(mem, hs, h)
    ensures h < |mem| && h < Ptr(mem[h]) < |mem| && h in hs
    ensures forall a: nat :: h < a < Ptr(mem[h]) ==> a !in hs
    ensures forall g :: g in hs && g > h ==> g >= Ptr(mem[h])
  {
    var i :| FreeAt(mem, hs, i, h);
    assert Link(mem, hs, i);
    forall a: nat | h < a < Ptr(mem[h])
      ensures a !in hs
    {
      Between(mem, hs, allocs, i, a);
    }
  }

  class Arena {
    const allocs: nat       // address of the two words of the initial arena
    var mem: seq<int>       // the data segment, a word per element, up to the break
    var allocp: nat
    var alloct: nat
    var allocx: int

    ghost var hs: seq<nat>         // the headers, from allocs to alloct
    ghost var live: map<nat, int>  // header of each live block, with the words it was asked for

    /** The arena before the first call. */
    ghost predicate Untouched()
      reads this
    {
      allocs + 1 < |mem| && mem[allocs] == 0 && hs == [allocs, allocs + 1] && live == map[]
    }

    ghost predicate Linked()
      reads `mem, `hs, `live, `alloct
    {
      Chain(mem, hs, allocs) && LiveOk(mem, hs, live) && alloct == hs[|hs| - 1]
    }

    ghost predicate Valid()
      reads this
    {
      Untouched() || (Linked() && allocp in hs)
    }

    constructor (allocs: nat, size: nat)
      requires allocs + 1 < size
      ensures Valid() && live == map[]
    {
      this.allocs := allocs;
      mem := seq(size, _ => 0);
      allocp, alloct, allocx := 0, 0, 0;
      hs, live := [allocs, allocs + 1], map[];
    }

    /** The first-time branch of malloc. */
    method Start()
      requires Valid()
      modifies `mem, `allocp, `alloct
      ensures Linked() && allocp in hs && Kept(old(mem), hs, mem, hs) && |mem| == |old(mem)|
      ensures alloct == Top(hs) && hs[0] == allocs < |old(mem)| && (old(mem)[allocs] != 0 ==> allocp == old(allocp))
    {
      hide Coarser;
      ghost var mem0 := mem;
      if mem[allocs] == 0 {
        mem := mem[allocs := SetBusy(allocs + 1)][allocs + 1 := SetBusy(allocs)];
        alloct, allocp := allocs + 1, allocs;
      }
      SameCoarser(mem0, mem, hs, allocs);
    }

    /** The loop at the label coalescing: `p` swallows the free blocks behind it. */
    method Coalesce(p: nat, ghost i: nat, ghost n: int, ghost mem0: seq<int>, ghost hs0: seq<nat>) returns (q: nat)
      requires Linked() && i < |hs| - 1 && hs[i] == p && !Busy(mem[p]) && Kept(mem0, hs0, mem, hs)
      modifies `mem, `hs
      ensures Linked() && i < |hs| - 1 && hs[..i + 1] == old(hs[..i + 1]) && Kept(mem0, hs0, mem, hs)
      ensures !Busy(mem[p]) && q == hs[i + 1] && Busy(mem[q])
      ensures |mem| == |old(mem)| && |hs| <= |old(hs)|
      ensures old(TailRun(mem, hs, n)) ==> TailRun(mem, hs, n)
      ensures forall a :: 0 <= a < |mem| && a != p ==> mem[a] == old(mem[a])
    {
      hide LiveOk, Kept, TailRun;
      assert Link(mem, hs, i);
      q := Ptr(mem[p]);
      while !Busy(mem[q])
        invariant Linked() && i < |hs| - 1 && hs[..i + 1] == old(hs[..i + 1]) && Kept(mem0, hs0, mem, hs)
        invariant !Busy(mem[p]) && q == hs[i + 1] && |mem| == |old(mem)| && |hs| <= |old(hs)|
        invariant old(TailRun(mem, hs, n)) ==> TailRun(mem, hs, n)
        invariant forall a :: 0 <= a < |mem| && a != p ==> mem[a] == old(mem[a])
        decreases |hs|
      {
        MergeStep(mem, hs, i, p, q, n, mem0, hs0);
        mem, hs := mem[p := mem[q]], Drop(hs, i);
        assert Link(mem, hs, i);
        q := Ptr(mem[p]);
      }
    }

    lemma MergeStep(mem: seq<int>, hs: seq<nat>, i: nat, p: nat, q: nat, n: int, mem0: seq<int>, hs0: seq<nat>)
      requires Chain(mem, hs, allocs) && LiveOk(mem, hs, live) && i + 1 < |hs| && p == hs[i] && q == hs[i + 1]
      requires !Busy(mem[p]) && !Busy(mem[q]) && Kept(mem0, hs0, mem, hs)
      ensures i + 2 < |hs|
      ensures var mem', hs' := mem[p := mem[q]], Drop(hs, i);
              && Chain(mem', hs', allocs) && LiveOk(mem', hs', live) && Kept(mem0, hs0, mem', hs')
              && hs'[|hs'| - 1] == hs[|hs| - 1] && hs'[..i + 1] == hs[..i + 1] && |hs'| == |hs| - 1
              && (TailRun(mem, hs, n) ==> TailRun(mem', hs', n))
    {
      MergeChain(mem, hs, allocs, i);
      MergeLive(mem, hs, allocs, live, i);
      if TailRun(mem, hs, n) {
        MergeTailRun(mem, hs, allocs, i, n);
      }
      MergeCoarser(mem0, hs0, mem, hs, allocs, i);
      assert hs[i] in hs;
      forall h | h in Drop(hs, i)
        ensures h in hs
      {
        var k :| 0 <= k < |hs| - 1 && Drop(hs, i)[k] == h;
        DropAt(hs, i, k);
      }
    }

    /** Is the block at `p` free, and once coalesced large enough? */
    method TryBlock(p: nat, ghost i: nat, nw: nat, ghost n: int, ghost mem0: seq<int>, ghost hs0: seq<nat>)
      returns (fits: bool, q: nat)
      requires Linked() && i < |hs| && hs[i] == p && Kept(mem0, hs0, mem, hs)
      modifies `mem, `hs
      ensures Linked() && Kept(mem0, hs0, mem, hs) && |mem| == |old(mem)| && |hs| <= |old(hs)|
      ensures old(TailRun(mem, hs, n)) ==> TailRun(mem, hs, n)
      ensures i < |hs| && hs[i] == p
      ensures fits ==> i < |hs| - 1 && !Busy(mem[p]) && q == hs[i + 1] && q >= p + nw
      ensures !fits && i < |hs| - 1 ==> Small(mem, hs, nw, i)
      ensures old(Examined(mem, hs, nw, i)) ==> Examined(mem, hs, nw, i)
    {
      if Busy(mem[p]) {
        return false, p;
      }
      ghost var mem1, hs1 := mem, hs;
      q := Coalesce(p, i, n, mem0, hs0);
      assert hs[..i + 1][i] == hs[i];
      if Examined(mem1, hs1, nw, i) {
        ExaminedKept(mem1, hs1, mem, hs, allocs, nw, i);
      }
      fits := q >= p + nw;
    }

    lemma NothingPassed(mem: seq<int>, hs: seq<nat>, mem0: seq<int>, hs0: seq<nat>, nw: nat, p: nat)
      requires Kept(mem0, hs0, mem, hs)
      ensures NoneFits(mem0, hs0, nw, p, p)
    {
    }

    /** The search goes on from block `i` to the next. */
    lemma OnePassed(mem: seq<int>, hs: seq<nat>, mem0: seq<int>, hs0: seq<nat>, nw: nat, i: nat, lo: nat)
      requires Chain(mem, hs, allocs) && Kept(mem0, hs0, mem, hs) && Small(mem, hs, nw, i) && nw >= 1
      requires NoneFits(mem0, hs0, nw, lo, hs[i])
      ensures NoneFits(mem0, hs0, nw, lo, hs[i + 1])
    {
      hide NoneFits, Coarser;
      PassedOver(mem0, hs0, mem, hs, allocs, nw, i);
      NoneMore(mem0, hs0, nw, lo, hs[i], hs[i + 1]);
    }

    /** The search goes back to the beginning. */
    lemma AllPassed(mem: seq<int>, hs: seq<nat>, mem0: seq<int>, hs0: seq<nat>, nw: nat, q: nat, lo: nat)
      requires Chain(mem, hs, allocs) && Kept(mem0, hs0, mem, hs) && q == Top(hs)
      requires NoneFits(mem0, hs0, nw, lo, q)
      ensures NoneFits(mem0, hs0, nw, lo, Top(hs0)) && NoneFits(mem0, hs0, nw, 0, allocs)
    {
      NoneBelow(mem0, hs0, mem, hs, nw, lo);
    }

    /** One round of the search: at most two passes over the arena, from `start` on. */
    method Search(start: nat, ghost first: nat, nw: nat, ghost n: int, ghost mem0: seq<int>, ghost hs0: seq<nat>)
      returns (found: bool, p: nat, q: nat, ghost i: nat)
      requires Linked() && first < |hs| && hs[first] == start && Kept(mem0, hs0, mem, hs) && nw >= 1
      modifies `mem, `hs
      ensures Linked() && Kept(mem0, hs0, mem, hs) && |mem| == |old(mem)|
      ensures found ==> (start <= p && NoneFits(mem0, hs0, nw, start, p)) ||
                        (NoneFits(mem0, hs0, nw, start, Top(hs0)) && NoneFits(mem0, hs0, nw, 0, p))
      ensures !found ==> NoneFits(mem0, hs0, nw, 0, Top(hs0))
      ensures old(TailRun(mem, hs, n)) ==> TailRun(mem, hs, n)
      ensures i < |hs| - 1 && hs[i] == p < |mem| && hs[0] == allocs
      ensures found ==> !Busy(mem[p]) && q == hs[i + 1] && q >= p + nw
      ensures !found ==> i == 0 && Examined(mem, hs, nw, |hs| - 1)
    {
      hide LiveOk, Kept, TailRun, Examined, NoneFits, Small;
      var temp := 0;
      p, q, i := start, 0, first;
      NothingPassed(mem, hs, mem0, hs0, nw, start);
      while true
        invariant Linked() && Kept(mem0, hs0, mem, hs) && |mem| == |old(mem)|
        invariant old(TailRun(mem, hs, n)) ==> TailRun(mem, hs, n)
        invariant i < |hs| && hs[i] == p && 0 <= temp <= 1
        invariant temp == 1 ==> Examined(mem, hs, nw, i)
        invariant if temp == 0 then start <= p && NoneFits(mem0, hs0, nw, start, p)
                  else NoneFits(mem0, hs0, nw, start, Top(hs0)) && NoneFits(mem0, hs0, nw, 0, p)
        decreases 2 - temp, |hs| - i
      {
        found, q := TryBlock(p, i, nw, n, mem0, hs0);
        if found {
          return;
        }
        q := p;
        NextHeader(mem, hs, allocs, i);
        p := Ptr(mem[p]);
        if p > q {
          if temp == 1 {
            ExaminedMore(mem, hs, nw, i);
          }
          OnePassed(mem, hs, mem0, hs0, nw, i, if temp == 0 then start else 0);
          i := i + 1;
        } else {
          ExaminedNone(mem, hs, nw);
          assert q == alloct && p == allocs;
          AllPassed(mem, hs, mem0, hs0, nw, q, if temp == 0 then start else 0);
          i, temp := 0, temp + 1;
          if temp > 1 {
            return false, p, q, i;
          }
        }
      }
    }

    /** Extends the arena at the break by `t` words. */
    method Grow(t: nat, ghost n: int, ghost mem0: seq<int>, ghost hs0: seq<nat>)
      requires Linked() && Kept(mem0, hs0, mem, hs) && t >= 2
      requires n > 0 ==> TailRun(mem, hs, n) && alloct + 1 == |mem|
      modifies `mem, `hs, `alloct
      ensures Linked() && |hs| >= 2 && hs[0] == allocs && Kept(mem0, hs0, mem, hs) && alloct + 1 == |mem|
      ensures TailRun(mem, hs, if n > 0 then n + t else t - 1)
    {
      hide LiveOk, Kept, TailRun, Grown;
      ghost var mem1 := mem;
      WriteGrown(t);
      ghost var hs' := GrowSound(mem1, hs, allocs, live, t, n, mem0, hs0, mem);
      hs := hs';
    }

    /** The stores after sbrk. */
    method WriteGrown(t: nat)
      requires alloct < |mem| && t >= 2
      modifies `mem, `alloct
      ensures mem == Grown(old(mem), old(alloct), allocs, t) && alloct == |old(mem)| + t - 1
    {
      var q := |mem|;
      mem := mem + seq(t, _ => 0);
      mem := mem[alloct := if q == alloct + 1 then Clear(q) else SetBusy(q)];
      mem := mem[q := Clear(q + t - 1)];
      alloct := q + t - 1;
      mem := mem[alloct := SetBusy(allocs)];
    }

    /** The words that `nbytes` bytes need. */
    function Words(nbytes: nat): (w: nat)
      ensures nbytes <= WORD * w < nbytes + WORD
    {
      (nbytes + WORD - 1) / WORD
    }

    /** The code at the label found. */
    method Carve(p: nat, q: nat, nw: nat, ghost i: nat, ghost mem0: seq<int>, ghost hs0: seq<nat>)
      requires Linked() && Kept(mem0, hs0, mem, hs) && nw >= 1
      requires i < |hs| - 1 && hs[i] == p && !Busy(mem[p]) && q == hs[i + 1] && q >= p + nw
      modifies `mem, `hs, `live, `allocp, `allocx
      ensures Linked() && allocp in hs && p !in old(live) && live == old(live)[p := nw - 1]
      ensures Carved(mem0, hs0, mem, p, nw - 1, allocx) && allocp == p + nw
    {
      hide LiveOk, Kept, Carved;
      ghost var mem1, live' := mem, live[p := nw - 1];
      WriteCarved(p, q, nw);
      ghost var hs' := CarveChain(mem1, hs, allocs, live, i, nw, mem);
      CarveKept(mem1, hs, allocs, i, nw, mem, mem0, hs0, allocx);
      hs, live := hs', live';
    }

    method WriteCarved(p: nat, q: nat, nw: nat)
      requires p < |mem| && p + nw < |mem| && nw >= 1
      modifies `mem, `allocp, `allocx
      ensures CarvedFrom(old(mem), mem, p, q, p + nw) && allocp == p + nw
      ensures q > allocp ==> allocx == old(mem)[allocp]
    {
      allocp := p + nw;
      if q > allocp {
        allocx := mem[allocp];
        mem := mem[allocp := mem[p]];
      }
      mem := mem[p := SetBusy(allocp)];
    }

    // ----- malloc -----

    /** Before the first call it does not matter where the search begins. */
    lemma FromAnywhere(mem0: seq<int>, hs0: seq<nat>, start: nat, start0: nat, nw: nat, p: nat)
      requires FirstFit(mem0, hs0, start, nw, p)
      requires hs0 != [] && hs0[0] < |mem0| && (mem0[hs0[0]] != 0 ==> start == start0)
      ensures FirstFit(mem0, hs0, start0, nw, p)
    {
    }

    method Malloc(nbytes: nat) returns (r: nat)
      requires Valid()
      modifies `mem, `hs, `live, `allocp, `alloct, `allocx
      ensures Valid()
      ensures r == 0 <==> nbytes == 0
      ensures r == 0 ==> live == old(live) && mem == old(mem) && hs == old(hs)
      ensures r != 0 ==> Linked() && r - 1 !in old(live) && live == old(live)[r - 1 := Words(nbytes)]
      ensures r != 0 ==> Carved(old(mem), old(hs), mem, r - 1, Words(nbytes), allocx)
      ensures r != 0 ==> allocp == r + Words(nbytes) && allocp in hs
      ensures r != 0 ==> FirstFit(old(mem), old(hs), old(allocp), Words(nbytes) + 1, r - 1)
      ensures SameData(old(mem), mem, old(live))
    {
      hide Chain, LiveOk, Kept, Carved, FirstFit;
      if nbytes == 0 {
        return 0;
      }
      ghost var mem0, hs0, allocp0 := mem, hs, allocp;
      Start();
      var nw := (nbytes + WORD + WORD - 1) / WORD;
      ghost var i;
      var p, q;
      p, q, i := Find(nw, mem0, hs0);
      FromAnywhere(mem0, hs0, allocp, allocp0, nw, p);
      Carve(p, q, nw, i, mem0, hs0);
      CarvedKeepsData(mem0, hs0, old(live), allocs, mem, hs, live, p, nw - 1, allocx);
      r := p + 1;
    }

    /** What the search finds before the arena grows. */
    lemma FoundFirst(mem: seq<int>, hs: seq<nat>, mem0: seq<int>, hs0: seq<nat>, nw: nat, i: nat, start: nat)
      requires Chain(mem, hs, allocs) && Kept(mem0, hs0, mem, hs) && nw >= 1 && Top(hs) == Top(hs0)
      requires i < |hs| - 1 && !Busy(mem[hs[i]]) && hs[i + 1] >= hs[i] + nw
      requires var p := hs[i];
               (start <= p && NoneFits(mem0, hs0, nw, start, p)) ||
               (NoneFits(mem0, hs0, nw, start, Top(hs0)) && NoneFits(mem0, hs0, nw, 0, p))
      ensures FirstFit(mem0, hs0, start, nw, hs[i])
    {
      Monotone(mem, hs, allocs, i + 1, |hs| - 1);
      FoundFits(mem0, hs0, mem, hs, allocs, nw, i);
      hide Coarser, FitsFrom;
      assert hs[i] in hs0 by {
        FitsIsHeader(mem0, hs0, hs[i], nw);
      }
    }

    lemma FitsIsHeader(mem0: seq<int>, hs0: seq<nat>, h: nat, nw: nat)
      requires FitsFrom(mem0, hs0, h, nw)
      ensures h in hs0
    {
    }

    /** What it finds after that, when no old block had room. */
    lemma FoundBeyond(mem: seq<int>, hs: seq<nat>, mem0: seq<int>, hs0: seq<nat>, nw: nat, i: nat, start: nat)
      requires Chain(mem, hs, allocs) && Kept(mem0, hs0, mem, hs) && nw >= 1
      requires i < |hs| - 1 && !Busy(mem[hs[i]]) && hs[i + 1] >= hs[i] + nw
      requires NoneFits(mem0, hs0, nw, 0, Top(hs0))
      ensures FirstFit(mem0, hs0, start, nw, hs[i])
    {
      if hs[i] + nw <= Top(hs0) {
        FoundFits(mem0, hs0, mem, hs, allocs, nw, i);
        FitsIsHeader(mem0, hs0, hs[i], nw);
      }
    }

    /** The outer loop of malloc: search, and grow the arena after every round without success. */
    method Find(nw: nat, ghost mem0: seq<int>, ghost hs0: seq<nat>) returns (p: nat, q: nat, ghost i: nat)
      requires Linked() && allocp in hs && Kept(mem0, hs0, mem, hs) && nw >= 2 && alloct == Top(hs0)
      modifies `mem, `hs, `alloct
      ensures Linked() && Kept(mem0, hs0, mem, hs)
      ensures FirstFit(mem0, hs0, allocp, nw, p)
      ensures i < |hs| - 1 && hs[i] == p && !Busy(mem[p]) && q == hs[i + 1] && q >= p + nw
    {
      hide Chain, LiveOk, Kept, TailRun, Examined, GrowBy, FirstFit, NoneFits;
      var found;
      ghost var first: nat :| first < |hs| && hs[first] == allocp;
      ghost var n := 0;
      found, p, q, i := Search(allocp, first, nw, n, mem0, hs0);
      if found {
        FoundFirst(mem, hs, mem0, hs0, nw, i, allocp);
      }
      while !found
        invariant Linked() && Kept(mem0, hs0, mem, hs)
        invariant i < |hs| - 1 && hs[i] == p < |mem|
        invariant found ==> !Busy(mem[p]) && q == hs[i + 1] && q >= p + nw
        invariant !found ==> Examined(mem, hs, nw, |hs| - 1)
        invariant if found then FirstFit(mem0, hs0, allocp, nw, p) else NoneFits(mem0, hs0, nw, 0, Top(hs0))
        invariant n >= 0 && (n > 0 ==> n >= nw - 1 && TailRun(mem, hs, n) && alloct + 1 == |mem|)
        decreases !found, if n == 0 then 2 else if n < nw then 1 else 0
      {
        NoTailRun(mem, hs, allocs, nw, n);
        var temp := GrowBy(|mem|, nw);
        Grow(temp, n, mem0, hs0);
        n := if n > 0 then n + temp else temp - 1;
        found, p, q, i := Search(allocs, 0, nw, n, mem0, hs0);
        if found {
          FoundBeyond(mem, hs, mem0, hs0, nw, i, allocp);
        }
      }
    }

    // ----- free -----

    method Free(ap: nat)
      requires Linked() && allocp in hs && ap >= 1 && ap - 1 in live
      modifies `mem, `live, `allocp
      ensures Linked() && allocp == ap - 1 && allocp in hs && live == old(live) - {ap - 1}
      ensures mem == old(mem)[ap - 1 := old(mem)[ap - 1] - 1] && FreeBlock(mem, hs, ap - 1)
      ensures Ptr(mem[ap - 1]) == old(Ptr(mem[ap - 1])) && SameData(old(mem), mem, live)
    {
      FreeSound(mem, hs, allocs, live, ap - 1);
      FreeKeepsData(mem, hs, allocs, live, ap - 1);
      allocp := ap - 1;
      live := live - {ap - 1};
      mem := mem[allocp := Clear(Ptr(mem[allocp]))];
    }

    // ----- the rest of the program -----

    /** Someone else moves the break. */
    method OtherBreak(words: seq<int>)
      requires Valid()
      modifies `mem
      ensures Valid() && mem == old(mem) + words
    {
      if mem[allocs] != 0 {
        ChainFrame(mem, mem + words, hs, allocs, live);
      }
      mem := mem + words;
    }

    /** The owner of the live block at header `h` writes one of its words. */
    method Put(h: nat, k: nat, w: int)
      requires Linked() && allocp in hs && h in live && k < live[h]
      modifies `mem
      ensures Linked() && h + 1 + k < |old(mem)| && mem == old(mem)[h + 1 + k := w]
    {
      LiveWord(mem, hs, allocs, live, h, h + 1 + k);
      ChainFrame(mem, mem[h + 1 + k := w], hs, allocs, live);
      mem := mem[h + 1 + k := w];
    }

    // ----- realloc -----

    /** The word loop of realloc: copies upwards, into a block that starts below or lies clear of the old one. */
    method Copy(p: nat, q: nat, n: nat)
      requires Linked() && allocp in hs && q >= 1 && q - 1 in live && n <= live[q - 1]
      requires p + n <= |mem| && (q < p || q > p + n)
      modifies `mem
      ensures Linked() && |mem| == |old(mem)| && q + n <= |mem|
      ensures mem[q..q + n] == old(mem[p..p + n])
      ensures forall a :: 0 <= a < |mem| && !(q <= a < q + n) ==> mem[a] == old(mem[a])
    {
      hide Chain, LiveOk;
      DataLength(mem, hs, allocs, live, q - 1);
      ghost var m0 := mem;
      var k := 0;
      while k < n
        invariant 0 <= k <= n && Linked() && |mem| == |m0|
        invariant forall a {:trigger mem[a]} :: q <= a < q + k ==> mem[a] == m0[p + (a - q)]
        invariant forall a {:trigger mem[a]} :: 0 <= a < |mem| && !(q <= a < q + k) ==> mem[a] == m0[a]
      {
        Put(q - 1, k, mem[p + k]);
        k := k + 1;
      }
      CopiedWords(m0, mem, p, q, n);
    }

    lemma CopiedWords(m0: seq<int>, m: seq<int>, p: nat, q: nat, n: nat)
      requires |m| == |m0| && p + n <= |m| && q + n <= |m|
      requires forall a {:trigger m[a]} :: q <= a < q + n ==> m[a] == m0[p + (a - q)]
      ensures m[q..q + n] == m0[p..p + n]
    {
      var x, y := m[q..q + n], m0[p..p + n];
      forall k | 0 <= k < n
        ensures x[k] == y[k]
      {
        assert m[q + k] == m0[p + k];
      }
      assert x == y;
    }

    /** How many words of the block at `p` a new block of `nbytes` bytes can take over. */
    function Common(mem: seq<int>, p: nat, nbytes: nat): int
      requires 1 <= p <= |mem|
    {
      if Words(nbytes) < Ptr(mem[p - 1]) - p then Words(nbytes) else Ptr(mem[p - 1]) - p
    }

    /** The `n` words at `q` are those that were at `p`. */
    ghost predicate Moved(mem0: seq<int>, p: nat, mem: seq<int>, q: nat, n: int) {
      0 <= n && p + n <= |mem0| && q + n <= |mem| && mem[q..q + n] == mem0[p..p + n]
    }

    method Realloc(p: nat, nbytes: nat) returns (q: nat)
      requires Linked() && allocp in hs && 1 <= p <= |mem| && (p - 1 in live || FreeBlock(mem, hs, p - 1))
      modifies `mem, `hs, `live, `allocp, `alloct, `allocx
      ensures Valid()
      ensures q == 0 <==> nbytes == 0
      ensures q == 0 ==> live == old(live) - {p - 1} && FreeBlock(mem, hs, p - 1)
      ensures q != 0 ==> Linked() && live == (old(live) - {p - 1})[q - 1 := Words(nbytes)]
      ensures q != 0 ==> Moved(old(mem), p, mem, q, old(Common(mem, p, nbytes)))
      ensures SameData(old(mem), mem, old(live) - {p - 1})
    {
      assert p - 1 in live ==> BusyBlock(mem, hs, p - 1, live[p - 1]);
      ghost var mem0, n := mem, Common(mem, p, nbytes);
      if Busy(mem[p - 1]) {
        Free(p);
      }
      ghost var mem1, live1 := mem, live;
      assert live1 == old(live) - {p - 1} && SameData(mem0, mem1, live1);
      assert Common(mem1, p, nbytes) == n;
      q := Renew(p, nbytes);
      SameDataTrans(mem0, mem1, mem, live1, live1);
      assert q != 0 ==> mem1[p..p + n] == mem0[p..p + n];
    }

    /** realloc of a block that is free. */
    method Renew(p: nat, nbytes: nat) returns (q: nat)
      requires Linked() && allocp in hs && 1 <= p <= |mem| && FreeBlock(mem, hs, p - 1)
      modifies `mem, `hs, `live, `allocp, `alloct, `allocx
      ensures Valid()
      ensures q == 0 <==> nbytes == 0
      ensures q == 0 ==> live == old(live) && mem == old(mem) && hs == old(hs)
      ensures q != 0 ==> Linked() && live == old(live)[q - 1 := Words(nbytes)]
      ensures q != 0 ==> Moved(old(mem), p, mem, q, old(Common(mem, p, nbytes)))
      ensures SameData(old(mem), mem, old(live))
    {
      hide Chain, LiveOk, Carved, FreeBlock;
      ghost var mem0, hs0, live0 := mem, hs, live;
      FreeWords(mem, hs, allocs, p - 1);
      var onw := Ptr(mem[p - 1]) - p;
      q := Malloc(nbytes);
      if q == 0 {
        return;
      }
      ghost var mem1 := mem;
      ghost var words := AfterMalloc(mem0, hs0, mem1, p, q, nbytes, allocx);
      DataLength(mem, hs, allocs, live, q - 1);
      if q != p {
        var nw := (nbytes + WORD - 1) / WORD;
        if nw < onw {
          onw := nw;
        }
        CopyBack(p, q, onw, nw, words);
        SameDataTrans(mem0, mem1, mem, live0, live - {q - 1});
      }
    }

    /** Copies `n` words and repairs the one that the end of the new block of `nw` words has hit. */
    method CopyBack(p: nat, q: nat, n: nat, nw: nat, ghost words: seq<int>)
      requires Linked() && allocp in hs && q >= 1 && q - 1 in live && n <= nw == live[q - 1] && |words| == n
      requires p + n <= |mem| && (q < p || q > p + n)
      requires forall k {:trigger words[k]} :: 0 <= k < n ==> words[k] == if p + k == q + nw then allocx else mem[p + k]
      modifies `mem
      ensures Linked() && |mem| == |old(mem)| && q + n <= |mem| && mem[q..q + n] == words
      ensures SameData(old(mem), mem, live - {q - 1})
    {
      hide Chain, LiveOk, SameData;
      ghost var mem1 := mem;
      Copy(p, q, n);
      ghost var mem2 := mem;
      if q < p && q + nw >= p {
        Put(q - 1, q + nw - p, allocx);
      }
      assert forall a :: 0 <= a < |mem| && !(q <= a < q + nw) ==> mem[a] == mem1[a];
      forall k | 0 <= k < n
        ensures mem[q..q + n][k] == words[k]
      {
        assert mem2[q..q + n][k] == mem1[p..p + n][k];
      }
      BlockWritesKeepData(mem1, hs, allocs, live, mem, q - 1);
    }

    /** The old words after malloc, but for the one that the new block's end may have hit. */
    lemma AfterMalloc(mem0: seq<int>, hs0: seq<nat>, mem1: seq<int>, p: nat, q: nat, nbytes: nat, saved: int)
      returns (words: seq<int>)
      requires Chain(mem0, hs0, allocs) && 1 <= p <= |mem0| && q >= 1 && FreeBlock(mem0, hs0, p - 1)
      requires Carved(mem0, hs0, mem1, q - 1, Words(nbytes), saved)
      ensures 0 <= |words| == Common(mem0, p, nbytes) && p + |words| <= |mem0| <= |mem1|
      ensures words == mem0[p..p + |words|]
      ensures q <= p || q > p + |words|
      ensures forall k {:trigger words[k]} :: 0 <= k < |words| ==>
                words[k] == if p + k == q + Words(nbytes) then saved else mem1[p + k]
      ensures q == p ==> Moved(mem0, p, mem1, q, |words|)
    {
      FreeWords(mem0, hs0, allocs, p - 1);
      words := mem0[p..p + Common(mem0, p, nbytes)];
      assert forall k {:trigger words[k]} :: 0 <= k < |words| ==> words[k] == mem0[p + k];
    }

    lemma SameDataTrans(mem0: seq<int>, mem1: seq<int>, mem2: seq<int>, live0: map<nat, int>, live1: map<nat, int>)
      requires SameData(mem0, mem1, live0) && SameData(mem1, mem2, live1)
      requires forall h :: h in live0 ==> h in live1 && live1[h] == live0[h]
      ensures SameData(mem0, mem2, live0)
    {
      forall h | h in live0
        ensures Data(mem2, h, live0[h]) == Data(mem0, h, live0[h])
      {
        assert Data(mem1, h, live0[h]) == Data(mem0, h, live0[h]);
        assert Data(mem2, h, live1[h]) == Data(mem1, h, live1[h]);
      }
    }
  }
}

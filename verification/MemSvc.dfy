/** The physical block carver and the task page maps of kernel/muxx_memsvc.c; a block is 64 bytes. */
module MemSvc {
  const MEM_NMCBS: int := 128
  const NOBODY: int := 0xFFFF    // -1 in a word: the entry is not in use
  const NULL: int := -1
  const FIRST: int := 0x1C0      // 0700
  const TOP: int := 0x1000       // 010000
  const MAXBLOCKS: int := 128

  datatype Mmcb = Mmcb(blockAddr: int, blockSize: int, ownerPID: int, ownerPAR: int, next: int, prev: int, flags: int)

  // ----- the table -----

  /** Where the first `k` carved blocks end. */
  function End(s: seq<Mmcb>, k: nat): int
    requires 6 + k <= |s|
  {
    if k == 0 then FIRST else s[6 + k - 1].blockAddr + s[6 + k - 1].blockSize
  }

  /** Entry `6 + k` is a block that a task owns, that begins where the one before ends, and that links to itself. */
  predicate CarvedAt(s: seq<Mmcb>, k: nat)
    requires 6 + k < |s|
  {
    && s[6 + k].blockAddr == End(s, k) && 0 <= s[6 + k].blockSize <= MAXBLOCKS
    && s[6 + k].ownerPID != 0 && s[6 + k].ownerPID != NOBODY && s[6 + k].next == 6 + k
  }

  /** The first five entries lead to the free block, and from there only the last block carved can be reached. */
  predicate Chained(s: seq<Mmcb>, n: nat) {
    && |s| >= 6
    && (forall i :: 0 <= i < 4 ==> s[i].next == i + 1)
    && s[4].next == (if n == 0 then 5 else 6 + n - 1) && s[5].next == NULL
  }

  /** `n` blocks have been carved: with what is free they tile the physical blocks from 0700 to 010000. */
  ghost predicate Tiled(s: seq<Mmcb>, n: nat) {
    && |s| == MEM_NMCBS && 6 + n <= |s|
    && (forall i :: 0 <= i < 6 && i != 4 ==> s[i].ownerPID == 1)
    && s[4].ownerPID == 0 && s[4].blockAddr == End(s, n)
    && s[4].blockSize >= 0 && s[4].blockAddr + s[4].blockSize == TOP
    && (forall k {:trigger CarvedAt(s, k)} :: 0 <= k < n ==> CarvedAt(s, k))
    && (forall i :: 6 + n <= i < |s| ==> s[i].ownerPID == NOBODY)
    && Chained(s, n)
  }

  lemma {:induction false} EndsGrow(s: seq<Mmcb>, n: nat, j: nat, k: nat)
    requires Tiled(s, n) && j <= k <= n
    ensures FIRST <= End(s, j) <= End(s, k) <= TOP
    decreases k - j, j
  {
    if j < k {
      assert CarvedAt(s, k - 1);
      EndsGrow(s, n, j, k - 1);
    } else if j > 0 {
      EndsGrow(s, n, j - 1, j - 1);
      assert CarvedAt(s, j - 1);
    }
    if k < n {
      TopBound(s, n, k);
    }
  }

  lemma {:induction false} TopBound(s: seq<Mmcb>, n: nat, k: nat)
    requires Tiled(s, n) && k <= n
    ensures End(s, k) <= End(s, n) <= TOP
    decreases n - k
  {
    if k < n {
      assert CarvedAt(s, k);
      TopBound(s, n, k + 1);
    }
  }

  predicate Inside(m: Mmcb, x: int) {
    m.blockAddr <= x < m.blockAddr + m.blockSize
  }

  /** Physical block `x` is in the carved block `k`. */
  predicate InCarved(s: seq<Mmcb>, n: nat, k: int, x: int) {
    0 <= k < n && 6 + n <= |s| && Inside(s[6 + k], x)
  }

  /** Every physical block from 0700 to 010000 lies in exactly one carved block or in the free one. */
  lemma ExactlyOne(s: seq<Mmcb>, n: nat, x: int)
    requires Tiled(s, n) && FIRST <= x < TOP
    ensures (exists k :: InCarved(s, n, k, x)) <==> !Inside(s[4], x)
    ensures forall j, k :: InCarved(s, n, j, x) && InCarved(s, n, k, x) ==> j == k
  {
    forall j, k | InCarved(s, n, j, x) && j < k < n
      ensures !InCarved(s, n, k, x)
    {
      assert CarvedAt(s, j) && CarvedAt(s, k);
      EndsGrow(s, n, j + 1, k);
    }
    forall k | InCarved(s, n, k, x)
      ensures !Inside(s[4], x)
    {
      assert CarvedAt(s, k);
      TopBound(s, n, k + 1);
    }
    if !Inside(s[4], x) {
      var k := Covering(s, n, x, n);
      assert InCarved(s, n, k, x);
    }
  }

  lemma {:induction false} Covering(s: seq<Mmcb>, n: nat, x: int, m: nat) returns (k: nat)
    requires Tiled(s, n) && m <= n && FIRST <= x < End(s, m)
    ensures k < m && Inside(s[6 + k], x)
  {
    assert CarvedAt(s, m - 1);
    if Inside(s[6 + m - 1], x) {
      k := m - 1;
    } else {
      k := Covering(s, n, x, m - 1);
    }
  }

  // ----- carving -----

  /** The stores of muxx_mem_getblock for the entry `6 + n`. */
  function Carved(s: seq<Mmcb>, n: nat, pid: int, blocks: int, page: int, flags: int): (t: seq<Mmcb>)
    requires |s| > 6 + n && (s[4].next == NULL || 0 <= s[4].next < |s|)
    ensures |t| == |s|
  {
    var new_ := 6 + n;
    var back := if s[4].next == NULL then s else s[s[4].next := s[s[4].next].(prev := new_)];
    back[new_ := Mmcb(s[4].blockAddr, blocks, pid, page, new_, 4, flags)]
        [4 := s[4].(blockSize := s[4].blockSize - blocks, blockAddr := s[4].blockAddr + blocks, next := new_)]
  }

  lemma CarvedTiled(s: seq<Mmcb>, n: nat, pid: int, blocks: int, page: int, flags: int)
    requires Tiled(s, n) && 6 + n < |s| && pid != 0 && pid != NOBODY && 0 <= blocks <= MAXBLOCKS
    requires blocks <= s[4].blockSize
    ensures Tiled(Carved(s, n, pid, blocks, page, flags), n + 1)
  {
    var t := Carved(s, n, pid, blocks, page, flags);
    forall k: nat | k < n + 1
      ensures CarvedAt(t, k)
    {
      assert k < n ==> CarvedAt(s, k);
      assert n > 0 ==> CarvedAt(s, n - 1);
    }
  }

  /** The entry that the scan looks at after `k` steps. */
  function Scan(s: seq<Mmcb>, k: nat): int {
    if k == 0 then 0
    else var i := Scan(s, k - 1); if 0 <= i < |s| then s[i].next else NULL
  }

  predicate Fits(m: Mmcb, blocks: int) {
    m.ownerPID == 0 && m.blockSize >= blocks
  }

  lemma ScanFour(s: seq<Mmcb>, n: nat)
    requires Tiled(s, n)
    ensures forall k :: 0 <= k <= 4 ==> Scan(s, k) == k
  {
    assert Scan(s, 0) == 0;
    assert Scan(s, 1) == 1;
    assert Scan(s, 2) == 2;
    assert Scan(s, 3) == 3;
    assert Scan(s, 4) == 4;
  }

  lemma {:induction false} ScanStays(s: seq<Mmcb>, n: nat, k: nat)
    requires Tiled(s, n) && n > 0 && k > 4
    ensures Scan(s, k) == 6 + n - 1
  {
    assert CarvedAt(s, n - 1);
    if k == 5 {
      ScanFour(s, n);
    } else {
      ScanStays(s, n, k - 1);
    }
  }

  /** The scan is over at this step: at a fitting entry, or behind the last one. */
  predicate ScanOver(s: seq<Mmcb>, blocks: int, k: nat) {
    var i := Scan(s, k);
    i == NULL || (0 <= i < |s| && Fits(s[i], blocks))
  }

  /** The scan ends exactly if the free block is large enough or nothing was carved yet. */
  lemma ScanEnds(s: seq<Mmcb>, n: nat, blocks: int)
    requires Tiled(s, n)
    ensures (exists k: nat :: ScanOver(s, blocks, k)) <==> n == 0 || s[4].blockSize >= blocks
  {
    ScanFour(s, n);
    if n == 0 {
      assert Scan(s, 5) == 5;
      assert ScanOver(s, blocks, 6);
    } else if s[4].blockSize >= blocks {
      assert ScanOver(s, blocks, 4);
    } else {
      forall k: nat
        ensures !ScanOver(s, blocks, k)
      {
        assert CarvedAt(s, n - 1);
        if k > 4 {
          ScanStays(s, n, k);
        }
      }
    }
  }

  /**
   A block of at most 8 KB is never answered with NULL: the scan finds room before it comes to the end, if it ends.
   */
  lemma NeverNull(s: seq<Mmcb>, n: nat, blocks: int, k: nat)
    requires Tiled(s, n) && blocks <= MAXBLOCKS && Scan(s, k) == NULL
    ensures exists j :: 0 <= j < k && 0 <= Scan(s, j) < |s| && Fits(s[Scan(s, j)], blocks)
  {
    ScanFour(s, n);
    if k > 4 && n > 0 {
      ScanStays(s, n, k);
    }
    assert Scan(s, 4) == 4;
  }

  /** The carvings of a small process: a full page and a stack. */
  function Small(s: seq<Mmcb>, n: nat, pid: int): (t: seq<Mmcb>)
    requires |s| == MEM_NMCBS && n + 8 <= MEM_NMCBS && (s[4].next == NULL || 0 <= s[4].next < |s|)
    ensures |t| == |s| && (t[4].next == NULL || 0 <= t[4].next < |t|)
  {
    Carved(Carved(s, n, pid, MAXBLOCKS, 3, 0), n + 1, pid, 64, 6, 0x10)
  }

  lemma SmallKeeps(s: seq<Mmcb>, n: nat, pid: int)
    requires Tiled(s, n) && n + 8 <= MEM_NMCBS && pid != 0 && pid != NOBODY && s[4].blockSize >= 192
    ensures |s| == MEM_NMCBS && (s[4].next == NULL || 0 <= s[4].next < |s|)
    ensures Tiled(Small(s, n, pid), n + 2) && Small(s, n, pid)[4].blockSize == s[4].blockSize - 192
  {
    TableSize(s, n);
    hide Tiled, Carved;
    CarvedFree(s, n, pid, MAXBLOCKS, 3, 0);
    CarvedFree(Carved(s, n, pid, MAXBLOCKS, 3, 0), n + 1, pid, 64, 6, 0x10);
  }

  /** The table after `k` small processes. */
  function SmallProcesses(s: seq<Mmcb>, k: nat): (t: seq<Mmcb>)
    requires |s| == MEM_NMCBS && k <= 19 && (s[4].next == NULL || 0 <= s[4].next < |s|)
    ensures |t| == |s| && (t[4].next == NULL || 0 <= t[4].next < |t|)
  {
    if k == 0 then s else Small(SmallProcesses(s, k - 1), 2 * (k - 1), k + 1)
  }

  lemma {:induction false} SmallTiled(s: seq<Mmcb>, k: nat)
    requires Tiled(s, 0) && k <= 19
    ensures |s| == MEM_NMCBS && (s[4].next == NULL || 0 <= s[4].next < |s|)
    ensures Tiled(SmallProcesses(s, k), 2 * k) && SmallProcesses(s, k)[4].blockSize == TOP - FIRST - 192 * k
  {
    TableSize(s, 0);
    hide Tiled, Small;
    if k > 0 {
      SmallTiled(s, k - 1);
      SmallKeeps(SmallProcesses(s, k - 1), 2 * (k - 1), k + 1);
    }
  }

  lemma TableSize(s: seq<Mmcb>, n: nat)
    requires Tiled(s, n)
    ensures |s| == MEM_NMCBS && (s[4].next == NULL || 0 <= s[4].next < |s|)
    ensures n == 0 ==> s[4].blockSize == TOP - FIRST
  {
  }

  lemma CarvedFree(s: seq<Mmcb>, n: nat, pid: int, blocks: int, page: int, flags: int)
    requires Tiled(s, n) && 6 + n < |s| && pid != 0 && pid != NOBODY && 0 <= blocks <= MAXBLOCKS
    requires |s| == MEM_NMCBS && blocks <= s[4].blockSize
    ensures s[4].next == NULL || 0 <= s[4].next < |s|
    ensures var t := Carved(s, n, pid, blocks, page, flags);
            Tiled(t, n + 1) && |t| == MEM_NMCBS && t[4].blockSize == s[4].blockSize - blocks
  {
    CarvedTiled(s, n, pid, blocks, page, flags);
  }

  /** From the initial table, 19 small processes take all the memory; the scan for the next one's page never ends. */
  lemma NoTwentiethProcess(s: seq<Mmcb>)
    requires Tiled(s, 0)
    ensures var t := SmallProcesses(s, 19);
            Tiled(t, 38) && t[4].blockSize == 0 && forall k: nat :: !ScanOver(t, MAXBLOCKS, k)
  {
    TableSize(s, 0);
    SmallTiled(s, 19);
    ScanEnds(SmallProcesses(s, 19), 38, MAXBLOCKS);
  }
}

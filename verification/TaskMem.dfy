/** muxx_mem_init, muxx_mem_getblock and muxx_setup_taskmem of kernel/muxx_memsvc.c, and what the page maps reach. */
module TaskMem {
  import opened MemSvc

  const EOK: int := 0
  const EINVVAL: int := -6
  const PDR_ACC_RW: int := 0x0006
  const PDR_ACC_RO: int := 0x0002
  const PDR_ACC_NA: int := 0x0000
  const PDR_DIR_DN: int := 0x0008
  const PDR_SIZ_1K: int := 0x1000
  const PDR_SIZ_4K: int := 0x4000
  const PDR_SIZ_8K: int := 0x7F00
  const DRV_BUFSIZ: int := 2048
  const TUCB_SIZE: int := 20     // of the user control block, in bytes
  const MMCB_FLG_STK: int := 0x10
  const MMCB_FLG_BUF: int := 0x20

  // ----- address translation -----

  /**
   The PDP-11's rule: block `b` of a page with any access is the physical block `x` if the page length
   in bits 14 to 8 allows it, upwards from the first or, with bit 3 set, downwards from the last.
   */
  predicate Maps(par: int, pdr: int, b: int, x: int) {
    && pdr % 8 != 0 && 0 <= b < MAXBLOCKS && x == par + b
    && if pdr / 8 % 2 == 1 then b >= pdr / 256 % 128 else b <= pdr / 256 % 128
  }

  lemma FullPage(par: int, b: int, x: int)
    ensures Maps(par, PDR_ACC_RW + PDR_SIZ_8K, b, x) ==> par <= x < par + 128
    ensures !Maps(par, 0, b, x)
  {
  }

  lemma StackPage(par: int, b: int, x: int)
    ensures Maps(par, PDR_ACC_RW + PDR_SIZ_4K + PDR_DIR_DN, b, x) ==> par + 64 <= x < par + 128
  {
  }

  lemma BufferPage(par: int, b: int, x: int)
    ensures Maps(par, PDR_ACC_RW + PDR_SIZ_1K, b, x) ==> par <= x <= par + 16
  {
  }

  /** The page registers of a task and the stretch of physical blocks that was carved for it. */
  datatype PageMap = PageMap(upar: seq<int>, updr: seq<int>, lo: int, hi: int)

  predicate Reaches(m: PageMap, p: int, b: int, x: int) {
    3 <= p <= 6 && |m.upar| == 8 && |m.updr| == 8 && Maps(m.upar[p], m.updr[p], b, x)
  }

  /** The pages 3 to 6 reach nothing outside the task's own stretch, and no block twice. */
  ghost predicate Confined(m: PageMap) {
    && FIRST <= m.lo <= m.hi <= TOP
    && (forall p, b, x :: Reaches(m, p, b, x) ==> m.lo <= x < m.hi)
    && (forall p, b, q, c, x :: Reaches(m, p, b, x) && Reaches(m, q, c, x) ==> p == q && b == c)
  }

  /** The full pages 3 to 5, as the task's size asks for them from physical block `a` on. */
  predicate FullLaid(upar: seq<int>, updr: seq<int>, a: int, med: bool, big: bool) {
    && |upar| == 8 && |updr| == 8
    && var full := PDR_ACC_RW + PDR_SIZ_8K;
       && upar[3] == a && updr[3] == full
       && (if med || big then upar[4] == a + 128 && updr[4] == full else updr[4] == 0)
       && (if big then upar[5] == a + 256 && updr[5] == full else updr[5] == 0)
  }

  /** The registers of pages 3 to 6, as the task's size and type ask for them from physical block `m.lo` on. */
  predicate LaidOut(m: PageMap, med: bool, big: bool, driver: bool) {
    && |m.upar| == 8 && |m.updr| == 8
    && var stack := m.lo + 128 + (if med || big then 128 else 0) + (if big then 128 else 0);
       && m.upar[6] == stack - 64 && m.updr[6] == PDR_ACC_RW + PDR_SIZ_4K + PDR_DIR_DN
       && (if driver then m.upar[4] == stack + 64 && m.updr[4] == PDR_ACC_RW + PDR_SIZ_1K
             && m.upar[3] == m.lo && m.updr[3] == PDR_ACC_RW + PDR_SIZ_8K && m.updr[5] == 0
           else FullLaid(m.upar, m.updr, m.lo, med, big))
       && m.hi == stack + 64 + if driver then 32 else 0
  }

  /** A layout is confined to its stretch. */
  lemma LayoutConfined(m: PageMap, med: bool, big: bool, driver: bool)
    requires LaidOut(m, med, big, driver) && (driver ==> !big) && FIRST <= m.lo && m.hi <= TOP
    ensures Confined(m)
  {
    hide Maps;
    forall p, b, x | Reaches(m, p, b, x)
      ensures m.updr[p] != 0 && m.upar[p] <= x < m.upar[p] + 128 && m.lo <= x < m.hi && x == m.upar[p] + b
      ensures p == 6 ==> x >= m.upar[6] + 64
      ensures p == 4 && driver ==> x <= m.upar[4] + 16
    {
      PageReach(m, med, big, driver, p, b, x);
    }
    forall p, b, q, c, x | Reaches(m, p, b, x) && Reaches(m, q, c, x)
      ensures p == q && b == c
    {
    }
  }

  lemma PageReach(m: PageMap, med: bool, big: bool, driver: bool, p: int, b: int, x: int)
    requires LaidOut(m, med, big, driver) && (driver ==> !big) && Reaches(m, p, b, x)
    ensures m.updr[p] != 0 && m.upar[p] <= x < m.upar[p] + 128 && m.lo <= x < m.hi && x == m.upar[p] + b
    ensures p == 6 ==> x >= m.upar[6] + 64
    ensures p == 4 && driver ==> x <= m.upar[4] + 16
  {
    FullPage(m.upar[p], b, x);
    StackPage(m.upar[p], b, x);
    BufferPage(m.upar[p], b, x);
    assert x == m.upar[p] + b;
  }

  /** The last full page below the stack, which has the user control block in its last block. */
  function LastPage(med: bool, big: bool): int {
    if big then 5 else if med then 4 else 3
  }

  /**
   The user control block lies in the process's own memory, but for a driver of medium size, whose buffer page
   has taken the place of the page that it was put into.
   */
  lemma ControlBlockReached(m: PageMap, med: bool, big: bool, driver: bool)
    requires LaidOut(m, med, big, driver) && (driver ==> !big)
    ensures (exists x :: Reaches(m, LastPage(med, big), 127, x)) <==> !(driver && med)
  {
    var p := LastPage(med, big);
    if !(driver && med) {
      assert Reaches(m, p, 127, m.upar[p] + 127);
    }
  }

  /** Block `b` of page `p` is the block `x`, when the page is full, a stack, or a driver's buffer. */
  lemma PageHas(m: PageMap, p: int, x: int)
    requires 3 <= p <= 6 && |m.upar| == 8 && |m.updr| == 8
    ensures m.updr[p] == PDR_ACC_RW + PDR_SIZ_8K && 0 <= x - m.upar[p] < 128 ==> Reaches(m, p, x - m.upar[p], x)
    ensures m.updr[p] == PDR_ACC_RW + PDR_SIZ_4K + PDR_DIR_DN && 64 <= x - m.upar[p] < 128 ==>
              Reaches(m, p, x - m.upar[p], x)
    ensures m.updr[p] == PDR_ACC_RW + PDR_SIZ_1K && 0 <= x - m.upar[p] <= 16 ==> Reaches(m, p, x - m.upar[p], x)
  {
  }

  /**
   The pages reach every block of the stretch, but for a driver: of its buffer of 32 blocks the page length lets it
   reach 17, and the buffer page has taken the place of its second full page if it has one.
   */
  lemma BlocksReached(m: PageMap, med: bool, big: bool, driver: bool, x: int)
    requires LaidOut(m, med, big, driver) && (driver ==> !big) && m.lo <= x < m.hi
    ensures (exists p, b :: Reaches(m, p, b, x)) <==>
            !(driver && (x >= m.hi - 15 || (med && m.lo + 128 <= x < m.lo + 256)))
  {
    hide Maps, Reaches;
    forall p, b | Reaches(m, p, b, x)
      ensures !(driver && (x >= m.hi - 15 || (med && m.lo + 128 <= x < m.lo + 256)))
    {
      assert 3 <= p <= 6 by {
        ReachedPage(m, p, b, x);
      }
      PageReach(m, med, big, driver, p, b, x);
    }
    PageHas(m, 3, x);
    PageHas(m, 4, x);
    PageHas(m, 5, x);
    PageHas(m, 6, x);
  }

  lemma ReachedPage(m: PageMap, p: int, b: int, x: int)
    requires Reaches(m, p, b, x)
    ensures 3 <= p <= 6
  {
  }

  class Task {
    const pid: int
    const taskType: int
    const operprv: bool
    const ioprv: bool
    const auditprv: bool
    var upar: seq<int>
    var updr: seq<int>
    var kpar: seq<int>
    var kpdr: seq<int>
    var tucb: int            // taskTUCB

    /** A task control block as tctinit leaves it. */
    constructor (pid: int, taskType: int, operprv: bool, ioprv: bool, auditprv: bool)
      ensures Cleared() && this.pid == pid && this.taskType == taskType
    {
      this.pid, this.taskType, this.operprv, this.ioprv, this.auditprv := pid, taskType, operprv, ioprv, auditprv;
      upar, updr, kpar, kpdr, tucb := seq(8, _ => 0), seq(8, _ => 0), seq(8, _ => 0), seq(8, _ => 0), 0;
    }

    ghost predicate Cleared()
      reads this
    {
      |upar| == 8 && |updr| == 8 && |kpar| == 8 && |kpdr| == 8 && upar == updr == kpar == kpdr == seq(8, _ => 0)
    }

    /** The kernel sees the private pages where the user does. */
    ghost predicate Mirrored()
      reads `upar, `updr, `kpar, `kpdr
    {
      && |upar| == 8 && |updr| == 8 && |kpar| == 8 && |kpdr| == 8
      && forall p {:trigger kpar[p]} :: 3 <= p <= 6 ==> kpar[p] == upar[p] && kpdr[p] == updr[p]
    }

    /** The kernel's pages, which the user may write only with the operator privilege. */
    ghost predicate CommonSet()
      reads `upar, `updr, `kpar, `kpdr
    {
      && |upar| == 8 && |updr| == 8 && upar[0] == 0 && upar[1] == 0x80 && upar[2] == 0x100
      && |kpar| == 8 && |kpdr| == 8 && kpar[0] == 0 && kpar[1] == 0x80 && kpar[2] == 0x100
      && (forall p {:trigger kpdr[p]} :: 0 <= p < 3 ==> kpdr[p] == PDR_ACC_RW + PDR_SIZ_8K)
      && var wpdr := (if operprv then PDR_ACC_RW else PDR_ACC_RO) + PDR_SIZ_8K;
         updr[0] == wpdr && updr[1] == wpdr && updr[2] == wpdr
    }

    /** The page of the device registers: writable, readable or absent, by privilege. */
    ghost predicate IoSet()
      reads `upar, `updr, `kpar, `kpdr
    {
      && |upar| == 8 && |updr| == 8 && (updr[7] != 0 ==> upar[7] == 0xF80)
      && |kpar| == 8 && |kpdr| == 8 && kpar[7] == 0xF80 && kpdr[7] == PDR_ACC_RW + PDR_SIZ_8K
      && updr[7] == (if ioprv || operprv then PDR_ACC_RW + PDR_SIZ_8K
                     else if auditprv then PDR_ACC_RO + PDR_SIZ_8K else PDR_ACC_NA)
    }

    /** Sets the same page for the user and the kernel. */
    method SetPage(p: nat, par: int, pdr: int)
      requires p < 8 && Mirrored()
      modifies this
      ensures Mirrored()
      ensures upar == old(upar)[p := par] && updr == old(updr)[p := pdr]
      ensures kpar == old(kpar)[p := par] && kpdr == old(kpdr)[p := pdr]
      ensures 3 <= p <= 6 ==> (old(CommonSet()) ==> CommonSet()) && (old(IoSet()) ==> IoSet())
      ensures tucb == old(tucb)
    {
      upar, updr, kpar, kpdr := upar[p := par], updr[p := pdr], kpar[p := par], kpdr[p := pdr];
      forall q | 3 <= q <= 6
        ensures kpar[q] == upar[q] && kpdr[q] == updr[q]
      {
        assert old(kpar[q] == upar[q] && kpdr[q] == updr[q]);
      }
    }
  }

  function SizeField(taskType: int): int {
    taskType / 8 % 8 * 8
  }

  /** The blocks of the full pages. */
  function FullBlocks(tsize: int): int {
    128 + (if tsize == 8 || tsize == 16 then 128 else 0) + (if tsize == 16 then 128 else 0)
  }

  /** The blocks that a task of this type takes. */
  function Needed(taskType: int): int {
    FullBlocks(SizeField(taskType)) + 64 + (if taskType % 8 == 2 then DRV_BUFSIZ / 64 else 0)
  }

  /** A task type that is accepted: small stack; system or user of any size, or driver but not big. */
  predicate Accepted(taskType: int) {
    taskType / 64 % 8 == 0 && taskType % 8 <= 2 && (taskType % 8 == 2 ==> SizeField(taskType) != 16)
  }

  class Memory {
    const mmcbt: array<Mmcb>
    ghost var n: nat              // blocks carved so far
    ghost var maps: seq<PageMap>  // the tasks set up so far

    ghost predicate Valid()
      reads this, mmcbt
    {
      && Tiled(mmcbt[..], n)
      && (forall i {:trigger maps[i]} :: 0 <= i < |maps| ==> Confined(maps[i]) && maps[i].hi <= mmcbt[4].blockAddr)
      && (forall i, j :: 0 <= i < j < |maps| ==> maps[i].hi <= maps[j].lo)
    }

    /** muxx_mem_init */
    constructor ()
      ensures Valid() && n == 0 && maps == [] && mmcbt[4].blockSize == TOP - FIRST
      ensures fresh(mmcbt) && mmcbt.Length == MEM_NMCBS
    {
      var t := new Mmcb[MEM_NMCBS](_ => Mmcb(0, 0, NOBODY, 0, NULL, NULL, 0));
      t[0] := Mmcb(0, 0x80, 1, 0, 1, NULL, 7);
      t[1] := Mmcb(0x80, 0x80, 1, 1, 2, 0, 7);
      t[2] := Mmcb(0x100, 0x80, 1, 2, 3, 1, 7);
      t[3] := Mmcb(0x180, 0x40, 1, 6, 4, 2, 0x10);
      t[4] := Mmcb(FIRST, 0xE40, 0, 0, 5, 3, 0);
      t[5] := Mmcb(0xF80, 0x80, 1, 7, NULL, 4, 0xB);
      mmcbt := t;
      n, maps := 0, [];
    }

    /** findFreeMMCB: the first entry not in use, or 0. */
    method FindFreeMMCB() returns (found: nat)
      requires Tiled(mmcbt[..], n)
      ensures found == if 6 + n < MEM_NMCBS then 6 + n else 0
    {
      found := 0;
      var i := 0;
      while i < MEM_NMCBS && found == 0
        invariant 0 <= i <= MEM_NMCBS && (found == 0 ==> i <= 6 + n) && (found != 0 ==> found == 6 + n < MEM_NMCBS)
        decreases MEM_NMCBS - i
      {
        assert 6 <= i < 6 + n ==> CarvedAt(mmcbt[..], i - 6);
        if mmcbt[i].ownerPID == NOBODY {
          found := i;
        }
        i := i + 1;
      }
    }

    /** muxx_mem_getblock for a block that the free memory has room for: the entry of the new block, or NULL. */
    method GetBlock(pid: int, numBlocks: nat, flags: int, page: int) returns (new_: int)
      requires Tiled(mmcbt[..], n) && pid != 0 && pid != NOBODY && 6 + n < MEM_NMCBS
      requires numBlocks <= MAXBLOCKS ==> numBlocks <= mmcbt[4].blockSize
      modifies `n, mmcbt
      ensures Tiled(mmcbt[..], n)
      ensures numBlocks > MAXBLOCKS ==> new_ == NULL && mmcbt[..] == old(mmcbt[..]) && n == old(n)
      ensures numBlocks <= MAXBLOCKS ==>
        n == old(n) + 1 && new_ == 6 + old(n) &&
        mmcbt[..] == Carved(old(mmcbt[..]), old(n), pid, numBlocks, page, flags)
    {
      if numBlocks > MAXBLOCKS {
        return NULL;
      }
      var cur := 0;
      while !(mmcbt[cur].ownerPID == 0 && mmcbt[cur].blockSize >= numBlocks)
        invariant 0 <= cur <= 4
        decreases 4 - cur
      {
        cur := mmcbt[cur].next;
      }
      var numMMCB := FindFreeMMCB();
      CarvedTiled(mmcbt[..], n, pid, numBlocks, page, flags);
      Link(cur, numMMCB, pid, numBlocks, page, flags);
      n := n + 1;
      new_ := numMMCB;
    }

    /** The stores of muxx_mem_getblock, the new block's link to itself among them. */
    method Link(cur: nat, new_: nat, pid: int, numBlocks: nat, page: int, flags: int)
      requires cur == 4 && 6 <= new_ < mmcbt.Length && (mmcbt[4].next == NULL || 0 <= mmcbt[4].next < mmcbt.Length)
      requires mmcbt[4].next != 4 && mmcbt[4].next != new_
      modifies mmcbt
      ensures mmcbt[..] == Carved(old(mmcbt[..]), new_ - 6, pid, numBlocks, page, flags)
    {
      var m := mmcbt[new_];
      var addr := mmcbt[cur].blockAddr;
      mmcbt[cur] := mmcbt[cur].(blockSize := mmcbt[cur].blockSize - numBlocks, blockAddr := addr + numBlocks);
      mmcbt[new_] := m.(blockSize := numBlocks, blockAddr := addr, ownerPID := pid, ownerPAR := page, prev := cur);
      if mmcbt[cur].next != NULL {
        mmcbt[mmcbt[cur].next] := mmcbt[mmcbt[cur].next].(prev := new_);
      }
      mmcbt[cur] := mmcbt[cur].(next := new_);
      mmcbt[new_] := mmcbt[new_].(next := mmcbt[cur].next, flags := flags);
    }

    /** One page of a task: a block of its own, mapped `down` blocks lower. */
    method Give(task: Task, p: nat, numBlocks: nat, flags: int, page: int, down: int, pdr: int)
      requires Tiled(mmcbt[..], n) && task.pid != 0 && task.pid != NOBODY && 6 + n < MEM_NMCBS
      requires numBlocks <= MAXBLOCKS && numBlocks <= mmcbt[4].blockSize
      requires 3 <= p <= 6 && task.Mirrored()
      modifies `n, mmcbt, task
      ensures (old(task.CommonSet()) ==> task.CommonSet()) && (old(task.IoSet()) ==> task.IoSet())
      ensures Tiled(mmcbt[..], n) && n == old(n) + 1
      ensures mmcbt[4].blockAddr == old(mmcbt[4].blockAddr) + numBlocks
      ensures mmcbt[4].blockSize == old(mmcbt[4].blockSize) - numBlocks
      ensures task.upar == old(task.upar)[p := old(mmcbt[4].blockAddr) - down] && task.updr == old(task.updr)[p := pdr]
      ensures task.Mirrored() && task.tucb == old(task.tucb)
    {
      hide Tiled;
      TiledFacts(mmcbt[..], n);
      var mcb := GetBlock(task.pid, numBlocks, flags, page);
      TiledFacts(mmcbt[..], n);
      task.SetPage(p, mmcbt[mcb].blockAddr - down, pdr);
    }

    lemma TiledFacts(s: seq<Mmcb>, n: nat)
      requires Tiled(s, n)
      ensures |s| == MEM_NMCBS && 6 + n <= |s| && 4 < |s| && (s[4].next == NULL || 0 <= s[4].next < 6 + n)
      ensures s[4].next != 4
      ensures FIRST <= s[4].blockAddr <= TOP && s[4].blockAddr + s[4].blockSize == TOP
    {
      EndsGrow(s, n, 0, n);
    }

    /** The kernel's pages 0 to 2 */
    method CommonPages(task: Task)
      requires task.Mirrored()
      modifies task
      ensures task.Mirrored() && task.CommonSet()
      ensures forall p :: 3 <= p <= 6 ==> task.upar[p] == old(task.upar[p]) && task.updr[p] == old(task.updr[p])
    {
      var wpdr := if task.operprv then PDR_ACC_RW + PDR_SIZ_8K else PDR_ACC_RO + PDR_SIZ_8K;
      var k := PDR_ACC_RW + PDR_SIZ_8K;
      task.upar := task.upar[0 := 0][1 := 0x80][2 := 0x100];
      task.updr := task.updr[0 := wpdr][1 := wpdr][2 := wpdr];
      task.kpar := task.kpar[0 := 0][1 := 0x80][2 := 0x100];
      task.kpdr := task.kpdr[0 := k][1 := k][2 := k];
      forall p | 3 <= p <= 6
        ensures task.kpar[p] == task.upar[p] && task.kpdr[p] == task.updr[p]
      {
        assert old(task.kpar[p] == task.upar[p] && task.kpdr[p] == task.updr[p]);
      }
    }

    /** The page of the device registers */
    method IoPage(task: Task)
      requires task.Mirrored() && task.CommonSet()
      modifies task
      ensures task.Mirrored() && task.CommonSet() && task.IoSet() && task.tucb == old(task.tucb)
      ensures forall p :: 3 <= p <= 6 ==> task.upar[p] == old(task.upar[p]) && task.updr[p] == old(task.updr[p])
    {
      task.kpar, task.kpdr := task.kpar[7 := 0xF80], task.kpdr[7 := PDR_ACC_RW + PDR_SIZ_8K];
      if task.ioprv || task.operprv {
        task.upar, task.updr := task.upar[7 := 0xF80], task.updr[7 := PDR_ACC_RW + PDR_SIZ_8K];
      } else if task.auditprv {
        task.upar, task.updr := task.upar[7 := 0xF80], task.updr[7 := PDR_ACC_RO + PDR_SIZ_8K];
      } else {
        task.upar, task.updr := task.upar[7 := 0], task.updr[7 := PDR_ACC_NA];
      }
      forall p | 3 <= p <= 6
        ensures task.kpar[p] == task.upar[p] && task.kpdr[p] == task.updr[p]
      {
        assert old(task.kpar[p] == task.upar[p] && task.kpdr[p] == task.updr[p]);
      }
    }

    /** muxx_setup_taskmem, when what is free suffices: the new task's pages lie in a stretch of their own. */
    method SetupTaskMem(task: Task) returns (rc: int)
      requires Valid() && task.Cleared() && task.pid != 0 && task.pid != NOBODY && task.taskType >= 0
      requires Accepted(task.taskType) ==> mmcbt[4].blockSize >= Needed(task.taskType) && 6 + n + 5 <= MEM_NMCBS
      modifies this, mmcbt, task
      ensures Valid() && rc == if Accepted(task.taskType) then EOK else EINVVAL
      ensures !Accepted(task.taskType) ==>
        mmcbt[..] == old(mmcbt[..]) && n == old(n) && maps == old(maps) && task.Cleared()
      ensures Accepted(task.taskType) ==>
        var lo := old(mmcbt[4].blockAddr);
        var m := PageMap(task.upar, task.updr, lo, lo + Needed(task.taskType));
        && maps == old(maps) + [m]
        && LaidOut(m, SizeField(task.taskType) == 8, SizeField(task.taskType) == 16, task.taskType % 8 == 2)
      ensures Accepted(task.taskType) ==>
        old(n) < n <= old(n) + 5 && mmcbt[4].blockSize == old(mmcbt[4].blockSize) - Needed(task.taskType)
      ensures Accepted(task.taskType) ==> task.Mirrored() && task.CommonSet() && task.IoSet()
      ensures Accepted(task.taskType) ==>
        task.tucb == 8192 * LastPage(SizeField(task.taskType) == 8, SizeField(task.taskType) == 16) + 127 * 64
    {
      hide Tiled, Confined, Maps, CarvedAt, LaidOut;
      var ttype, tsize, ssize := task.taskType % 8, SizeField(task.taskType), task.taskType / 64 % 8;
      if ssize != 0 {
        return EINVVAL;
      }
      if ttype > 2 || (ttype == 2 && tsize == 16) {
        return EINVVAL;
      }
      TiledFacts(mmcbt[..], n);
      ghost var lo := mmcbt[4].blockAddr;
      Pages(task, tsize, ttype == 2);
      ghost var m := PageMap(task.upar, task.updr, lo, mmcbt[4].blockAddr);
      TiledFacts(mmcbt[..], n);
      LayoutConfined(m, tsize == 8, tsize == 16, ttype == 2);
      maps := maps + [m];
      rc := EOK;
    }

    /** The user control block goes to the end of the memory given so far, in whole blocks. */
    method PutControlBlock(task: Task, endalloc: int)
      modifies task`tucb
      ensures task.tucb == endalloc - 64
    {
      var tucbsize := (TUCB_SIZE - 1) / 64;
      tucbsize := (tucbsize + 1) * 64;
      task.tucb := endalloc - tucbsize;
    }

    /** The private pages from page 3 on, and the user control block at their end. */
    method FullPages(task: Task, tsize: int)
      requires Tiled(mmcbt[..], n) && task.Mirrored() && task.CommonSet() && task.pid != 0 && task.pid != NOBODY
      requires 6 + n + 3 <= MEM_NMCBS && task.updr[4] == task.updr[5] == 0
      requires mmcbt.Length > 4 && mmcbt[4].blockSize >= FullBlocks(tsize)
      modifies `n, mmcbt, task
      ensures Tiled(mmcbt[..], n) && old(n) < n <= old(n) + 3 && task.Mirrored() && task.CommonSet()
      ensures mmcbt[4].blockAddr == old(mmcbt[4].blockAddr) + FullBlocks(tsize)
      ensures mmcbt[4].blockSize == old(mmcbt[4].blockSize) - FullBlocks(tsize)
      ensures FullLaid(task.upar, task.updr, old(mmcbt[4].blockAddr), tsize == 8, tsize == 16)
      ensures task.tucb == 8192 * LastPage(tsize == 8, tsize == 16) + 127 * 64
    {
      hide Tiled, CarvedAt, Maps, Task.CommonSet, Task.IoSet;
      Give(task, 3, 128, 0, 3, 0, PDR_ACC_RW + PDR_SIZ_8K);
      var endalloc := 8192 * 4;
      if tsize == 8 || tsize == 16 {
        Give(task, 4, 128, 0, 4, 0, PDR_ACC_RW + PDR_SIZ_8K);
        endalloc := 8192 * 5;
      }
      if tsize == 16 {
        Give(task, 5, 128, 0, 5, 0, PDR_ACC_RW + PDR_SIZ_8K);
        endalloc := 8192 * 6;
      }
      PutControlBlock(task, endalloc);
    }

    /** The pages of an accepted task. */
    method Pages(task: Task, tsize: int, driver: bool)
      requires Tiled(mmcbt[..], n) && task.Cleared() && task.pid != 0 && task.pid != NOBODY && 6 + n + 5 <= MEM_NMCBS
      requires tsize == SizeField(task.taskType) && (driver <==> task.taskType % 8 == 2) && (driver ==> tsize != 16)
      requires mmcbt.Length > 4 && mmcbt[4].blockSize >= Needed(task.taskType)
      modifies `n, mmcbt, task
      ensures Tiled(mmcbt[..], n) && old(n) < n <= old(n) + 5
      ensures mmcbt[4].blockAddr == old(mmcbt[4].blockAddr) + Needed(task.taskType)
      ensures mmcbt[4].blockSize == old(mmcbt[4].blockSize) - Needed(task.taskType)
      ensures task.Mirrored() && task.CommonSet() && task.IoSet()
      ensures task.tucb == 8192 * LastPage(tsize == 8, tsize == 16) + 127 * 64
      ensures var m := PageMap(task.upar, task.updr, old(mmcbt[4].blockAddr), mmcbt[4].blockAddr);
              LaidOut(m, tsize == 8, tsize == 16, driver)
    {
      hide Tiled, CarvedAt, Maps, Task.CommonSet, Task.IoSet;
      assert task.Mirrored();
      CommonPages(task);
      FullPages(task, tsize);
      Give(task, 6, 64, MMCB_FLG_STK, 6, 64, PDR_ACC_RW + PDR_SIZ_4K + PDR_DIR_DN);
      IoPage(task);
      if driver {
        Give(task, 4, DRV_BUFSIZ / 64, MMCB_FLG_BUF, 5, 0, PDR_ACC_RW + PDR_SIZ_1K);
      }
    }

    /** No two tasks ever reach the same physical block through their private pages. */
    lemma Isolation(i: int, j: int, p: int, b: int, q: int, c: int, x: int)
      requires Valid() && 0 <= i < |maps| && 0 <= j < |maps| && i != j && Reaches(maps[i], p, b, x)
      ensures !Reaches(maps[j], q, c, x)
    {
      hide Tiled, Reaches;
      var k, l := if i < j then i else j, if i < j then j else i;
      assert maps[k].hi <= maps[l].lo;
    }
  }

  /** Nineteen small processes fill the memory: the scan for the next one's first page never ends. */
  method NineteenSmall() returns (mem: Memory)
    ensures mem.Valid() && |mem.maps| == 19 && mem.mmcbt[4].blockSize == 0
    ensures forall k: nat :: !ScanOver(mem.mmcbt[..], MAXBLOCKS, k)
  {
    hide Tiled, Confined;
    mem := new Memory();
    for i := 0 to 19
      invariant fresh(mem) && fresh(mem.mmcbt) && mem.Valid() && |mem.maps| == i
      invariant mem.mmcbt.Length > 4 && mem.mmcbt[4].blockSize == TOP - FIRST - 192 * i
      invariant mem.n <= 5 * i && (i > 0 ==> mem.n > 0)
    {
      var task := new Task(i + 2, 1, false, false, false);
      var rc := mem.SetupTaskMem(task);
    }
    ScanEnds(mem.mmcbt[..], mem.n, MAXBLOCKS);
  }
}

/** The ndbm data base (bsdlibc/gen/ndbm.c): a page file and a directory file, each with one cached block. */
module Ndbm {
  import opened NdbmPage
  import opened NdbmTrie
  import opened NdbmMap
  import opened NdbmCohort
  import opened NdbmDir
  import opened NdbmScan
  import opened NdbmStoreScan

  type Page = seq<byte>

  /** Page `i` of the page file; beyond its end a read fails and the buffer is cleared. */
  function PageAt(f: seq<Page>, i: nat): Page {
    if i < |f| then f[i] else seq(PBLKSIZ, _ => 0)
  }

  function PutPage(f: seq<Page>, i: nat, x: Page): (r: seq<Page>)
    ensures |r| == if i < |f| then |f| else i + 1
    ensures forall j: nat :: PageAt(r, j) == if j == i then x else PageAt(f, j)
  {
    if i < |f| then f[i := x] else f + seq(i - |f|, _ => seq(PBLKSIZ, _ => 0)) + [x]
  }

  ghost predicate PagesAre(f: seq<Page>, lists: seq<seq<Pair>>) {
    && |f| == |lists|
    && forall i: nat {:trigger PageAt(f, i)} :: Holds(PageAt(f, i), ListAt(lists, i))
  }

  lemma ClearedPage()
    ensures Holds(seq(PBLKSIZ, _ => 0), [])
  {
  }

  lemma WritePage(f: seq<Page>, lists: seq<seq<Pair>>, i: nat, x: Page, ps: seq<Pair>)
    requires PagesAre(f, lists) && Holds(x, ps)
    ensures PagesAre(PutPage(f, i, x), PutList(lists, i, ps))
  {
    var g := PutPage(f, i, x);
    forall j: nat
      ensures Holds(PageAt(g, j), ListAt(PutList(lists, i, ps), j))
    {
      assert j != i ==> PageAt(g, j) == PageAt(f, j);
    }
  }

  // ----- the loop of a split -----

  lemma HalfStep(ps: seq<Pair>, hash: Hash, w: nat, up: bool, j: nat)
    requires w >= 1 && j < |ps|
    ensures Half(ps[..j + 1], hash, w, up)
         == Half(ps[..j], hash, w, up) + if HasBit(hash(ps[j].key), w) == up then [ps[j]] else []
  {
    assert ps[..j + 1][..j] == ps[..j];
  }

  /** While a page that fits is being split, its upper half always has room for the next pair. */
  lemma UpperHalfFits(ps: seq<Pair>, hash: Hash, w: nat, j: nat)
    requires w >= 1 && j <= |ps| && Fits(ps)
    ensures Fits(Half(ps[..j], hash, w, true))
  {
    HalvesFit(ps[..j], hash, w, true);
    TopAppend(ps[..j], ps[j..], j);
    assert ps[..j] + ps[j..] == ps;
    TopDescends(ps, j, |ps|);
  }

  lemma Seam(low: seq<Pair>, rest: seq<Pair>)
    requires rest != []
    ensures low + rest == (low + [rest[0]]) + rest[1..]
  {
  }

  /** Moves the first pair not yet looked at, whose hash has bit `w`, to `ovf`. */
  method MoveUp(buf: array<byte>, ovf: array<byte>, i: nat, key: seq<byte>,
                ghost low: seq<Pair>, ghost high: seq<Pair>, ghost rest: seq<Pair>)
    requires buf != ovf && rest != [] && i == 2 * |low| && key == rest[0].key
    requires Holds(buf[..], low + rest) && Holds(ovf[..], high) && Fits(high + [rest[0]])
    modifies buf, ovf
    ensures Holds(buf[..], low + rest[1..]) && Holds(ovf[..], high + [rest[0]])
  {
    NthPair(low + rest, |low|);
    var item1 := MakDatum(buf, i + 1, low + rest);
    assert Pair(key, item1.bytes) == rest[0];
    var added := AddItem(ovf, key, item1.bytes, high);
    var deleted := DelItem(buf, i, low + rest);
    assert added && deleted;
    assert Without(low + rest, |low|) == low + rest[1..];
  }

  /** How far a split has come: `low` and `high` are the halves of the pairs before `rest`. */
  ghost predicate Parted(ps: seq<Pair>, hash: Hash, w: nat, low: seq<Pair>, high: seq<Pair>, rest: seq<Pair>)
    requires w >= 1
  {
    && |rest| <= |ps|
    && rest == ps[|ps| - |rest|..]
    && low == Half(ps[..|ps| - |rest|], hash, w, false)
    && high == Half(ps[..|ps| - |rest|], hash, w, true)
  }

  lemma PartedStep(ps: seq<Pair>, hash: Hash, w: nat, low: seq<Pair>, high: seq<Pair>, rest: seq<Pair>)
    requires w >= 1 && Fits(ps) && Parted(ps, hash, w, low, high, rest) && rest != []
    ensures if HasBit(hash(rest[0].key), w)
            then Fits(high + [rest[0]]) && Parted(ps, hash, w, low, high + [rest[0]], rest[1..])
            else Parted(ps, hash, w, low + [rest[0]], high, rest[1..])
  {
    var j := |ps| - |rest|;
    HalfStep(ps, hash, w, false, j);
    HalfStep(ps, hash, w, true, j);
    UpperHalfFits(ps, hash, w, j + 1);
    assert low + [] == low && high + [] == high;
  }

  lemma PartedEnd(ps: seq<Pair>, hash: Hash, w: nat, low: seq<Pair>, high: seq<Pair>, rest: seq<Pair>)
    requires w >= 1 && Parted(ps, hash, w, low, high, rest) && rest == []
    ensures low + rest == Half(ps, hash, w, false) && high == Half(ps, hash, w, true)
  {
    assert ps[..|ps|] == ps;
  }

  /** Moves the pairs whose hash has bit `w` from `buf` to `ovf`, in order. */
  method Partition(buf: array<byte>, ovf: array<byte>, hash: Hash, w: nat, ghost ps: seq<Pair>)
    requires buf != ovf && w >= 1 && Holds(buf[..], ps) && Holds(ovf[..], [])
    modifies buf, ovf
    ensures Holds(buf[..], Half(ps, hash, w, false)) && Holds(ovf[..], Half(ps, hash, w, true))
  {
    var i := 0;
    ghost var low, high, rest := [], [], ps;
    assert low + rest == ps;
    while true
      invariant Parted(ps, hash, w, low, high, rest) && i == 2 * |low|
      invariant Holds(buf[..], low + rest) && Holds(ovf[..], high)
      decreases |rest|
    {
      NthPair(low + rest, |low|);
      var item := MakDatum(buf, i, low + rest);
      if item.Null? {
        break;
      }
      PartedStep(ps, hash, w, low, high, rest);
      if HasBit(hash(item.bytes), w) {
        MoveUp(buf, ovf, i, item.bytes, low, high, rest);
        high := high + [rest[0]];
      } else {
        i := i + 2;
        Seam(low, rest);
        low := low + [rest[0]];
      }
      rest := rest[1..];
    }
    PartedEnd(ps, hash, w, low, high, rest);
  }

  // ----- the steps of a store -----

  datatype Outcome = Exists | Added | Full | NoSpace

  lemma StoreDenotes(lists: seq<seq<Pair>>, bits: set<nat>, hash: Hash, m: Contents,
                     key: seq<byte>, val: seq<byte>, ps: seq<Pair>)
    requires Reduced(lists, bits, hash, m, key, ps)
    ensures Denotes(PutList(lists, Home(bits, hash(key)), ps + [Pair(key, val)]), bits, hash, m[key := val])
  {
    var i := Home(bits, hash(key));
    InsertDenotes(PutList(lists, i, ps), bits, hash, m - {key}, key, val);
    PutTwice(lists, i, ps, ps + [Pair(key, val)]);
    UpdateAfterRemoval(m, key, val);
  }

  lemma UpdateAfterRemoval(m: Contents, key: seq<byte>, val: seq<byte>)
    ensures (m - {key})[key := val] == m[key := val]
    ensures (m - {key}) - {key} == m - {key}
  {
  }

  ghost predicate HomeBounded(lists: seq<seq<Pair>>, bits: set<nat>, hash: Hash, h: nat, bound: nat) {
    h < P(bound) && Bounded(ListAt(lists, Home(bits, h)), hash, bound)
  }

  lemma HomeBound(lists: seq<seq<Pair>>, bits: set<nat>, hash: Hash, h: nat) returns (bound: nat)
    ensures HomeBounded(lists, bits, hash, h, bound)
  {
    bound := BoundExists(ListAt(lists, Home(bits, h)), hash, h);
  }

  lemma SplitHomeList(lists: seq<seq<Pair>>, bits: set<nat>, hash: Hash, h: nat, ps: seq<Pair>)
    requires PrefixClosed(bits)
    ensures var w := P(Leaf(bits, h, 0));
            ListAt(SplitLists(PutList(lists, Home(bits, h), ps), bits, hash, h), Home(SplitBits(bits, h), h))
            == Half(ps, hash, w, HasBit(h, w))
  {
    SplitHome(bits, h, h);
  }

  /** A split keeps the promise of room for `p` and the bound on the hashes of its page. */
  lemma SplitKeepsRoom(lists: seq<seq<Pair>>, bits: set<nat>, hash: Hash, p: Pair, ps: seq<Pair>, bound: nat)
    requires PrefixClosed(bits) && PageRoom(lists, bits, hash, p) && HomeBounded(lists, bits, hash, hash(p.key), bound)
    requires var i := Home(bits, hash(p.key));
             && Cohort(ps, hash, p.key) == Cohort(ListAt(lists, i), hash, p.key)
             && forall q :: q in ps ==> q in ListAt(lists, i)
    ensures var h := hash(p.key);
            var ls, bs := SplitLists(PutList(lists, Home(bits, h), ps), bits, hash, h), SplitBits(bits, h);
            PageRoom(ls, bs, hash, p) && HomeBounded(ls, bs, hash, h, bound)
  {
    var h := hash(p.key);
    var w := P(Leaf(bits, h, 0));
    SplitHomeList(lists, bits, hash, h, ps);
    CohortHalf(ps, hash, p.key, w);
    BoundedHalf(ps, hash, w, HasBit(h, w), bound);
  }

  /** A split keeps the map and brings the leaf of `p` one level closer to the bound. */
  lemma SplitKeepsMap(lists: seq<seq<Pair>>, bits: set<nat>, hash: Hash, m: Contents, p: Pair, ps: seq<Pair>,
                      bound: nat)
    requires PrefixClosed(bits) && PageRoom(lists, bits, hash, p) && HomeBounded(lists, bits, hash, hash(p.key), bound)
    requires Reduced(lists, bits, hash, m, p.key, ps) && !Fits(ps + [p])
    ensures var h := hash(p.key);
            var ls, bs := SplitLists(PutList(lists, Home(bits, h), ps), bits, hash, h), SplitBits(bits, h);
            && Denotes(ls, bs, hash, m - {p.key}) && PrefixClosed(bs)
            && Leaf(bits, h, 0) < bound && Leaf(bs, h, 0) == Leaf(bits, h, 0) + 1
  {
    var h := hash(p.key);
    FailsAboveBound(lists, bits, hash, m - {p.key}, ps, p, bound);
    SplitDenotes(PutList(lists, Home(bits, h), ps), bits, hash, m - {p.key}, h);
    SplitClosed(bits, h);
    SplitLeaf(bits, h, h);
  }

  /** Both of the above, for the pages and the bit that a split writes. */
  lemma AdvanceSound(lists: seq<seq<Pair>>, bits: set<nat>, hash: Hash, m: Contents, p: Pair, ps: seq<Pair>,
                     bound: nat, b: nat, w: nat, n: nat)
    requires PrefixClosed(bits) && PageRoom(lists, bits, hash, p) && HomeBounded(lists, bits, hash, hash(p.key), bound)
    requires Reduced(lists, bits, hash, m, p.key, ps) && !Fits(ps + [p])
    requires b == Home(bits, hash(p.key)) && w == P(Leaf(bits, hash(p.key), 0))
    requires n == Node(hash(p.key), Leaf(bits, hash(p.key), 0))
    ensures var h, ls, bs := hash(p.key), PutHalves(lists, b, w, hash, ps), bits + {n};
            && Denotes(ls, bs, hash, m - {p.key}) && PrefixClosed(bs)
            && PageRoom(ls, bs, hash, p) && HomeBounded(ls, bs, hash, h, bound)
            && Leaf(bits, h, 0) < bound && Leaf(bs, h, 0) == Leaf(bits, h, 0) + 1
  {
    SplitKeepsMap(lists, bits, hash, m, p, ps, bound);
    SplitKeepsRoom(lists, bits, hash, p, ps, bound);
    SplitListsOf(lists, bits, hash, hash(p.key), ps);
  }

  lemma NothingBehind(f: seq<Page>, lists: seq<seq<Pair>>, blk: nat, i: nat)
    requires PagesAre(f, lists) && blk >= |f|
    ensures Remaining(lists, blk, i) == []
  {
  }

  /** A call of dbm_nextkey returns the first key of `ks`, or null if there is none, and leaves `ks'` to be visited. */
  predicate Comes(item: Datum, ks: seq<seq<byte>>, ks': seq<seq<byte>>) {
    if ks == [] then item == Null && ks' == [] else item == Datum(ks[0]) && ks' == ks[1..]
  }

  class Dbm {
    const hash: Hash
    const rdonly: bool
    const pagbuf: array<byte>
    const dirbuf: array<byte>
    var pagf: seq<Page>
    var dirf: seq<Block>
    var ioerr: bool
    var maxbno: int
    var bitno: nat
    var hmask: nat
    var blkptr: nat
    var keyptr: nat
    var blkno: nat
    var pagbno: int
    var dirbno: int

    ghost var lists: seq<seq<Pair>>  // the pairs on each page of the page file
    ghost var bits: set<nat>         // the bits set in the directory file
    ghost var m: Contents            // the map that the files denote

    /** The two files denote the map `m`. */
    ghost predicate Files()
      reads `pagf, `dirf, `maxbno, `lists, `bits, `m
    {
      && PagesAre(pagf, lists)
      && DirIs(dirf, bits, maxbno)
      && PrefixClosed(bits)
      && Denotes(lists, bits, hash, m)
    }

    ghost predicate DirCached()
      reads `dirf, `dirbno, dirbuf
    {
      dirbuf.Length == DBLKSIZ && dirbno >= -1 && (dirbno >= 0 ==> dirbuf[..] == DirAt(dirf, dirbno))
    }

    ghost predicate PageCached()
      reads `pagf, `pagbno, pagbuf
    {
      pagbuf.Length == PBLKSIZ && pagbno >= -1 && (pagbno >= 0 ==> pagbuf[..] == PageAt(pagf, pagbno))
    }

    /** Until an I/O error is recorded, the cached page is the one on file; a scan goes from key to key. */
    ghost predicate Valid()
      reads this, pagbuf, dirbuf
    {
      Files() && DirCached() && (!ioerr ==> PageCached()) && keyptr % 2 == 0
    }

    /** dbm_open on files left by an earlier run, or on empty ones. */
    constructor (hash: Hash, rdonly: bool, pagf: seq<Page>, dirf: seq<Block>,
                 ghost lists: seq<seq<Pair>>, ghost bits: set<nat>, ghost m: Contents)
      requires PagesAre(pagf, lists) && DirIs(dirf, bits, |dirf| * DBLKSIZ * BYTESIZ - 1)
      requires PrefixClosed(bits) && Denotes(lists, bits, hash, m)
      ensures Valid() && !ioerr && this.m == m && this.hash == hash && this.rdonly == rdonly
      ensures fresh(pagbuf) && fresh(dirbuf)
    {
      this.hash, this.rdonly, this.pagf, this.dirf := hash, rdonly, pagf, dirf;
      this.pagbuf, this.dirbuf := new byte[PBLKSIZ], new byte[DBLKSIZ];
      this.ioerr, this.maxbno, this.pagbno, this.dirbno := false, |dirf| * DBLKSIZ * BYTESIZ - 1, -1, -1;
      this.bitno, this.hmask, this.blkptr, this.keyptr, this.blkno := 0, 0, 0, 0, 0;
      this.lists, this.bits, this.m := lists, bits, m;
    }

    /** dbm_open on new files. */
    constructor New(hash: Hash)
      ensures Valid() && !ioerr && !rdonly && m == map[] && this.hash == hash
      ensures fresh(pagbuf) && fresh(dirbuf)
    {
      this.hash, rdonly, pagf, dirf := hash, false, [], [];
      pagbuf, dirbuf := new byte[PBLKSIZ], new byte[DBLKSIZ];
      ioerr, maxbno, pagbno, dirbno := false, -1, -1, -1;
      bitno, hmask, blkptr, keyptr, blkno := 0, 0, 0, 0, 0;
      lists, bits, m := [], {}, map[];
      new;
      EmptyDenotes(hash);
      ClearedPage();
      EmptyDirectory();
    }

    /** Brings directory block `b` into the buffer. */
    method LoadDir(b: nat)
      requires DirIs(dirf, bits, maxbno) && DirCached()
      modifies `dirbno, dirbuf
      ensures DirCached() && dirbno == b
    {
      if b != dirbno {
        dirbno := b;
        var x := DirAt(dirf, b);
        forall i | 0 <= i < DBLKSIZ {
          dirbuf[i] := x[i];
        }
        assert dirbuf[..] == x;
      }
    }

    method GetBit() returns (r: bool)
      requires DirIs(dirf, bits, maxbno) && DirCached()
      modifies `dirbno, dirbuf
      ensures DirCached()
      ensures r <==> bitno in bits
    {
      if bitno > maxbno {
        return false;
      }
      var n, bn := bitno % BYTESIZ, bitno / BYTESIZ;
      var i, b := bn % DBLKSIZ, bn / DBLKSIZ;
      LoadDir(b);
      ReadBit(dirf, bits, maxbno, bitno);
      r := TestBit(dirbuf[..][i], n);
    }

    method SetBit()
      requires DirIs(dirf, bits, maxbno) && DirCached()
      modifies `dirbno, `maxbno, `dirf, `bits, dirbuf
      ensures DirIs(dirf, bits, maxbno) && DirCached() && bits == old(bits) + {bitno}
    {
      var n, bn := bitno % BYTESIZ, bitno / BYTESIZ;
      var i, b := bn % DBLKSIZ, bn / DBLKSIZ;
      LoadDir(b);
      WriteBit(dirf, bits, maxbno, bitno);
      if bitno > maxbno {
        maxbno := bitno;
      }
      bits := bits + {bitno};
      OrDirBuf(i, n);
    }

    /** Sets bit `n` of byte `i` in the buffer and writes the buffer. */
    method OrDirBuf(i: nat, n: nat)
      requires DirCached() && dirbno >= 0 && i < DBLKSIZ && n < BYTESIZ
      modifies `dirf, dirbuf
      ensures DirCached()
      ensures var x := old(DirAt(dirf, dirbno));
              |x| == DBLKSIZ && dirf == PutDir(old(dirf), dirbno, x[i := OrByte(x[i], n)])
    {
      ghost var x := dirbuf[..];
      dirbuf[i] := OrByte(dirbuf[i], n);
      assert dirbuf[..] == x[i := OrByte(x[i], n)];
      dirf := PutDir(dirf, dirbno, dirbuf[..]);
    }

    /** Brings page `i` into the buffer. */
    method LoadPage(i: nat)
      requires PagesAre(pagf, lists) && PageCached()
      modifies `pagbno, pagbuf
      ensures PageCached() && pagbno == i && Holds(pagbuf[..], ListAt(lists, i))
    {
      assert Holds(PageAt(pagf, i), ListAt(lists, i));
      if i != pagbno {
        pagbno := i;
        var x := PageAt(pagf, i);
        forall j | 0 <= j < PBLKSIZ {
          pagbuf[j] := x[j];
        }
        assert pagbuf[..] == x;
      }
    }

    /** The loop of dbm_access: follows set bits down to the leaf of hash `h`. */
    method Descend(h: nat)
      requires DirIs(dirf, bits, maxbno) && DirCached()
      modifies `hmask, `blkno, `bitno, `dirbno, dirbuf
      ensures DirCached()
      ensures hmask + 1 == P(Leaf(bits, h, 0)) && blkno == Home(bits, h) && bitno == Node(h, Leaf(bits, h, 0))
    {
      ghost var d := 0;
      hmask := 0;
      blkno := h % (hmask + 1);
      bitno := blkno + hmask;
      var split := GetBit();
      while split
        invariant DirCached() && hmask + 1 == P(d) && Leaf(bits, h, d) == Leaf(bits, h, 0)
        invariant blkno == h % (hmask + 1) && bitno == Node(h, d)
        invariant split <==> bitno in bits
        decreases Above(bits, d), split
      {
        AboveShrinks(bits, h, d);
        hmask := 2 * hmask + 1;
        d := d + 1;
        blkno := h % (hmask + 1);
        bitno := blkno + hmask;
        split := GetBit();
      }
    }

    /** Loads the page that hash `h` reaches. */
    method Access(h: nat)
      requires Files() && DirCached() && PageCached()
      modifies `hmask, `blkno, `bitno, `dirbno, `pagbno, dirbuf, pagbuf
      ensures DirCached() && PageCached()
      ensures hmask + 1 == P(Leaf(bits, h, 0)) && blkno == Home(bits, h) && bitno == Node(h, Leaf(bits, h, 0))
      ensures pagbno == blkno && Holds(pagbuf[..], ListAt(lists, blkno))
    {
      Descend(h);
      LoadPage(blkno);
    }

    /** dbm_access followed by finddatum: where on the cached page is `key`? */
    method Locate(key: seq<byte>) returns (i: int)
      requires Files() && DirCached() && PageCached()
      modifies `hmask, `blkno, `bitno, `dirbno, `pagbno, dirbuf, pagbuf
      ensures DirCached() && PageCached()
      ensures hmask + 1 == P(Leaf(bits, hash(key), 0)) && bitno == Node(hash(key), Leaf(bits, hash(key), 0))
      ensures blkno == Home(bits, hash(key)) && Holds(pagbuf[..], ListAt(lists, blkno))
      ensures i == -1 || (0 <= i && i % 2 == 0 && i / 2 < |ListAt(lists, blkno)|)
      ensures i == -1 ==> key !in m
      ensures i >= 0 ==> key in m && ListAt(lists, blkno)[i / 2] == Pair(key, m[key])
      ensures i >= 0 ==> Nth(ListAt(lists, blkno), i + 1) == Datum(m[key])
    {
      Access(hash(key));
      ghost var ps := ListAt(lists, blkno);
      i := FindDatum(pagbuf, key, ps);
      FoundInPage(lists, bits, hash, m, key, i);
      if i >= 0 {
        NthPair(ps, i / 2);
        assert 2 * (i / 2) + 1 == i + 1;
      }
    }

    lemma FoundInPage(lists: seq<seq<Pair>>, bits: set<nat>, hash: Hash, m: Contents, key: seq<byte>, i: int)
      requires Denotes(lists, bits, hash, m)
      requires var ps := ListAt(lists, Home(bits, hash(key)));
               && (i >= 0 ==> i / 2 < |ps| && ps[i / 2].key == key)
               && (i < 0 ==> forall j :: 0 <= j < |ps| ==> ps[j].key != key)
      ensures i < 0 ==> key !in m
      ensures i >= 0 ==> key in m && ListAt(lists, Home(bits, hash(key)))[i / 2] == Pair(key, m[key])
    {
      var ps := ListAt(lists, Home(bits, hash(key)));
      SearchDecides(lists, bits, hash, m, key);
      if i >= 0 {
        assert ps[i / 2] in ps;
      }
    }

    // ----- dbm_fetch -----

    method Fetch(key: seq<byte>) returns (item: Datum)
      requires Valid()
      modifies `hmask, `blkno, `bitno, `dirbno, `pagbno, dirbuf, pagbuf
      ensures Valid()
      ensures item == if !ioerr && key in m then Datum(m[key]) else Null
    {
      if ioerr {
        item := Null;
      } else {
        item := Lookup(key);
      }
    }

    /** dbm_fetch when no error has been recorded. */
    method Lookup(key: seq<byte>) returns (item: Datum)
      requires Files() && DirCached() && PageCached()
      modifies `hmask, `blkno, `bitno, `dirbno, `pagbno, dirbuf, pagbuf
      ensures DirCached() && PageCached()
      ensures item == if key in m then Datum(m[key]) else Null
    {
      var i := Locate(key);
      if i >= 0 {
        item := MakDatum(pagbuf, i + 1, ListAt(lists, blkno));
      } else {
        item := Null;
      }
    }

    // ----- dbm_delete -----

    /** Writes the buffer, which stands for `ps`, to page `blkno`. */
    method WriteBack(ghost ps: seq<Pair>)
      requires PagesAre(pagf, lists) && pagbuf.Length == PBLKSIZ && Holds(pagbuf[..], ps)
      modifies `pagbno, `pagf, `lists
      ensures PagesAre(pagf, lists) && PageCached() && lists == PutList(old(lists), blkno, ps) && pagbno == blkno
    {
      pagbno := blkno;
      WritePage(pagf, lists, blkno, pagbuf[..], ps);
      pagf := PutPage(pagf, blkno, pagbuf[..]);
      lists := PutList(lists, blkno, ps);
    }

    method Delete(key: seq<byte>) returns (r: int)
      requires Valid()
      modifies this, dirbuf, pagbuf
      ensures Valid() && ioerr == old(ioerr)
      ensures r == (if !old(ioerr) && !rdonly && key in old(m) then 0 else -1)
      ensures m == if r == 0 then old(m) - {key} else old(m)
      ensures unchanged(`blkptr) && unchanged(`keyptr) && (r == -1 ==> unchanged(`lists))
      ensures r == 0 ==>
        var b := Home(old(bits), hash(key));
        var j := IndexOf(ListAt(old(lists), b), key);
        && j < |ListAt(old(lists), b)|
        && (forall k :: k in ToVisit() ==> k in old(ToVisit()) && k != key)
        && (Spares(old(ToVisit()), ToVisit(), key) <==> Harmless(old(lists), blkptr, keyptr / 2, b, j))
    {
      hide Denotes, PagesAre, DirIs, PrefixClosed, Harmless, Remaining, Holds;
      if ioerr || rdonly {
        return -1;
      }
      var i := Locate(key);
      if i < 0 {
        return -1;
      }
      ghost var ps := ListAt(lists, blkno);
      PlaceOf(lists, bits, hash, m, blkno, key, i / 2);
      DeleteDuringScan(lists, bits, hash, m, blkptr, keyptr / 2, blkno, i / 2);
      RemoveAt(key, i);
      return 0;
    }

    /** delitem on the cached page, then its write. */
    method RemoveAt(key: seq<byte>, i: nat)
      requires Files() && PageCached() && blkno == Home(bits, hash(key))
      requires Holds(pagbuf[..], ListAt(lists, blkno))
      requires i % 2 == 0 && i / 2 < |ListAt(lists, blkno)| && ListAt(lists, blkno)[i / 2].key == key
      modifies `pagbno, `pagf, `lists, `m, pagbuf
      ensures Files() && PageCached() && m == old(m) - {key}
      ensures lists == Dropped(old(lists), blkno, i / 2)
    {
      ghost var ps := ListAt(lists, blkno);
      RemoveDenotes(lists, bits, hash, m, key, i / 2);
      var deleted := DelItem(pagbuf, i, ps);
      assert deleted;
      WriteBack(Without(ps, i / 2));
      m := m - {key};
    }

    // ----- dbm_store -----

    /** Writes the lower half of the cached page back and the upper half to a new page. */
    method SplitPages(ghost ps: seq<Pair>, ghost ls: seq<seq<Pair>>)
      requires PagesAre(pagf, lists) && pagbuf.Length == PBLKSIZ && Holds(pagbuf[..], ps)
      requires ls == PutHalves(lists, blkno, hmask + 1, hash, ps)
      modifies `pagbno, `pagf, `lists, pagbuf
      ensures PagesAre(pagf, lists) && PageCached() && lists == ls
    {
      hide PagesAre, Holds, Half, Fits;
      var ovfbuf := new byte[PBLKSIZ](_ => 0);
      ClearedPage();
      assert ovfbuf[..] == seq(PBLKSIZ, _ => 0);
      Partition(pagbuf, ovfbuf, hash, hmask + 1, ps);
      WriteBack(Half(ps, hash, hmask + 1, false));
      WriteOverflow(ovfbuf[..], Half(ps, hash, hmask + 1, true));
    }

    method WriteOverflow(x: Page, ghost ps: seq<Pair>)
      requires PagesAre(pagf, lists) && PageCached() && pagbno == blkno && Holds(x, ps)
      modifies `pagf, `lists
      ensures PagesAre(pagf, lists) && PageCached() && lists == PutList(old(lists), blkno + hmask + 1, ps)
    {
      WritePage(pagf, lists, blkno + hmask + 1, x, ps);
      pagf := PutPage(pagf, blkno + hmask + 1, x);
      lists := PutList(lists, blkno + hmask + 1, ps);
    }

    /** Splits the cached leaf page, which stands for `ps`, and sets its directory bit. */
    method Split(ghost ps: seq<Pair>, ghost ls: seq<seq<Pair>>, ghost bs: set<nat>)
      requires PagesAre(pagf, lists) && DirIs(dirf, bits, maxbno) && DirCached()
      requires pagbuf.Length == PBLKSIZ && Holds(pagbuf[..], ps)
      requires ls == PutHalves(lists, blkno, hmask + 1, hash, ps) && bs == bits + {bitno}
      requires Denotes(ls, bs, hash, m) && PrefixClosed(bs)
      modifies `pagbno, `pagf, `lists, `dirbno, `maxbno, `dirf, `bits, dirbuf, pagbuf
      ensures Files() && DirCached() && PageCached()
      ensures lists == ls && bits == bs
    {
      SplitPages(ps, ls);
      SetBit();
    }

    /** One round of the loop of dbm_store up to additem; `ps` is then the page without `key`. */
    method Attempt(key: seq<byte>, val: seq<byte>, replace: bool) returns (o: Outcome, ghost ps: seq<Pair>)
      requires Files() && DirCached() && PageCached()
      modifies `hmask, `blkno, `bitno, `dirbno, `pagbno, dirbuf, pagbuf
      ensures DirCached() && pagbuf.Length == PBLKSIZ && blkno == Home(bits, hash(key))
      ensures hmask + 1 == P(Leaf(bits, hash(key), 0)) && bitno == Node(hash(key), Leaf(bits, hash(key), 0))
      ensures o == Exists <==> key in m && !replace
      ensures o == Exists ==> PageCached()
      ensures o != Exists ==> Reduced(lists, bits, hash, m, key, ps)
      ensures o != Exists ==> ps == WithoutKey(ListAt(lists, blkno), key)
      ensures o != NoSpace
      ensures o != Exists ==> (o == Added <==> Fits(ps + [Pair(key, val)]))
      ensures o != Exists ==> Holds(pagbuf[..], if o == Added then ps + [Pair(key, val)] else ps)
    {
      hide Denotes, PagesAre, DirIs, PrefixClosed, Fits, Holds, Reduced, WithoutKey, Leaf;
      var i := Locate(key);
      ps := ListAt(lists, blkno);
      if i >= 0 {
        if !replace {
          return Exists, ps;
        }
        ReducedByDelete(lists, bits, hash, m, key, i / 2);
        WithoutPresent(lists, bits, hash, m, key, blkno, i / 2);
        var deleted := DelItem(pagbuf, i, ps);
        assert deleted;
        ps := Without(ps, i / 2);
      } else {
        ReducedAlready(lists, bits, hash, m, key);
        WithoutAbsent(lists, bits, hash, m, key);
      }
      var added := AddItem(pagbuf, key, val, ps);
      o := if added then Added else Full;
    }

    /**
     Stores a pair.  The precondition is what makes the loop end: unless the call returns early,
     the pair must fit on one page with the stored pairs of equal hash.
     */
    method Store(key: seq<byte>, val: seq<byte>, replace: bool) returns (r: int)
      requires Valid()
      requires !ioerr && !rdonly && (key !in m || replace) && Fits([Pair(key, val)])
               ==> RoomFor(m, hash, Pair(key, val))
      modifies this, dirbuf, pagbuf
      ensures Valid() && unchanged(`blkptr) && unchanged(`keyptr)
      ensures r != 0 ==> unchanged(`lists) && unchanged(`bits)
      ensures r == 0 ==> Placed(old(lists), old(bits), hash, Pair(key, val), lists, bits)
      ensures forall i, j :: 0 <= i < j < |ToVisit()| ==> ToVisit()[i] != ToVisit()[j]
      ensures r == 0 && bits == old(bits) ==>
        ScanGoesOn(old(lists), bits, hash, old(m), Pair(key, val), blkptr, keyptr / 2, ToVisit())
      ensures old(ioerr) || rdonly ==> r == -1 && m == old(m) && ioerr == old(ioerr)
      ensures !old(ioerr) && !rdonly ==>
        if key in old(m) && !replace then r == 1 && m == old(m) && !ioerr
        else if !Fits([Pair(key, val)]) then r == -1 && m == old(m) && ioerr
        else r == 0 && m == old(m)[key := val] && !ioerr
    {
      hide Denotes, PagesAre, DirIs, PrefixClosed, RoomFor, PageRoom, Fits, Placed, ScanGoesOn, Remaining;
      RemainingOnce(lists, bits, hash, m, blkptr, keyptr / 2);
      if ioerr || rdonly {
        return -1;
      }
      RoomDecides(lists, bits, hash, m, Pair(key, val));
      r := StoreLoop(key, val, replace);
      ioerr := r == -1;
      if r == 0 {
        PlacedScan(old(lists), old(bits), hash, old(m), Pair(key, val), blkptr, keyptr / 2, lists, bits);
      }
    }

    /** The loop of dbm_store; the result -1 stands for the ENOSPC exit. */
    method StoreLoop(key: seq<byte>, val: seq<byte>, replace: bool) returns (r: int)
      requires Files() && DirCached() && PageCached()
      requires (key !in m || replace) && Fits([Pair(key, val)]) ==> PageRoom(lists, bits, hash, Pair(key, val))
      modifies `hmask, `blkno, `bitno, `pagbno, `pagf, `lists, `dirbno, `maxbno, `dirf, `bits, `m, dirbuf, pagbuf
      ensures Files() && DirCached() && (r != -1 ==> PageCached())
      ensures r != 0 ==> unchanged(`lists) && unchanged(`bits)
      ensures r == 0 ==> Placed(old(lists), old(bits), hash, Pair(key, val), lists, bits)
      ensures if key in old(m) && !replace then r == 1 && m == old(m)
              else if !Fits([Pair(key, val)]) then r == -1 && m == old(m)
              else r == 0 && m == old(m)[key := val]
    {
      hide Denotes, PagesAre, DirIs, PrefixClosed, PageRoom, HomeBounded, AtRound, Fits, Placed;
      hide LastRound, RoundEnd, WithoutKey, ListAt;
      ghost var p, m0, n: nat := Pair(key, val), m, 0;
      StartsAt(lists, bits, hash, p);
      ghost var bound := HomeBound(lists, bits, hash, hash(key));
      UpdateAfterRemoval(m0, key, val);
      while true
        invariant Files() && DirCached() && PageCached()
        invariant AtRound(old(lists), old(bits), hash, p, n, lists, bits)
        invariant if n == 0 then m == m0 && lists == old(lists) && bits == old(bits)
                  else m == m0 - {key} && Fits([p]) && (key !in m0 || replace)
        invariant (key !in m0 || replace) && Fits([p]) ==> PageRoom(lists, bits, hash, p)
        invariant HomeBounded(lists, bits, hash, hash(key), bound)
        decreases bound - Leaf(bits, hash(key), 0)
      {
        ghost var l1, b1, m1 := lists, bits, m;
        var o := Round(key, val, replace, bound);
        match o {
          case Exists => return 1;
          case Added =>
            RoundAdded(old(lists), old(bits), hash, p, n, l1, b1, m1);
            return 0;
          case NoSpace => return -1;
          case Full =>
            RoundFull(old(lists), old(bits), hash, p, n, l1, b1, m1);
            n := n + 1;
        }
      }
    }

    /** One round of the loop: after `Full` the leaf has been split and the round starts again. */
    method Round(key: seq<byte>, val: seq<byte>, replace: bool, ghost bound: nat) returns (o: Outcome)
      requires Files() && DirCached() && PageCached() && HomeBounded(lists, bits, hash, hash(key), bound)
      requires (key !in m || replace) && Fits([Pair(key, val)]) ==> PageRoom(lists, bits, hash, Pair(key, val))
      modifies `hmask, `blkno, `bitno, `pagbno, `pagf, `lists, `dirbno, `maxbno, `dirf, `bits, `m, dirbuf, pagbuf
      ensures Files() && DirCached() && (o != NoSpace ==> PageCached())
      ensures o == Exists <==> key in old(m) && !replace
      ensures o == NoSpace <==> o != Exists && !Fits([Pair(key, val)])
      ensures m == match o case Exists => old(m) case NoSpace => old(m)
                           case Added => old(m)[key := val] case Full => old(m) - {key}
      ensures o == Exists || o == NoSpace ==> unchanged(`lists) && unchanged(`bits)
      ensures o == Added || o == Full ==>
        (o == Added <==> Fits(WithoutKey(old(ListAt(lists, Home(bits, hash(key)))), key) + [Pair(key, val)]))
      ensures o == Added ==> (lists, bits) == LastRound(old(lists), old(bits), hash, Pair(key, val))
      ensures o == Full ==> (lists, bits) == RoundEnd(old(lists), old(bits), hash, Pair(key, val))
      ensures o == Full ==>
        PageRoom(lists, bits, hash, Pair(key, val)) && HomeBounded(lists, bits, hash, hash(key), bound)
      ensures o == Full ==> old(Leaf(bits, hash(key), 0)) < bound
      ensures o == Full ==> Leaf(bits, hash(key), 0) == old(Leaf(bits, hash(key), 0)) + 1
    {
      hide Denotes, PagesAre, DirIs, PrefixClosed, PageRoom, HomeBounded, Fits, Holds, Reduced, WithoutKey;
      ghost var ps;
      o, ps := Attempt(key, val, replace);
      if o == Added {
        FitsAlone(ps, Pair(key, val));
        Finish(key, val, ps);
      } else if o == Full {
        o := Overflow(key, val, ps, bound);
      }
    }

    /** The label split of dbm_store: give up, or split the page. */
    method Overflow(key: seq<byte>, val: seq<byte>, ghost ps: seq<Pair>, ghost bound: nat) returns (o: Outcome)
      requires Files() && DirCached() && blkno == Home(bits, hash(key)) && pagbuf.Length == PBLKSIZ
      requires hmask + 1 == P(Leaf(bits, hash(key), 0)) && bitno == Node(hash(key), Leaf(bits, hash(key), 0))
      requires Reduced(lists, bits, hash, m, key, ps) && Holds(pagbuf[..], ps) && !Fits(ps + [Pair(key, val)])
      requires HomeBounded(lists, bits, hash, hash(key), bound)
      requires Fits([Pair(key, val)]) ==> PageRoom(lists, bits, hash, Pair(key, val))
      modifies `pagbno, `pagf, `lists, `dirbno, `maxbno, `dirf, `bits, `m, dirbuf, pagbuf
      ensures o == if Fits([Pair(key, val)]) then Full else NoSpace
      ensures Files() && DirCached() && (o == Full ==> PageCached())
      ensures m == if o == Full then old(m) - {key} else old(m)
      ensures o == NoSpace ==> unchanged(`lists) && unchanged(`bits)
      ensures o == Full ==> lists == SplitLists(PutList(old(lists), blkno, ps), old(bits), hash, hash(key))
      ensures o == Full ==> bits == SplitBits(old(bits), hash(key))
      ensures o == Full ==>
        PageRoom(lists, bits, hash, Pair(key, val)) && HomeBounded(lists, bits, hash, hash(key), bound)
      ensures o == Full ==> old(Leaf(bits, hash(key), 0)) < bound
      ensures o == Full ==> Leaf(bits, hash(key), 0) == old(Leaf(bits, hash(key), 0)) + 1
    {
      EnospcExact(Pair(key, val));
      if |key| + |val| + 3 * 2 >= PBLKSIZ {
        return NoSpace;
      }
      Advance(Pair(key, val), ps, bound, m - {key});
      return Full;
    }

    /** The write after a successful additem. */
    method Finish(key: seq<byte>, val: seq<byte>, ghost ps: seq<Pair>)
      requires Files() && blkno == Home(bits, hash(key)) && pagbuf.Length == PBLKSIZ
      requires Reduced(lists, bits, hash, m, key, ps) && Holds(pagbuf[..], ps + [Pair(key, val)])
      modifies `pagbno, `pagf, `lists, `m
      ensures Files() && PageCached() && m == old(m)[key := val]
      ensures lists == PutList(old(lists), blkno, ps + [Pair(key, val)])
    {
      StoreDenotes(lists, bits, hash, m, key, val, ps);
      WriteBack(ps + [Pair(key, val)]);
      m := m[key := val];
    }

    /** The split that follows a failed additem of `p`. */
    method Advance(ghost p: Pair, ghost ps: seq<Pair>, ghost bound: nat, ghost m': Contents)
      requires Files() && DirCached() && blkno == Home(bits, hash(p.key)) && pagbuf.Length == PBLKSIZ
      requires hmask + 1 == P(Leaf(bits, hash(p.key), 0)) && bitno == Node(hash(p.key), Leaf(bits, hash(p.key), 0))
      requires Reduced(lists, bits, hash, m, p.key, ps) && Holds(pagbuf[..], ps)
      requires !Fits(ps + [p]) && PageRoom(lists, bits, hash, p) && HomeBounded(lists, bits, hash, hash(p.key), bound)
      requires m' == m - {p.key}
      modifies `pagbno, `pagf, `lists, `dirbno, `maxbno, `dirf, `bits, `m, dirbuf, pagbuf
      ensures Files() && DirCached() && PageCached() && m == m'
      ensures lists == SplitLists(PutList(old(lists), blkno, ps), old(bits), hash, hash(p.key))
      ensures bits == SplitBits(old(bits), hash(p.key))
      ensures PageRoom(lists, bits, hash, p) && HomeBounded(lists, bits, hash, hash(p.key), bound)
      ensures old(Leaf(bits, hash(p.key), 0)) < bound
      ensures Leaf(bits, hash(p.key), 0) == old(Leaf(bits, hash(p.key), 0)) + 1
    {
      hide Denotes, PagesAre, DirIs, PrefixClosed, PageRoom, HomeBounded, Holds, Reduced, PutHalves, Fits;
      ghost var ls, bs := PutHalves(lists, blkno, hmask + 1, hash, ps), bits + {bitno};
      AdvanceSound(lists, bits, hash, m, p, ps, bound, blkno, hmask + 1, bitno);
      SplitListsOf(lists, bits, hash, hash(p.key), ps);
      m := m';
      Split(ps, ls, bs);
    }

    // ----- dbm_firstkey, dbm_nextkey -----

    /** The keys that further calls of dbm_nextkey will return, in order. */
    ghost function ToVisit(): seq<seq<byte>>
      reads `lists, `blkptr, `keyptr
    {
      Remaining(lists, blkptr, keyptr / 2)
    }

    method FirstKey() returns (item: Datum)
      requires Valid()
      modifies `blkptr, `keyptr, `pagbno, pagbuf
      ensures Valid()
      ensures var ks := Remaining(lists, 0, 0);
              if ioerr then item == Null && ToVisit() == ks else Comes(item, ks, ToVisit())
    {
      blkptr, keyptr := 0, 0;
      item := NextKey();
    }

    method NextKey() returns (item: Datum)
      requires Valid()
      modifies `blkptr, `keyptr, `pagbno, pagbuf
      ensures Valid()
      ensures var ks := old(ToVisit());
              if ioerr then item == Null && ToVisit() == ks else Comes(item, ks, ToVisit())
    {
      hide Denotes, PagesAre, DirIs, PrefixClosed, Remaining;
      if ioerr {
        return Null;
      }
      while true
        invariant PageCached() && keyptr % 2 == 0 && ToVisit() == old(ToVisit())
        decreases |pagf| + 1 - blkptr
      {
        item := PageKey();
        if item != Null {
          return;
        }
        blkptr := blkptr + 1;
        if blkptr >= |pagf| {
          NothingBehind(pagf, lists, blkptr, keyptr / 2);
          return;
        }
      }
    }

    /** Fetches of a stored key and of any other, which may replace the cached page, then dbm_nextkey. */
    method FetchAndNext(key: seq<byte>, other: seq<byte>) returns (val: seq<byte>, item: Datum)
      requires Valid() && !ioerr && key in m
      modifies `hmask, `blkno, `bitno, `dirbno, `pagbno, `blkptr, `keyptr, dirbuf, pagbuf
      ensures Valid() && val == m[key] && Comes(item, old(ToVisit()), ToVisit())
    {
      item := Fetch(key);
      val := item.bytes;
      item := Fetch(other);
      item := NextKey();
    }

    /** The next key on page `blkptr`, or null and the scan at the end of that page. */
    method PageKey() returns (item: Datum)
      requires PagesAre(pagf, lists) && PageCached() && keyptr % 2 == 0
      modifies `keyptr, `pagbno, pagbuf
      ensures PageCached() && keyptr % 2 == 0
      ensures item != Null ==>
        var ks := old(ToVisit()); ks != [] && item == Datum(ks[0]) && ToVisit() == ks[1..]
      ensures item == Null ==> old(ToVisit()) == Remaining(lists, blkptr + 1, keyptr / 2)
    {
      ghost var i := keyptr / 2;
      RemainingStep(lists, blkptr, i);
      NthPair(ListAt(lists, blkptr), i);
      LoadPage(blkptr);
      item := Null;
      if Short(pagbuf[..], 0) != 0 {
        item := MakDatum(pagbuf, keyptr, ListAt(lists, blkptr));
        if item != Null {
          keyptr := keyptr + 2;
        } else {
          keyptr := 0;
        }
      }
    }
  }

  lemma CameFirst(item: Datum, all: seq<seq<byte>>, i: nat, next: seq<seq<byte>>)
    requires item != Null && i <= |all| && Comes(item, all[i..], next)
    ensures i < |all| && item == Datum(all[i]) && next == all[i + 1..]
  {
  }

  lemma CameLast(all: seq<seq<byte>>, i: nat, next: seq<seq<byte>>)
    requires i <= |all| && Comes(Null, all[i..], next)
    ensures i == |all| && all[..i] == all
  {
  }

  /** `vals` are the values of `keys` in `m`. */
  ghost predicate Looked(m: Contents, keys: seq<seq<byte>>, vals: seq<seq<byte>>) {
    |vals| == |keys| && forall i :: 0 <= i < |keys| ==> keys[i] in m && vals[i] == m[keys[i]]
  }

  lemma NoneCame(m: Contents, all: seq<seq<byte>>)
    ensures all[0..] == all && all[..0] == [] && Looked(m, [], [])
  {
  }

  lemma LookedOne(m: Contents, all: seq<seq<byte>>, n: nat, keys: seq<seq<byte>>, vals: seq<seq<byte>>, val: seq<byte>)
    requires n < |all| && keys == all[..n] && Looked(m, keys, vals) && all[n] in m && val == m[all[n]]
    ensures keys + [all[n]] == all[..n + 1] && Looked(m, keys + [all[n]], vals + [val])
  {
  }

  /**
   The loop of a caller: dbm_firstkey, then dbm_nextkey until null, with fetches between the calls.
   It comes to every stored key exactly once.
   */
  method ScanAll(d: Dbm, others: seq<seq<byte>>) returns (keys: seq<seq<byte>>, vals: seq<seq<byte>>)
    requires d.Valid() && !d.ioerr
    modifies d, d.dirbuf, d.pagbuf
    ensures d.Valid() && d.m == old(d.m) && EachOnce(keys, d.m) && Looked(d.m, keys, vals)
  {
    hide Denotes, PagesAre, DirIs, PrefixClosed;
    ghost var all, m := Remaining(d.lists, 0, 0), d.m;
    ScanVisitsAll(d.lists, d.bits, d.hash, d.m);
    hide Dbm.Valid, Dbm.Files, Dbm.DirCached, Dbm.PageCached, Remaining, EachOnce, Comes, Looked;
    keys, vals := [], [];
    var item := d.FirstKey();
    NoneCame(m, all);
    while item != Null
      invariant d.Valid() && !d.ioerr && d.m == m
      invariant |keys| <= |all| && keys == all[..|keys|]
      invariant Comes(item, all[|keys|..], d.ToVisit()) && Looked(m, keys, vals)
      decreases |all| - |keys|
    {
      var n, key := |keys|, item.bytes;
      CameFirst(item, all, n, d.ToVisit());
      EachStored(all, m, n);
      var val;
      val, item := d.FetchAndNext(key, if others == [] then key else others[n % |others|]);
      LookedOne(m, all, n, keys, vals, val);
      keys, vals := keys + [key], vals + [val];
    }
    CameLast(all, |keys|, d.ToVisit());
  }
}

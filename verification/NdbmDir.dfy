/** The directory file of ndbm as bytes: how getbit and setbit (bsdlibc/gen/ndbm.c) address its bits. */
module NdbmDir {
  import opened NdbmPage
  import opened NdbmTrie

  const DBLKSIZ: int := 512
  const BYTESIZ: int := 8

  type Block = seq<byte>

  /** `x & 1 << n`. */
  predicate TestBit(x: nat, n: nat) {
    if n == 0 then x % 2 == 1 else TestBit(x / 2, n - 1)
  }

  /** Bit `n` is worth the `n`-th power of two. */
  lemma {:induction false} BitValue(x: nat, n: nat)
    ensures TestBit(x, n) <==> x / P(n) % 2 == 1
  {
    if n > 0 {
      BitValue(x / 2, n - 1);
      HalfThenRest(x, P(n - 1));
    }
  }

  lemma HalfThenRest(x: nat, m: nat)
    requires m >= 1
    ensures x / 2 / m == x / (2 * m)
  {
    var q := x / 2 / m;
    DivMod(x / 2, m);
    var r := x / 2 % m;
    assert x == 2 * (x / 2) + x % 2;
    assert (2 * m) * q == 2 * (m * q);
    ModUnique(x, 2 * m, q, 2 * r + x % 2);
  }

  /** `x | 1 << n`. */
  function OrBit(x: nat, n: nat): (r: nat)
    ensures x <= r
  {
    if n == 0 then x / 2 * 2 + 1 else 2 * OrBit(x / 2, n - 1) + x % 2
  }

  lemma {:induction false} OrBitSets(x: nat, n: nat, k: nat)
    ensures TestBit(OrBit(x, n), k) <==> k == n || TestBit(x, k)
  {
    if n == 0 {
      assert (x / 2 * 2 + 1) / 2 == x / 2;
    } else {
      assert (2 * OrBit(x / 2, n - 1) + x % 2) / 2 == OrBit(x / 2, n - 1);
      if k > 0 {
        OrBitSets(x / 2, n - 1, k - 1);
      }
    }
  }

  /** Setting one of its low bits keeps a number within its width. */
  lemma {:induction false} OrBitWidth(x: nat, n: nat, w: nat)
    requires n < w && x < P(w)
    ensures OrBit(x, n) < P(w)
  {
    assert P(w) == 2 * P(w - 1);
    if n > 0 {
      OrBitWidth(x / 2, n - 1, w - 1);
      assert OrBit(x, n) == 2 * OrBit(x / 2, n - 1) + x % 2;
    }
  }

  function OrByte(x: byte, n: nat): byte
    requires n < BYTESIZ
  {
    assert P(4) == 16 && P(8) == 256;
    OrBitWidth(x, n, 8);
    OrBit(x, n)
  }

  /** Block `b` of the directory file; beyond its end a read fails and the buffer is cleared. */
  function DirAt(f: seq<Block>, b: nat): Block {
    if b < |f| then f[b] else seq(DBLKSIZ, _ => 0)
  }

  function PutDir(f: seq<Block>, b: nat, x: Block): (r: seq<Block>)
    ensures forall j: nat :: DirAt(r, j) == if j == b then x else DirAt(f, j)
  {
    if b < |f| then f[b := x] else f + seq(b - |f|, _ => seq(DBLKSIZ, _ => 0)) + [x]
  }

  /** Bit `n` of a directory block. */
  predicate BlockBit(x: Block, n: nat)
    requires |x| == DBLKSIZ && n < DBLKSIZ * BYTESIZ
  {
    TestBit(x[n / BYTESIZ], n % BYTESIZ)
  }

  /** The bits set in the directory file are exactly `bits`, none of them beyond `maxbno`. */
  ghost predicate DirIs(f: seq<Block>, bits: set<nat>, maxbno: int) {
    && (forall b: nat :: |DirAt(f, b)| == DBLKSIZ)
    && (forall b: nat, n: nat {:trigger BlockBit(DirAt(f, b), n)} :: n < DBLKSIZ * BYTESIZ ==>
          (BlockBit(DirAt(f, b), n) <==> b * (DBLKSIZ * BYTESIZ) + n in bits))
    && (forall n :: n in bits ==> n <= maxbno)
  }

  lemma {:induction false} ZeroHasNone(n: nat)
    ensures !TestBit(0, n)
  {
    if n > 0 {
      ZeroHasNone(n - 1);
    }
  }

  /** A new directory file has no bit set. */
  lemma EmptyDirectory()
    ensures DirIs([], {}, -1)
  {
    forall b: nat, n: nat | n < DBLKSIZ * BYTESIZ
      ensures !BlockBit(DirAt([], b), n)
    {
      ZeroHasNone(n % BYTESIZ);
    }
  }

  /** How a bit number splits into byte and bit within a block. */
  lemma BitAddress(bitno: nat)
    ensures bitno / BYTESIZ / DBLKSIZ * (DBLKSIZ * BYTESIZ) + bitno / BYTESIZ % DBLKSIZ * BYTESIZ + bitno % BYTESIZ
            == bitno
    ensures var n := bitno / BYTESIZ % DBLKSIZ * BYTESIZ + bitno % BYTESIZ;
            n < DBLKSIZ * BYTESIZ && n / BYTESIZ == bitno / BYTESIZ % DBLKSIZ && n % BYTESIZ == bitno % BYTESIZ
  {
  }

  lemma ReadBit(f: seq<Block>, bits: set<nat>, maxbno: int, bitno: nat)
    requires DirIs(f, bits, maxbno)
    ensures var x := DirAt(f, bitno / BYTESIZ / DBLKSIZ);
            TestBit(x[bitno / BYTESIZ % DBLKSIZ], bitno % BYTESIZ) <==> bitno in bits
  {
    BitAddress(bitno);
    var n := bitno / BYTESIZ % DBLKSIZ * BYTESIZ + bitno % BYTESIZ;
    assert BlockBit(DirAt(f, bitno / BYTESIZ / DBLKSIZ), n)
      <==> bitno / BYTESIZ / DBLKSIZ * (DBLKSIZ * BYTESIZ) + n in bits;
  }

  lemma BlockOrBit(x: Block, i: nat, n: nat, k: nat)
    requires |x| == DBLKSIZ && i < DBLKSIZ && n < BYTESIZ && k < DBLKSIZ * BYTESIZ
    ensures BlockBit(x[i := OrByte(x[i], n)], k) <==> k == i * BYTESIZ + n || BlockBit(x, k)
  {
    if k / BYTESIZ == i {
      OrBitSets(x[i], n, k % BYTESIZ);
    }
  }

  lemma UniqueBit(b: nat, n: nat, c: nat, k: nat)
    requires n < DBLKSIZ * BYTESIZ && k < DBLKSIZ * BYTESIZ
    requires b * (DBLKSIZ * BYTESIZ) + n == c * (DBLKSIZ * BYTESIZ) + k
    ensures b == c && n == k
  {
  }

  lemma WriteBlock(f: seq<Block>, bits: set<nat>, maxbno: int, b: nat, x: Block, n: nat)
    requires DirIs(f, bits, maxbno) && |x| == DBLKSIZ && n < DBLKSIZ * BYTESIZ
    requires forall k: nat :: k < DBLKSIZ * BYTESIZ ==> (BlockBit(x, k) <==> k == n || BlockBit(DirAt(f, b), k))
    ensures var bitno := b * (DBLKSIZ * BYTESIZ) + n;
            DirIs(PutDir(f, b, x), bits + {bitno}, if bitno > maxbno then bitno else maxbno)
  {
    var f', bitno := PutDir(f, b, x), b * (DBLKSIZ * BYTESIZ) + n;
    forall c: nat, k: nat | k < DBLKSIZ * BYTESIZ
      ensures BlockBit(DirAt(f', c), k) <==> c * (DBLKSIZ * BYTESIZ) + k in bits + {bitno}
    {
      assert BlockBit(DirAt(f, c), k) <==> c * (DBLKSIZ * BYTESIZ) + k in bits;
      if c * (DBLKSIZ * BYTESIZ) + k == bitno {
        UniqueBit(c, k, b, n);
      }
    }
  }

  /** setbit sets its bit and no other. */
  lemma WriteBit(f: seq<Block>, bits: set<nat>, maxbno: int, bitno: nat)
    requires DirIs(f, bits, maxbno)
    ensures var b, i := bitno / BYTESIZ / DBLKSIZ, bitno / BYTESIZ % DBLKSIZ;
            var x := DirAt(f, b);
            DirIs(PutDir(f, b, x[i := OrByte(x[i], bitno % BYTESIZ)]), bits + {bitno},
                  if bitno > maxbno then bitno else maxbno)
  {
    var b, i, j := bitno / BYTESIZ / DBLKSIZ, bitno / BYTESIZ % DBLKSIZ, bitno % BYTESIZ;
    var x := DirAt(f, b);
    var x' := x[i := OrByte(x[i], j)];
    var n := i * BYTESIZ + j;
    BitAddress(bitno);
    forall k: nat | k < DBLKSIZ * BYTESIZ
      ensures BlockBit(x', k) <==> k == n || BlockBit(DirAt(f, b), k)
    {
      BlockOrBit(x, i, j, k);
    }
    WriteBlock(f, bits, maxbno, b, x', n);
  }
}

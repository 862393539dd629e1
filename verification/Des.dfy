/** The cipher of FIPS PUB 46-3 on sequences of bits, and why the keys in reverse order undo it. */
module Des {
  import opened DesTables

  type Bit = x: int | 0 <= x < 2 witness 0

  function Xor(a: Bit, b: Bit): Bit {
    if a == b then 0 else 1
  }

  function XorAll(a: seq<Bit>, b: seq<Bit>): (r: seq<Bit>)
    requires |a| == |b|
    ensures |r| == |a|
  {
    seq(|a|, j requires 0 <= j < |a| => Xor(a[j], b[j]))
  }

  /** The bits of `s` at the places of a table, counted from `base`. */
  function Permute(s: seq<Bit>, table: seq<seq<int>>, rows: nat, w: nat, base: int): (r: seq<Bit>)
    requires w > 0 && Places(table, rows, w, base, base + |s| - 1)
    ensures |r| == rows * w
  {
    seq(rows * w, j requires 0 <= j < rows * w =>
                    CellPlace(table, rows, w, base, base + |s| - 1, j); s[Cell(table, w, j) - base])
  }

  /** The entry that a selection function gives for six bits: two choose the row, four the column. */
  function Selected(box: seq<seq<int>>, b0: int, b1: int, b2: int, b3: int, b4: int, b5: int): int
    requires Shaped(box, 4, 16)
    requires 0 <= b0 < 2 && 0 <= b1 < 2 && 0 <= b2 < 2 && 0 <= b3 < 2 && 0 <= b4 < 2 && 0 <= b5 < 2
  {
    box[2 * b0 + b5][8 * b1 + 4 * b2 + 2 * b3 + b4]
  }

  /** The peculiar index into a flat selection table is that row and column. */
  lemma PeculiarIndex(b0: int, b1: int, b2: int, b3: int, b4: int, b5: int)
    requires 0 <= b0 < 2 && 0 <= b1 < 2 && 0 <= b2 < 2 && 0 <= b3 < 2 && 0 <= b4 < 2 && 0 <= b5 < 2
    ensures var index := 32 * b0 + 8 * b1 + 4 * b2 + 2 * b3 + b4 + 16 * b5;
            index / 16 == 2 * b0 + b5 && index % 16 == 8 * b1 + 4 * b2 + 2 * b3 + b4
  {
  }

  /** Bit `p` of a four-bit number, the highest first. */
  function BitOf(v: int, p: nat): Bit
    requires p < 4
  {
    (if p == 0 then v / 8 else if p == 1 then v / 4 else if p == 2 then v / 2 else v) % 2
  }

  /** Bit `i` of what the eight selection functions make of 48 bits. */
  function BoxBit(pre: seq<Bit>, i: nat): Bit
    requires |pre| == 48 && i < 32
  {
    BoxShape();
    var t := 6 * (i / 4);
    BitOf(Selected(S[i / 4], pre[t], pre[t + 1], pre[t + 2], pre[t + 3], pre[t + 4], pre[t + 5]), i % 4)
  }

  function Boxes(pre: seq<Bit>): (r: seq<Bit>)
    requires |pre| == 48
    ensures |r| == 32
  {
    seq(32, i requires 0 <= i < 32 => BoxBit(pre, i))
  }

  /** The cipher function of a half block and a round key. */
  function F(r: seq<Bit>, k: seq<Bit>): (x: seq<Bit>)
    requires |r| == 32 && |k| == 48
    ensures |x| == 32
  {
    PlacesE();
    PlacesP();
    Permute(Boxes(XorAll(Permute(r, E, 8, 6, 1), k)), P, 8, 4, 1)
  }

  /** One round: the right half moves left, and the left half, changed, moves right. */
  function Round(h: seq<Bit>, k: seq<Bit>): (r: seq<Bit>)
    requires |h| == 64 && |k| == 48
    ensures |r| == 64
  {
    h[32..] + XorAll(h[..32], F(h[32..], k))
  }

  ghost predicate Keys(ks: seq<seq<Bit>>) {
    forall i :: 0 <= i < |ks| ==> |ks[i]| == 48
  }

  ghost function Rounds(h: seq<Bit>, ks: seq<seq<Bit>>): (r: seq<Bit>)
    requires |h| == 64 && Keys(ks)
    ensures |r| == 64
  {
    if ks == [] then h else Round(Rounds(h, ks[..|ks| - 1]), ks[|ks| - 1])
  }

  lemma RoundsNone(h: seq<Bit>, ks: seq<seq<Bit>>)
    requires |h| == 64
    ensures Rounds(h, ks[..0]) == h
  {
  }

  lemma RoundsMore(h: seq<Bit>, ks: seq<seq<Bit>>, i: nat)
    requires |h| == 64 && Keys(ks) && i < |ks|
    ensures Keys(ks[..i]) && Keys(ks[..i + 1]) && Rounds(h, ks[..i + 1]) == Round(Rounds(h, ks[..i]), ks[i])
  {
    hide Round;
    assert ks[..i + 1][..i] == ks[..i];
  }

  function Swap(h: seq<Bit>): (r: seq<Bit>)
    requires |h| == 64
    ensures |r| == 64
  {
    h[32..] + h[..32]
  }

  function Initial(b: seq<Bit>): (r: seq<Bit>)
    requires |b| == 64
    ensures |r| == 64
  {
    PlacesIP();
    Permute(b, IP, 8, 8, 1)
  }

  function Final(b: seq<Bit>): (r: seq<Bit>)
    requires |b| == 64
    ensures |r| == 64
  {
    PlacesFP();
    Permute(b, FP, 8, 8, 1)
  }

  ghost function Crypt(b: seq<Bit>, ks: seq<seq<Bit>>): (r: seq<Bit>)
    requires |b| == 64 && Keys(ks)
    ensures |r| == 64
  {
    Final(Swap(Rounds(Initial(b), ks)))
  }

  function Backwards(ks: seq<seq<Bit>>): (r: seq<seq<Bit>>)
    ensures |r| == |ks| && forall i :: 0 <= i < |ks| ==> r[i] == ks[|ks| - 1 - i]
  {
    seq(|ks|, i requires 0 <= i < |ks| => ks[|ks| - 1 - i])
  }

  lemma FinalInitialInverse(b: seq<Bit>)
    requires |b| == 64
    ensures Initial(Final(b)) == b && Final(Initial(b)) == b
  {
    PlacesIP();
    PlacesFP();
    forall j: nat | j < 64
      ensures Undoes(IP, FP, j / 8, j % 8) && Undoes(FP, IP, j / 8, j % 8)
    {
      Inverse(j / 8, j % 8);
    }
    PermuteBack(b, IP, FP);
    PermuteBack(b, FP, IP);
  }

  lemma PermuteBack(b: seq<Bit>, t: seq<seq<int>>, u: seq<seq<int>>)
    requires |b| == 64 && Places(t, 8, 8, 1, 64) && Places(u, 8, 8, 1, 64)
    requires forall j: nat {:trigger Undoes(t, u, j / 8, j % 8)} :: j < 64 ==> Undoes(t, u, j / 8, j % 8)
    ensures Permute(Permute(b, t, 8, 8, 1), u, 8, 8, 1) == b
  {
    forall j: nat | j < 64
      ensures Permute(Permute(b, t, 8, 8, 1), u, 8, 8, 1)[j] == b[j]
    {
      hide Places, Undoes;
      assert Undoes(t, u, j / 8, j % 8);
      UndoesCell(t, u, j);
    }
  }

  lemma XorTwice(a: seq<Bit>, b: seq<Bit>)
    requires |a| == |b|
    ensures XorAll(XorAll(a, b), b) == a
  {
  }

  /** Zeros change nothing, and equal bits give zeros. */
  lemma XorZeros(a: seq<Bit>, z: seq<Bit>)
    requires |z| == |a| && forall j :: 0 <= j < |z| ==> z[j] == 0
    ensures XorAll(a, z) == a && XorAll(z, a) == a && XorAll(a, a) == z
  {
  }

  /** A round undoes itself between swaps, whatever the cipher function is. */
  lemma RoundUndone(h: seq<Bit>, k: seq<Bit>)
    requires |h| == 64 && |k| == 48
    ensures Round(Swap(Round(h, k)), k) == Swap(h)
  {
    hide F;
    var r := Round(h, k);
    assert r[..32] == h[32..] && r[32..] == XorAll(h[..32], F(h[32..], k));
    var s := Swap(r);
    assert s[..32] == r[32..] && s[32..] == r[..32];
    XorTwice(h[..32], F(h[32..], k));
  }

  /** The rounds with the keys from last to first undo the rounds with the keys from first to last. */
  lemma {:induction false} RoundsUndone(h: seq<Bit>, ks: seq<seq<Bit>>)
    requires |h| == 64 && Keys(ks)
    ensures Keys(Backwards(ks)) && Rounds(Swap(Rounds(h, ks)), Backwards(ks)) == Swap(h)
  {
    hide Round, Swap;
    if ks != [] {
      var n := |ks|;
      var front, k := ks[..n - 1], ks[n - 1];
      var x := Rounds(h, front);
      RoundUndone(x, k);
      RoundsUndone(h, front);
      assert Backwards(ks) == [k] + Backwards(front);
      RoundsFirst(Swap(Round(x, k)), k, Backwards(front));
    }
  }

  lemma {:induction false} RoundsFirst(h: seq<Bit>, k: seq<Bit>, ks: seq<seq<Bit>>)
    requires |h| == 64 && |k| == 48 && Keys(ks)
    ensures Keys([k] + ks) && Rounds(h, [k] + ks) == Rounds(Round(h, k), ks)
  {
    hide Round;
    var all := [k] + ks;
    if ks == [] {
      assert all[..|all| - 1] == [];
      assert Rounds(h, []) == h;
    } else {
      var front := ks[..|ks| - 1];
      RoundsFirst(h, k, front);
      assert all[..|all| - 1] == [k] + front;
    }
  }

  /**
   Deciphering: the same algorithm with the keys in reverse order gives the block back (FIPS PUB 46-3, "Deciphering").
   */
  lemma Deciphering(b: seq<Bit>, ks: seq<seq<Bit>>)
    requires |b| == 64 && Keys(ks)
    ensures Keys(Backwards(ks)) && Crypt(Crypt(b, ks), Backwards(ks)) == b
  {
    hide Initial, Final, Rounds;
    var x := Rounds(Initial(b), ks);
    RoundsUndone(Initial(b), ks);
    FinalInitialInverse(Swap(x));
    FinalInitialInverse(b);
    var h := Initial(b);
    assert Swap(Swap(h)) == h;
  }

  // ----- the key schedule -----

  /** Half a key turned to the left by `n` places. */
  function Turned(c: seq<Bit>, n: nat): (r: seq<Bit>)
    requires |c| == 28
    ensures |r| == 28
  {
    seq(28, j requires 0 <= j < 28 => c[(j + n) % 28])
  }

  /** The places that the halves of the key have been turned by after `i` rounds. */
  function Shift(i: nat): nat
    requires i <= 16
  {
    ShiftCounts();
    if i == 0 then 0 else Shift(i - 1) + SHIFTS[i - 1]
  }

  function LeftKey(key: seq<Bit>): (r: seq<Bit>)
    requires |key| == 64
    ensures |r| == 28
  {
    PlacesPC1C();
    Permute(key, PC1_C, 4, 7, 1)
  }

  function RightKey(key: seq<Bit>): (r: seq<Bit>)
    requires |key| == 64
    ensures |r| == 28
  {
    PlacesPC1D();
    Permute(key, PC1_D, 4, 7, 1)
  }

  function RoundKey(key: seq<Bit>, i: nat): (r: seq<Bit>)
    requires |key| == 64 && i < 16
    ensures |r| == 48
  {
    PlacesPC2C();
    PlacesPC2D();
    Permute(Turned(LeftKey(key), Shift(i + 1)), PC2_C, 4, 6, 1) +
    Permute(Turned(RightKey(key), Shift(i + 1)), PC2_D, 4, 6, 29)
  }

  function Schedule(key: seq<Bit>): (ks: seq<seq<Bit>>)
    requires |key| == 64
    ensures |ks| == 16 && forall i :: 0 <= i < 16 ==> |ks[i]| == 48
  {
    seq(16, i requires 0 <= i < 16 => RoundKey(key, i))
  }

  lemma TurnedMore(c: seq<Bit>, n: nat)
    requires |c| == 28
    ensures Turned(Turned(c, n), 1) == Turned(c, n + 1)
  {
  }

  lemma TurnedZero(c: seq<Bit>)
    requires |c| == 28
    ensures Turned(c, 0) == c && Turned(c, 28) == c
  {
  }

  lemma ShiftStart()
    ensures Shift(0) == 0
  {
  }

  lemma RoundKeyIs(key: seq<Bit>, i: nat)
    requires |key| == 64 && i < 16
    ensures |SHIFTS| == 16 && SHIFTS[i] >= 0 && Shift(i + 1) == Shift(i) + SHIFTS[i]
    ensures Places(PC2_C, 4, 6, 1, 28) && Places(PC2_D, 4, 6, 29, 56)
    ensures RoundKey(key, i) == Permute(Turned(LeftKey(key), Shift(i + 1)), PC2_C, 4, 6, 1) +
                                Permute(Turned(RightKey(key), Shift(i + 1)), PC2_D, 4, 6, 29)
  {
    ShiftCounts();
    PlacesPC2C();
    PlacesPC2D();
  }

  /** The sixteen shifts turn the halves all the way round. */
  lemma FullTurn()
    ensures Shift(16) == 28
  {
    assert Shift(4) == 6;
    assert Shift(8) == 14;
    assert Shift(12) == 21;
  }
}

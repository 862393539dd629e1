/** blkencrypt and nbssetkey of bsdlibc/net/ruserpass.c on their static arrays; R is the second half of L. */
module DesCipher {
  import opened Des
  import opened DesTables

  /** The sixteen round keys in the flat table KS. */
  function KeyRows(table: seq<Bit>): (ks: seq<seq<Bit>>)
    requires |table| == 768
    ensures |ks| == 16 && forall i :: 0 <= i < 16 ==> |ks[i]| == 48
  {
    seq(16, i requires 0 <= i < 16 => table[48 * i..48 * i + 48])
  }

  class Cipher {
    const L: array<Bit>
    const tempL: array<Bit>
    const preS: array<Bit>
    const f: array<Bit>
    const C: array<Bit>
    const D: array<Bit>
    const KS: array<Bit>

    ghost predicate Valid()
      reads this
    {
      && L.Length == 64 && tempL.Length == 32 && preS.Length == 48 && f.Length == 32
      && C.Length == 28 && D.Length == 28 && KS.Length == 768
      && {L, tempL} !! {preS, f} && {C, D} !! {KS} && L != tempL && preS != f && C != D
      && {L, tempL, preS, f} !! {C, D, KS}
    }

    constructor ()
      ensures Valid() && fresh({L, tempL, preS, f, C, D, KS})
    {
      L, tempL, preS, f := new Bit[64](_ => 0), new Bit[32](_ => 0), new Bit[48](_ => 0), new Bit[32](_ => 0);
      C, D, KS := new Bit[28](_ => 0), new Bit[28](_ => 0), new Bit[768](_ => 0);
    }

    /** `dst` becomes the bits of `src` at the places of a table. */
    static method Gather(dst: array<Bit>, src: array<Bit>, table: seq<seq<int>>, rows: nat, w: nat)
      requires dst != src && w > 0 && dst.Length == rows * w <= src.Length
      requires src.Length >= 64 && Places(table, rows, w, 1, 64)
      modifies dst
      ensures dst[..] == Permute(src[..64], table, rows, w, 1)
    {
      hide Places;
      for j := 0 to rows * w
        invariant forall i :: 0 <= i < j ==> dst[i] == Permute(src[..64], table, rows, w, 1)[i]
      {
        CellPlace(table, rows, w, 1, 64, j);
        dst[j] := src[Cell(table, w, j) - 1];
      }
    }

    /** Expands the right half and adds the round key. */
    method Expand(i: nat)
      requires Valid() && i < 16
      modifies preS
      ensures Places(E, 8, 6, 1, 32)
      ensures preS[..] == XorAll(Permute(L[32..], E, 8, 6, 1), KeyRows(KS[..])[i])
    {
      hide Places;
      PlacesE();
      ghost var h, k := Permute(L[32..], E, 8, 6, 1), KeyRows(KS[..])[i];
      for j := 0 to 48
        invariant forall p :: 0 <= p < j ==> preS[p] == XorAll(h, k)[p]
      {
        CellPlace(E, 8, 6, 1, 32, j);
        preS[j] := Xor(L[32 + Cell(E, 6, j) - 1], KS[48 * i + j]);
      }
    }

    /** The selection functions. */
    method Select()
      requires Valid()
      modifies f
      ensures f[..] == Boxes(preS[..])
    {
      hide BoxBit, BitOf;
      for j := 0 to 8
        invariant forall p :: 0 <= p < 4 * j ==> f[p] == BoxBit(preS[..], p)
      {
        SelectOne(j);
      }
    }

    method SelectOne(j: nat)
      requires Valid() && j < 8
      modifies f
      ensures forall p :: 0 <= p < 32 ==>
        f[p] == if 4 * j <= p < 4 * j + 4 then BoxBit(preS[..], p) else old(f[p])
    {
      hide Selected, Shaped, BoxBit;
      var t := 6 * j;
      BoxShape();
      BoxBits(preS[..], j);
      var k := Lookup(S[j], preS[t + 0], preS[t + 1], preS[t + 2], preS[t + 3], preS[t + 4], preS[t + 5]);
      t := 4 * j;
      f[t + 0] := k / 8 % 2;
      f[t + 1] := k / 4 % 2;
      f[t + 2] := k / 2 % 2;
      f[t + 3] := k % 2;
    }

    /** The entry of a table at the peculiar index of six bits. */
    static method Lookup(box: seq<seq<int>>, b0: int, b1: int, b2: int, b3: int, b4: int, b5: int) returns (k: int)
      requires Shaped(box, 4, 16)
      requires 0 <= b0 < 2 && 0 <= b1 < 2 && 0 <= b2 < 2 && 0 <= b3 < 2 && 0 <= b4 < 2 && 0 <= b5 < 2
      ensures k == Selected(box, b0, b1, b2, b3, b4, b5)
    {
      PeculiarIndex(b0, b1, b2, b3, b4, b5);
      k := Cell(box, 16, 32 * b0 + 8 * b1 + 4 * b2 + 2 * b3 + b4 + 16 * b5);
    }

    /** Saves the right half, which will be the new left half. */
    method SaveRight()
      requires Valid()
      modifies tempL
      ensures tempL[..] == L[32..]
    {
      for j := 0 to 32
        invariant forall p :: 0 <= p < j ==> tempL[p] == L[32 + p]
      {
        tempL[j] := L[32 + j];
      }
    }

    /** The new right half is the left half and the permuted result of the selection; the saved half goes left. */
    method Mix()
      requires Valid()
      modifies L
      ensures Places(P, 8, 4, 1, 32)
      ensures L[..] == tempL[..] + XorAll(old(L[..32]), Permute(f[..], P, 8, 4, 1))
    {
      hide Places;
      PlacesP();
      MixBy(P);
    }

    method MixBy(table: seq<seq<int>>)
      requires Valid() && Places(table, 8, 4, 1, 32)
      modifies L
      ensures L[..] == tempL[..] + XorAll(old(L[..32]), Permute(f[..], table, 8, 4, 1))
    {
      hide Places;
      ghost var h, x := L[..32], Permute(f[..], table, 8, 4, 1);
      for j := 0 to 32
        invariant forall p :: 0 <= p < 32 ==> L[p] == h[p]
        invariant forall p :: 0 <= p < j ==> L[32 + p] == XorAll(h, x)[p]
      {
        CellPlace(table, 8, 4, 1, 32, j);
        L[32 + j] := Xor(L[j], f[Cell(table, 4, j) - 1]);
      }
      for j := 0 to 32
        invariant forall p :: 0 <= p < 32 ==> L[32 + p] == XorAll(h, x)[p]
        invariant forall p :: 0 <= p < j ==> L[p] == tempL[p]
      {
        L[j] := tempL[j];
      }
    }

    /** One of the sixteen rounds. */
    method RoundStep(i: nat)
      requires Valid() && i < 16
      modifies L, tempL, preS, f
      ensures L[..] == Round(old(L[..]), KeyRows(KS[..])[i])
    {
      hide Places, Boxes, Permute, XorAll;
      SaveRight();
      Expand(i);
      Select();
      Mix();
      assert old(L[..])[32..] == old(L[32..]) && old(L[..])[..32] == old(L[..32]);
    }

    /** Exchanges the halves. */
    method SwapHalves()
      requires Valid()
      modifies L
      ensures L[..] == Swap(old(L[..]))
    {
      ghost var h := L[..];
      for j := 0 to 32
        invariant forall p {:trigger L[p]} :: 0 <= p < j ==> L[p] == h[p + 32]
        invariant forall p {:trigger L[p]} :: j <= p < 32 ==> L[p] == h[p]
        invariant forall p {:trigger L[p]} :: 32 <= p < 32 + j ==> L[p] == h[p - 32]
        invariant forall p {:trigger L[p]} :: 32 + j <= p < 64 ==> L[p] == h[p]
      {
        var t := L[j];
        L[j] := L[j + 32];
        L[j + 32] := t;
      }
    }

    /** blkencrypt: with `edflag` the keys are used in reverse order. */
    method BlkEncrypt(block: array<Bit>, edflag: bool)
      requires Valid() && block.Length >= 64 && block !in {L, tempL, preS, f, C, D, KS}
      modifies L, tempL, preS, f, block
      ensures Keys(KeyRows(KS[..])) && Keys(Backwards(KeyRows(KS[..])))
      ensures block[..64] == Crypt(old(block[..64]), if edflag then Backwards(KeyRows(KS[..])) else KeyRows(KS[..]))
      ensures block[64..] == old(block[64..])
    {
      hide Places, Permute, Rounds, Swap, XorAll;
      ghost var rows := KeyRows(KS[..]);
      ghost var ks := if edflag then Backwards(rows) else rows;
      PlacesIP();
      Gather(L, block, IP, 8, 8);
      AllRounds(edflag, ks);
      SwapHalves();
      PutFinal(block);
    }

    /** The sixteen rounds, with the keys from first to last or from last to first. */
    method AllRounds(edflag: bool, ghost ks: seq<seq<Bit>>)
      requires Valid() && ks == (if edflag then Backwards(KeyRows(KS[..])) else KeyRows(KS[..])) && Keys(ks)
      modifies L, tempL, preS, f
      ensures L[..] == Rounds(old(L[..]), ks)
    {
      hide Round, Rounds, KeyRows, Backwards;
      ghost var h := L[..];
      RoundsNone(h, ks);
      for ii := 0 to 16
        invariant L[..] == Rounds(h, ks[..ii])
      {
        RoundsMore(h, ks, ii);
        RoundStep(if edflag then 15 - ii else ii);
      }
      assert ks[..16] == ks;
    }

    /** The final permutation into the block. */
    method PutFinal(block: array<Bit>)
      requires Valid() && block.Length >= 64 && block != L
      modifies block
      ensures block[..64] == Final(L[..]) && block[64..] == old(block[64..])
    {
      hide Places;
      PlacesFP();
      for j := 0 to 64
        invariant forall p :: 0 <= p < j ==> block[p] == Permute(L[..], FP, 8, 8, 1)[p]
        invariant block[64..] == old(block[64..])
      {
        CellPlace(FP, 8, 8, 1, 64, j);
        block[j] := L[Cell(FP, 8, j) - 1];
      }
    }

    // ----- the key schedule -----

    /** Rotates one of C and D to the left by one. */
    static method Rotate(a: array<Bit>)
      requires a.Length == 28
      modifies a
      ensures a[..] == Turned(old(a[..]), 1)
    {
      ghost var c := a[..];
      var t := a[0];
      for j := 0 to 27
        invariant forall p :: 0 <= p < j ==> a[p] == c[p + 1]
        invariant forall p :: j <= p < 28 ==> a[p] == c[p]
      {
        a[j] := a[j + 1];
      }
      a[27] := t;
      assert a[..] == c[1..] + [c[0]];
      TurnedOnce(c);
    }

    /** The rotations of a round. */
    method Turn(n: nat, ghost c: seq<Bit>, ghost d: seq<Bit>, ghost done: nat)
      requires Valid() && |c| == 28 && |d| == 28 && C[..] == Turned(c, done) && D[..] == Turned(d, done)
      modifies C, D
      ensures C[..] == Turned(c, done + n) && D[..] == Turned(d, done + n)
    {
      hide Turned;
      for k := 0 to n
        invariant C[..] == Turned(c, done + k) && D[..] == Turned(d, done + k)
      {
        TurnedMore(c, done + k);
        TurnedMore(d, done + k);
        Rotate(C);
        Rotate(D);
      }
    }

    /** The key of round `i`, from C and D. */
    method PickKey(i: nat)
      requires Valid() && i < 16
      modifies KS
      ensures Places(PC2_C, 4, 6, 1, 28) && Places(PC2_D, 4, 6, 29, 56)
      ensures KeyRows(KS[..])[i] == Permute(C[..], PC2_C, 4, 6, 1) + Permute(D[..], PC2_D, 4, 6, 29)
      ensures forall p :: 0 <= p < 16 && p != i ==> KeyRows(KS[..])[p] == KeyRows(old(KS[..]))[p]
    {
      hide Places;
      PlacesPC2C();
      PlacesPC2D();
      ghost var was := KS[..];
      PickRow(48 * i, PC2_C, PC2_D);
      OneRow(was, KS[..], i, Permute(C[..], PC2_C, 4, 6, 1) + Permute(D[..], PC2_D, 4, 6, 29));
    }

    /** The loop of a round key, which goes to the places from `o` on. */
    method PickRow(o: nat, left: seq<seq<int>>, right: seq<seq<int>>)
      requires Valid() && o + 48 <= 768 && Places(left, 4, 6, 1, 28) && Places(right, 4, 6, 29, 56)
      modifies KS
      ensures forall p :: 0 <= p < 48 ==>
        KS[o + p] == (Permute(C[..], left, 4, 6, 1) + Permute(D[..], right, 4, 6, 29))[p]
      ensures forall x :: 0 <= x < 768 && !(o <= x < o + 48) ==> KS[x] == old(KS[x])
    {
      hide Places;
      ghost var c, d, was := Permute(C[..], left, 4, 6, 1), Permute(D[..], right, 4, 6, 29), KS[..];
      for j := 0 to 24
        invariant forall p :: 0 <= p < j ==> KS[o + p] == c[p] && KS[o + 24 + p] == d[p]
        invariant forall x :: 0 <= x < 768 && !(o <= x < o + 48) ==> KS[x] == was[x]
      {
        CellPlace(left, 4, 6, 1, 28, j);
        CellPlace(right, 4, 6, 29, 56, j);
        KS[o + j] := C[Cell(left, 6, j) - 1];
        KS[o + j + 24] := D[Cell(right, 6, j) - 28 - 1];
      }
      ghost var e := c + d;
      assert forall p {:trigger e[p]} :: 24 <= p < 48 ==> e[p] == d[p - 24] && KS[o + 24 + (p - 24)] == d[p - 24];
    }

    /** nbssetkey: each round key is taken from the key bits turned by the shifts so far. */
    method SetKey(key: array<Bit>)
      requires Valid() && key.Length >= 64 && key !in {C, D, KS}
      modifies C, D, KS
      ensures KeyRows(KS[..]) == Schedule(key[..64])
      ensures C[..] == LeftKey(key[..64]) && D[..] == RightKey(key[..64])
    {
      hide Places, Permute, Turned, KeyRows, Shift, RoundKey, Schedule;
      Halve(key);
      MakeKeys(key[..64]);
    }

    /** The key's bits into C and D. */
    method Halve(key: array<Bit>)
      requires Valid() && key.Length >= 64 && key !in {C, D, KS}
      modifies C, D
      ensures C[..] == LeftKey(key[..64]) && D[..] == RightKey(key[..64])
    {
      hide Places, Permute;
      PlacesPC1C();
      PlacesPC1D();
      Gather(C, key, PC1_C, 4, 7);
      Gather(D, key, PC1_D, 4, 7);
    }

    /** The sixteen round keys, after which C and D are as before. */
    method MakeKeys(ghost k: seq<Bit>)
      requires Valid() && |k| == 64 && C[..] == LeftKey(k) && D[..] == RightKey(k)
      modifies C, D, KS
      ensures KeyRows(KS[..]) == Schedule(k) && C[..] == LeftKey(k) && D[..] == RightKey(k)
    {
      hide Places, Permute, Turned, KeyRows, Shift, RoundKey, LeftKey, RightKey;
      ghost var c, d := LeftKey(k), RightKey(k);
      TurnedZero(c);
      TurnedZero(d);
      ShiftCounts();
      ShiftStart();
      for i := 0 to 16
        invariant C[..] == Turned(c, Shift(i)) && D[..] == Turned(d, Shift(i))
        invariant forall p :: 0 <= p < i ==> KeyRows(KS[..])[p] == RoundKey(k, p)
      {
        RoundKeyIs(k, i);
        Turn(SHIFTS[i], c, d, Shift(i));
        PickKey(i);
      }
      FullTurn();
    }
  }

  lemma TurnedOnce(c: seq<Bit>)
    requires |c| == 28
    ensures Turned(c, 1) == c[1..] + [c[0]]
  {
  }

  /** The four bits that a table gives. */
  lemma BoxBits(pre: seq<Bit>, j: nat)
    requires |pre| == 48 && j < 8
    ensures Shaped(S[j], 4, 16)
    ensures var t := 6 * j;
            var k := Selected(S[j], pre[t], pre[t + 1], pre[t + 2], pre[t + 3], pre[t + 4], pre[t + 5]);
            && BoxBit(pre, 4 * j) == k / 8 % 2 && BoxBit(pre, 4 * j + 1) == k / 4 % 2
            && BoxBit(pre, 4 * j + 2) == k / 2 % 2 && BoxBit(pre, 4 * j + 3) == k % 2
  {
    hide Selected, Shaped;
    BoxShape();
  }

  /** Changing the bits of one round key changes that key only. */
  lemma OneRow(was: seq<Bit>, now: seq<Bit>, i: nat, row: seq<Bit>)
    requires |was| == 768 && |now| == 768 && i < 16 && |row| == 48
    requires forall p :: 0 <= p < 48 ==> now[48 * i + p] == row[p]
    requires forall x :: 0 <= x < 768 && !(48 * i <= x < 48 * i + 48) ==> now[x] == was[x]
    ensures KeyRows(now)[i] == row
    ensures forall p :: 0 <= p < 16 && p != i ==> KeyRows(now)[p] == KeyRows(was)[p]
  {
    assert now[48 * i..48 * i + 48] == row;
    forall p | 0 <= p < 16 && p != i
      ensures KeyRows(now)[p] == KeyRows(was)[p]
    {
      assert now[48 * p..48 * p + 48] == was[48 * p..48 * p + 48];
    }
  }
}

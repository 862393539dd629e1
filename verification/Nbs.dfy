/** nbsencrypt and nbsdecrypt of bsdlibc/net/ruserpass.c: each piece of text is the key of the next. */
module Nbs {
  import opened Des
  import opened DesCipher
  import opened NbsText

  const DOLLAR: int := '$' as int

  /** The part of the text that is enciphered at once. */
  function Piece(s: seq<int>): (p: seq<int>)
    ensures p <= s && (s != [] ==> p != []) && |p| <= 8
  {
    if |s| <= 8 then s else s[..8]
  }

  ghost function Encrypt8(p: seq<int>, key: seq<int>): (r: seq<int>)
    ensures |r| == 11
  {
    Knot(Crypt(TextBits(p), Schedule(TextBits(key))) + [0, 0])
  }

  ghost function Decrypt8(c: seq<int>, key: seq<int>): (r: seq<int>)
    ensures |r| <= 10 && 0 !in r
  {
    var b := KnotBits(c);
    var s := Chars(Crypt(b[..64], Backwards(Schedule(TextBits(key)))) + b[64..]);
    UpToZeroNonzero(s);
    UpToZero(s)
  }

  ghost function Encrypt(s: seq<int>, key: seq<int>): seq<int> {
    if s == [] then []
    else Encrypt8(Piece(s), key) + [DOLLAR] + Encrypt(s[|Piece(s)|..], Piece(s))
  }

  /** The place of the first dollar, or the end. */
  function DollarEnd(c: seq<int>): (n: nat)
    ensures n <= |c| && DOLLAR !in c[..n] && (n < |c| ==> c[n] == DOLLAR)
  {
    if c == [] || c[0] == DOLLAR then 0
    else var n := 1 + DollarEnd(c[1..]); assert c[..n] == [c[0]] + c[1..][..n - 1]; n
  }

  ghost function Decrypt(c: seq<int>, key: seq<int>): seq<int>
    decreases |c|
  {
    if c == [] then []
    else
      var n := DollarEnd(c);
      var t := Decrypt8(c[..n], key);
      if n == |c| then t else t + Decrypt(c[n + 1..], t)
  }

  lemma DollarEndIs(c: seq<int>, n: nat)
    requires n < |c| && c[n] == DOLLAR && DOLLAR !in c[..n]
    ensures DollarEnd(c) == n
  {
    var k := DollarEnd(c);
    forall i | 0 <= i < n
      ensures c[i] != DOLLAR
    {
      assert c[..n][i] == c[i];
    }
    forall i | 0 <= i < k
      ensures c[i] != DOLLAR
    {
      assert c[..k][i] == c[i];
    }
  }

  lemma DecryptNone(key: seq<int>)
    ensures Decrypt([], key) == []
  {
  }

  /** The first piece of the cipher text from `n` on, which ends at `s`. */
  lemma DecryptPiece(c: seq<int>, n: nat, s: nat, key: seq<int>)
    requires n < |c| && s == n + DollarEnd(c[n..])
    ensures s <= |c|
    ensures var t := Decrypt8(c[n..s], key);
            Decrypt(c[n..], key) == if s == |c| then t else t + Decrypt(c[s + 1..], t)
  {
    hide Decrypt8;
    assert c[n..][..s - n] == c[n..s];
    assert s < |c| ==> c[n..][s - n + 1..] == c[s + 1..];
  }

  /** One piece comes back. */
  lemma PieceBack(p: seq<int>, key: seq<int>)
    requires Text(p) && |p| <= 8
    ensures Decrypt8(Encrypt8(p, key), key) == p
    ensures forall i :: 0 <= i < 11 ==> Encrypt8(p, key)[i] != DOLLAR
  {
    hide Crypt, Schedule, Chars, UpToZero, KnotBits, Knot, TextBits;
    var ks := Schedule(TextBits(key));
    var x := Crypt(TextBits(p), ks);
    var b := KnotBits(Knot(x + [0, 0]));
    KnotBitsBack(x + [0, 0]);
    assert b[..64] == b[..66][..64] == x;
    assert b[64] == b[..66][64] && b[65] == b[..66][65];
    Deciphering(TextBits(p), ks);
    var y := Crypt(b[..64], Backwards(ks)) + b[64..];
    assert y[..64] == TextBits(p);
    assert forall i :: 64 <= i < 80 ==> y[i] == b[i];
    TextBack(p, y);
  }

  /** nbsdecrypt undoes nbsencrypt on text of any length. */
  lemma {:induction false} TextComesBack(s: seq<int>, key: seq<int>)
    requires Text(s)
    ensures Decrypt(Encrypt(s, key), key) == s
  {
    hide Encrypt8, Decrypt8;
    if s != [] {
      var p := Piece(s);
      var n := |p|;
      var c := Encrypt(s, key);
      PieceBack(p, key);
      assert c[..11] == Encrypt8(p, key);
      DollarEndIs(c, 11);
      assert c[12..] == Encrypt(s[n..], p);
      TextComesBack(s[n..], p);
      assert s == p + s[n..];
    }
  }

  // ----- the code -----

  function Get(s: seq<int>, i: nat): int {
    if i < |s| then s[i] else 0
  }

  /** Clears the first seventy places of a block. */
  method ClearBlock(blk: array<Bit>)
    requires blk.Length == 100
    modifies blk
    ensures forall x :: 0 <= x < 70 ==> blk[x] == 0
    ensures forall x :: 70 <= x < 100 ==> blk[x] == old(blk[x])
  {
    for i := 0 to 70
      invariant forall x :: 0 <= x < i ==> blk[x] == 0
      invariant forall x :: 70 <= x < 100 ==> blk[x] == old(blk[x])
    {
      blk[i] := 0;
    }
  }

  /** Puts the last `n` bits of `c` at `i`, the highest first. */
  method PutBits(blk: array<Bit>, i: nat, c: int, n: nat)
    requires i + n <= blk.Length
    modifies blk
    ensures forall x :: 0 <= x < blk.Length ==>
      blk[x] == if i <= x < i + n then BitAt(c, n - 1 - (x - i)) else old(blk[x])
  {
    for j := 0 to n
      invariant forall x :: 0 <= x < blk.Length ==>
        blk[x] == if i <= x < i + j then BitAt(c, n - 1 - (x - i)) else old(blk[x])
    {
      blk[i + j] := BitAt(c, n - 1 - j);
    }
  }

  method EnBlkClr(blk: array<Bit>, str: seq<int>)
    requires blk.Length == 100 && 0 !in str
    modifies blk
    ensures blk[..64] == TextBits(str)
    ensures forall x :: 64 <= x < 70 ==> blk[x] == 0
    ensures forall x :: 70 <= x < 100 ==> blk[x] == old(blk[x])
  {
    hide BitAt;
    ClearBlock(blk);
    var i, n := 0, 0;
    while Get(str, n) != 0 && i < 64
      invariant i == 8 * n && 0 <= n <= 8 && n <= |str|
      invariant forall x {:trigger blk[x]} :: 0 <= x < i ==> blk[x] == TextBits(str)[x]
      invariant forall x {:trigger blk[x]} :: i <= x < 70 ==> blk[x] == 0
      invariant forall x {:trigger blk[x]} :: 70 <= x < 100 ==> blk[x] == old(blk[x])
      decreases 64 - i
    {
      PutBits(blk, i, str[n], 7);
      CharBits(str, n);
      i, n := i + 7, n + 1;
      i := i + 1;
    }
    assert forall x :: i <= x < 64 ==> x / 8 >= |str|;
  }

  /** The bits of character `n`. */
  lemma CharBits(str: seq<int>, n: nat)
    requires n < |str| && n < 8
    ensures forall x {:trigger TextBits(str)[x]} :: 8 * n <= x < 8 * n + 8 ==>
      TextBits(str)[x] == if x < 8 * n + 7 then BitAt(str[n], 6 - (x - 8 * n)) else 0
  {
    assert forall x :: 8 * n <= x < 8 * n + 8 ==> x / 8 == n && x % 8 == x - 8 * n;
  }

  /** The number that `n` bits from `i` on spell. */
  method GetBits(blk: array<Bit>, i: nat, n: nat) returns (c: int)
    requires i + n <= blk.Length
    ensures c == Num(blk[i..i + n])
  {
    c := 0;
    for j := 0 to n
      invariant c == Num(blk[i..i + j])
    {
      c := 2 * c + blk[i + j] as int;
      assert blk[i..i + j + 1][..j] == blk[i..i + j];
    }
  }

  lemma SubSlice(blk: array<Bit>, n: nat, lo: nat, hi: nat)
    requires lo <= hi <= n <= blk.Length
    ensures blk[lo..hi] == blk[..n][lo..hi]
  {
  }

  method DeBlkClr(blk: array<Bit>) returns (iobuf: seq<int>)
    requires blk.Length == 100
    ensures iobuf == UpToZero(Chars(blk[..80]))
  {
    hide Num;
    iobuf := [];
    for i := 0 to 10
      invariant iobuf == Chars(blk[..80])[..i]
    {
      var c := GetBits(blk, 8 * i, 7);
      SubSlice(blk, 80, 8 * i, 8 * i + 7);
      iobuf := iobuf + [c];
    }
    assert Chars(blk[..80])[..10] == Chars(blk[..80]);
    iobuf := CString(iobuf);
  }

  /** The string in a buffer. */
  method CString(s: seq<int>) returns (r: seq<int>)
    ensures r == UpToZero(s)
  {
    var n := 0;
    while n < |s| && s[n] != 0
      invariant 0 <= n <= |s| && forall k :: 0 <= k < n ==> s[k] != 0
    {
      n := n + 1;
    }
    UpToZeroIs(s, n);
    r := s[..n];
  }

  method EnBlkKnot(blk: array<Bit>, crp: seq<int>)
    requires blk.Length == 100 && 0 !in crp && forall x :: 70 <= x < 100 ==> blk[x] == 0
    modifies blk
    ensures blk[..80] == KnotBits(crp)
    ensures forall x :: 70 <= x < 100 ==> blk[x] == 0
  {
    hide BitAt, KnotValue;
    ClearBlock(blk);
    var i, n := 0, 0;
    while Get(crp, n) != 0 && i < 64
      invariant i == 6 * n && 0 <= n <= 11 && n <= |crp|
      invariant forall x {:trigger blk[x]} :: 0 <= x < i ==> blk[x] == KnotBits(crp)[x]
      invariant forall x {:trigger blk[x]} :: i <= x < 100 ==> blk[x] == 0
      decreases 64 - i
    {
      PutBits(blk, i, KnotValue(crp[n]), 6);
      KnotCharBits(crp, n);
      i, n := i + 6, n + 1;
    }
    assert forall x :: i <= x < 66 ==> x / 6 >= |crp|;
  }

  lemma KnotCharBits(crp: seq<int>, n: nat)
    requires n < |crp| && n < 11
    ensures forall x {:trigger KnotBits(crp)[x]} :: 6 * n <= x < 6 * n + 6 ==>
      KnotBits(crp)[x] == BitAt(KnotValue(crp[n]), 5 - (x - 6 * n))
  {
    assert forall x :: 6 * n <= x < 6 * n + 6 ==> x / 6 == n && x % 6 == x - 6 * n;
  }

  method DeBlkKnot(blk: array<Bit>) returns (iobuf: seq<int>)
    requires blk.Length == 100
    ensures iobuf == Knot(blk[..66])
  {
    hide Num, KnotChar;
    iobuf := [];
    for i := 0 to 11
      invariant iobuf == Knot(blk[..66])[..i]
    {
      var c := GetBits(blk, 6 * i, 6);
      SubSlice(blk, 66, 6 * i, 6 * i + 6);
      iobuf := iobuf + [KnotChar(c)];
    }
  }

  class TextCipher {
    const des: Cipher
    const keyblk: array<Bit>    // the static blocks of nbs8encrypt and of nbs8decrypt
    const blk: array<Bit>
    const dekeyblk: array<Bit>
    const deblk: array<Bit>

    ghost predicate Valid()
      reads this, des, deblk
    {
      && des.Valid() && keyblk.Length == 100 && blk.Length == 100 && dekeyblk.Length == 100 && deblk.Length == 100
      && {keyblk, blk, dekeyblk, deblk} !! {des.L, des.tempL, des.preS, des.f, des.C, des.D, des.KS}
      && keyblk != blk && dekeyblk != deblk && {keyblk, blk} !! {dekeyblk, deblk}
      && forall x :: 70 <= x < 100 ==> deblk[x] == 0
    }

    constructor ()
      ensures Valid()
    {
      des := new Cipher();
      keyblk, blk := new Bit[100](_ => 0), new Bit[100](_ => 0);
      dekeyblk, deblk := new Bit[100](_ => 0), new Bit[100](_ => 0);
    }

    method Nbs8Encrypt(str: seq<int>, key: seq<int>) returns (r: seq<int>)
      requires Valid() && 0 !in str && 0 !in key
      modifies des.L, des.tempL, des.preS, des.f, des.C, des.D, des.KS, keyblk, blk
      ensures Valid() && r == Encrypt8(str, key)
    {
      hide TextBits, Crypt, Schedule, KeyRows, Knot;
      EnBlkClr(keyblk, key);
      des.SetKey(keyblk);
      EnBlkClr(blk, str);
      des.BlkEncrypt(blk, false);
      r := DeBlkKnot(blk);
      assert blk[64..][0] == blk[64] && blk[64..][1] == blk[65];
      assert blk[..66] == blk[..64] + [0, 0];
    }

    method Nbs8Decrypt(crp: seq<int>, key: seq<int>) returns (r: seq<int>)
      requires Valid() && 0 !in crp && 0 !in key
      modifies des.L, des.tempL, des.preS, des.f, des.C, des.D, des.KS, dekeyblk, deblk
      ensures Valid() && r == Decrypt8(crp, key)
    {
      hide TextBits, Crypt, Schedule, KeyRows, KnotBits, Chars;
      EnBlkClr(dekeyblk, key);
      des.SetKey(dekeyblk);
      EnBlkKnot(deblk, crp);
      ghost var b := KnotBits(crp);
      SubSlice(deblk, 80, 0, 64);
      ghost var tail := deblk[64..];
      assert tail[..16] == b[64..];
      des.BlkEncrypt(deblk, true);
      assert deblk[..80] == deblk[..64] + deblk[64..][..16];
      r := DeBlkClr(deblk);
    }

    /** Copies up to eight characters into a cleared buffer. */
    static method FillBuf(str: seq<int>, n: nat) returns (buf: seq<int>, n': nat)
      requires n <= |str|
      ensures buf == Piece(str[n..]) && n' == n + |buf|
    {
      buf, n' := [], n;
      while |buf| < 8 && n' < |str|
        invariant n <= n' <= |str| && n' - n <= 8 && buf == str[n..n']
      {
        buf := buf + [str[n']];
        n' := n' + 1;
      }
      assert n' - n == 8 ==> str[n..][..8] == str[n..n'];
      assert n' == |str| ==> str[n..n'] == str[n..];
    }

    /** nbsencrypt */
    method NbsEncrypt(str: seq<int>, key: seq<int>) returns (result: seq<int>)
      requires Valid() && 0 !in str && 0 !in key && |key| < 20
      modifies des.L, des.tempL, des.preS, des.f, des.C, des.D, des.KS, keyblk, blk
      ensures Valid() && result == Encrypt(str, key)
    {
      hide Encrypt8, Piece;
      result := [];
      var oldbuf, n := key, 0;
      while n < |str|
        invariant Valid() && 0 <= n <= |str| && 0 !in oldbuf
        invariant Encrypt(str, key) == result + Encrypt(str[n..], oldbuf)
      {
        var buf, n' := FillBuf(str, n);
        assert str[n..][|buf|..] == str[n'..];
        var r := Nbs8Encrypt(buf, oldbuf);
        result := result + r + [DOLLAR];
        oldbuf, n := buf, n';
      }
    }

    /** nbsdecrypt: the result is the decipherment of the string at `cpt`, in which a zero replaces every dollar. */
    method NbsDecrypt(cpt: array<int>, key: seq<int>) returns (result: seq<int>)
      requires Valid() && IsString(cpt[..]) && 0 !in key && |key| < 20
      modifies des.L, des.tempL, des.preS, des.f, des.C, des.D, des.KS, dekeyblk, deblk, cpt
      ensures Valid() && result == Decrypt(old(cpt[..cpt.Length - 1]), key)
      ensures forall k :: 0 <= k < cpt.Length ==> cpt[k] == if old(cpt[k]) == DOLLAR then 0 else old(cpt[k])
    {
      hide Decrypt, Decrypt8, DollarEnd;
      ghost var c := cpt[..cpt.Length - 1];
      result := [];
      var oldbuf, n := key, 0;
      assert c[0..] == c && forall k :: 0 <= k < |c| ==> c[k] != 0;
      while cpt[n] != 0
        invariant Valid() && 0 <= n < cpt.Length && 0 !in oldbuf && cpt[cpt.Length - 1] == 0
        invariant forall k {:trigger cpt[k]} :: 0 <= k < |c| ==> cpt[k] == if k < n && c[k] == DOLLAR then 0 else c[k]
        invariant Decrypt(c, key) == result + Decrypt(c[n..], oldbuf)
        decreases cpt.Length - n
      {
        var s := FindDollar(cpt, n, c);
        var last := cpt[s];
        DecryptPiece(c, n, s, oldbuf);
        cpt[s] := 0;
        assert cpt[n..s] == c[n..s];
        oldbuf := Nbs8Decrypt(cpt[n..s], oldbuf);
        if last == 0 {
          return result + oldbuf;
        }
        result := result + oldbuf;
        n := s + 1;
      }
      assert n == |c| && c[n..] == [] && result + [] == result;
      DecryptNone(oldbuf);
    }

    static ghost predicate IsString(s: seq<int>) {
      s != [] && s[|s| - 1] == 0 && 0 !in s[..|s| - 1]
    }

    static method FindDollar(cpt: array<int>, n: nat, ghost c: seq<int>) returns (s: nat)
      requires n <= |c| == cpt.Length - 1 && 0 !in c && cpt[|c|] == 0 && forall k :: n <= k < |c| ==> cpt[k] == c[k]
      ensures s == n + DollarEnd(c[n..]) <= |c| && forall k :: n <= k < s ==> c[k] != DOLLAR
      ensures s < |c| ==> c[s] == DOLLAR
    {
      s := n;
      while cpt[s] != 0 && cpt[s] != DOLLAR
        invariant n <= s <= |c| && s + DollarEnd(c[s..]) == n + DollarEnd(c[n..])
        invariant forall k :: n <= k < s ==> c[k] != DOLLAR
        decreases |c| - s
      {
        assert c[s..][1..] == c[s + 1..];
        s := s + 1;
      }
    }
  }
}

/** How the text cipher of bsdlibc/net/ruserpass.c turns characters into bits and back. */
module NbsText {
  import opened Des

  /** `c` shifted right by `k`. */
  function Shr(c: int, k: nat): int {
    if k == 0 then c else Shr(c, k - 1) / 2
  }

  function BitAt(c: int, k: nat): Bit {
    Shr(c, k) % 2
  }

  /** The number that bits spell, the highest first. */
  function Num(b: seq<Bit>): (n: nat)
    ensures n < Pow2(|b|)
  {
    if b == [] then 0 else 2 * Num(b[..|b| - 1]) + b[|b| - 1] as int
  }

  function Pow2(n: nat): (p: nat)
    ensures p >= 1
  {
    if n == 0 then 1 else 2 * Pow2(n - 1)
  }

  /** The last `n` bits of a number, the highest first. */
  function Bits(c: int, n: nat): (b: seq<Bit>)
    ensures |b| == n
  {
    seq(n, k requires 0 <= k < n => BitAt(c, n - 1 - k))
  }

  lemma {:induction false} ShrHalf(c: int, k: nat)
    ensures Shr(c, k + 1) == Shr(c / 2, k)
  {
    if k > 0 {
      ShrHalf(c, k - 1);
    }
  }

  lemma BitsHalf(c: int, n: nat)
    ensures Bits(c, n + 1) == Bits(c / 2, n) + [c % 2]
  {
    var b := Bits(c / 2, n) + [c % 2];
    forall k | 0 <= k < n + 1
      ensures Bits(c, n + 1)[k] == b[k]
    {
      if k < n {
        ShrHalf(c, n - 1 - k);
        assert Bits(c, n + 1)[k] == BitAt(c, n - k) == BitAt(c / 2, n - 1 - k);
      } else {
        assert BitAt(c, 0) == c % 2;
      }
    }
    assert Bits(c, n + 1) == b;
  }

  lemma {:induction false} NumBits(c: nat, n: nat)
    requires c < Pow2(n)
    ensures Num(Bits(c, n)) == c
  {
    if n > 0 {
      BitsHalf(c, n - 1);
      NumBits(c / 2, n - 1);
      assert Bits(c, n)[..n - 1] == Bits(c / 2, n - 1);
    }
  }

  lemma {:induction false} BitsNum(b: seq<Bit>)
    ensures Bits(Num(b), |b|) == b
  {
    if b != [] {
      var n := |b|;
      BitsNum(b[..n - 1]);
      BitsHalf(Num(b), n - 1);
    }
  }

  // ----- clear text -----

  predicate Text(s: seq<int>) {
    forall k :: 0 <= k < |s| ==> 0 < s[k] < 128
  }

  /** Up to eight characters of seven bits, each followed by a zero bit. */
  function TextBits(s: seq<int>): (b: seq<Bit>)
    ensures |b| == 64
  {
    seq(64, x requires 0 <= x < 64 => if x / 8 < |s| && x % 8 < 7 then BitAt(s[x / 8], 6 - x % 8) else 0)
  }

  /** Ten characters of seven bits out of eighty bits. */
  function Chars(b: seq<Bit>): (s: seq<int>)
    requires |b| == 80
    ensures |s| == 10
  {
    seq(10, i requires 0 <= i < 10 => Num(b[8 * i..8 * i + 7]))
  }

  /** A string ends before its first zero. */
  function UpToZero(s: seq<int>): (r: seq<int>)
    ensures |r| <= |s|
  {
    if s == [] || s[0] == 0 then [] else [s[0]] + UpToZero(s[1..])
  }

  lemma {:induction false} UpToZeroIs(s: seq<int>, n: nat)
    requires n <= |s| && (n < |s| ==> s[n] == 0) && forall k :: 0 <= k < n ==> s[k] != 0
    ensures UpToZero(s) == s[..n]
  {
    if n > 0 {
      UpToZeroIs(s[1..], n - 1);
      assert s[..n] == [s[0]] + s[1..][..n - 1];
    }
  }

  lemma {:induction false} UpToZeroNonzero(s: seq<int>)
    ensures 0 !in UpToZero(s)
  {
    if s != [] && s[0] != 0 {
      UpToZeroNonzero(s[1..]);
    }
  }

  /** Text of at most eight characters comes back from its bits, with zero bits behind them. */
  lemma TextBack(s: seq<int>, b: seq<Bit>)
    requires Text(s) && |s| <= 8 && |b| == 80 && b[..64] == TextBits(s)
    requires forall x :: 64 <= x < 80 ==> b[x] == 0
    ensures UpToZero(Chars(b)) == s
  {
    forall i | 0 <= i < 9
      ensures Chars(b)[i] == if i < |s| then s[i] else 0
    {
      if i < |s| {
        CharBack(s, b, i);
      } else {
        ZeroBack(s, b, i);
      }
    }
    UpToZeroIs(Chars(b), |s|);
    assert Chars(b)[..|s|] == s;
  }

  lemma CharBack(s: seq<int>, b: seq<Bit>, i: nat)
    requires Text(s) && i < |s| <= 8 && |b| == 80 && b[..64] == TextBits(s)
    ensures Num(b[8 * i..8 * i + 7]) == s[i]
  {
    var seven := b[8 * i..8 * i + 7];
    forall k | 0 <= k < 7
      ensures seven[k] == Bits(s[i], 7)[k]
    {
      assert b[8 * i + k] == b[..64][8 * i + k];
      assert (8 * i + k) / 8 == i && (8 * i + k) % 8 == k;
    }
    assert seven == Bits(s[i], 7);
    assert Pow2(7) == 128;
    NumBits(s[i], 7);
  }

  /** The letter "a" is 1100001, and the eighth bit is zero. */
  lemma LetterBits(s: seq<int>)
    requires |s| >= 1 && s[0] == 'a' as int
    ensures TextBits(s)[..8] == [1, 1, 0, 0, 0, 0, 1, 0]
  {
    var c := s[0];
    assert Shr(c, 1) == 48 && Shr(c, 2) == 24 && Shr(c, 3) == 12 && Shr(c, 4) == 6 && Shr(c, 5) == 3 && Shr(c, 6) == 1;
  }

  lemma ZeroBack(s: seq<int>, b: seq<Bit>, i: nat)
    requires |s| <= i < 9 && |b| == 80 && b[..64] == TextBits(s)
    requires forall x :: 64 <= x < 80 ==> b[x] == 0
    ensures Num(b[8 * i..8 * i + 7]) == 0
  {
    var seven := b[8 * i..8 * i + 7];
    forall k | 0 <= k < 7
      ensures seven[k] == 0
    {
      if i < 8 {
        assert b[8 * i + k] == b[..64][8 * i + k];
        assert (8 * i + k) / 8 == i;
      }
    }
    NumZero(seven);
  }

  lemma {:induction false} NumZero(b: seq<Bit>)
    requires forall k :: 0 <= k < |b| ==> b[k] == 0
    ensures Num(b) == 0
  {
    if b != [] {
      NumZero(b[..|b| - 1]);
    }
  }

  // ----- cipher text -----

  /** The character for a number below 64: a dot, a slash, the digits, the upper and the lower case letters. */
  function KnotChar(v: int): int {
    var c := v + '.' as int;
    var d := if c > '9' as int then c + 7 else c;
    if d > 'Z' as int then d + 6 else d
  }

  function KnotValue(c: int): int {
    var d := if c > 'Z' as int then c - 6 else c;
    var e := if d > '9' as int then d - 7 else d;
    e - '.' as int
  }

  lemma KnotBack(v: int)
    requires 0 <= v < 64
    ensures KnotValue(KnotChar(v)) == v && 0 < KnotChar(v) < 128 && KnotChar(v) != '$' as int
  {
  }

  /** The alphabet of enciphered text. */
  lemma Alphabet(v: int)
    requires 0 <= v < 64
    ensures v == 0 ==> KnotChar(v) == '.' as int
    ensures v == 1 ==> KnotChar(v) == '/' as int
    ensures 2 <= v < 12 ==> KnotChar(v) == '0' as int + v - 2
    ensures 12 <= v < 38 ==> KnotChar(v) == 'A' as int + v - 12
    ensures v >= 38 ==> KnotChar(v) == 'a' as int + v - 38
  {
  }

  /** Eleven characters for sixty-six bits. */
  function Knot(b: seq<Bit>): (s: seq<int>)
    requires |b| == 66
    ensures |s| == 11
  {
    seq(11, i requires 0 <= i < 11 => KnotChar(Num(b[6 * i..6 * i + 6])))
  }

  /** The eighty bits that up to eleven characters stand for. */
  function KnotBits(s: seq<int>): (b: seq<Bit>)
    ensures |b| == 80
  {
    seq(80, x requires 0 <= x < 80 => if x < 66 && x / 6 < |s| then BitAt(KnotValue(s[x / 6]), 5 - x % 6) else 0)
  }

  lemma KnotBitsBack(b: seq<Bit>)
    requires |b| == 66
    ensures KnotBits(Knot(b))[..66] == b && forall x :: 66 <= x < 80 ==> KnotBits(Knot(b))[x] == 0
    ensures forall i :: 0 <= i < 11 ==> 0 < Knot(b)[i] < 128 && Knot(b)[i] != '$' as int
  {
    forall i | 0 <= i < 11
      ensures 0 < Knot(b)[i] < 128 && Knot(b)[i] != '$' as int
      ensures KnotValue(Knot(b)[i]) == Num(b[6 * i..6 * i + 6])
    {
      assert Pow2(6) == 64;
      KnotBack(Num(b[6 * i..6 * i + 6]));
    }
    forall x | 0 <= x < 66
      ensures KnotBits(Knot(b))[x] == b[x]
    {
      var i := x / 6;
      assert 0 <= i < 11;
      var six := b[6 * i..6 * i + 6];
      BitsNum(six);
      assert six[x % 6] == b[x];
      assert Bits(Num(six), 6)[x % 6] == BitAt(Num(six), 5 - x % 6);
    }
  }
}

/** The steps of the cipher on lists of hexadecimal digits, by conditions on the digits that are easy to check. */
module DesDigits {
  import opened Des
  import opened DesTables

  /** Bit `i` of a list of digits. */
  function Digit(ns: seq<int>, i: int): Bit
    requires 0 <= i < 4 * |ns|
  {
    BitOf(ns[i / 4], i % 4)
  }

  /** The bits of a list of digits. */
  function Hex(ns: seq<int>): (b: seq<Bit>)
    ensures |b| == 4 * |ns|
    ensures forall i {:trigger b[i]} :: 0 <= i < |b| ==> b[i] == Digit(ns, i)
  {
    seq(4 * |ns|, i requires 0 <= i < 4 * |ns| => Digit(ns, i))
  }

  lemma HexAppend(a: seq<int>, b: seq<int>)
    ensures Hex(a + b) == Hex(a) + Hex(b)
  {
    hide BitOf;
  }

  // ----- one round -----

  /** Where the expansion takes its bits from: each digit, and its neighbours' nearest bits. */
  lemma ExpansionPlaces(j: nat)
    requires j < 8
    ensures |E| == 8 && |E[j]| == 6 && E[j][0] == 4 * ((j + 7) % 8) + 4 && E[j][5] == 4 * ((j + 1) % 8) + 1
    ensures E[j][1] == 4 * j + 1 && E[j][2] == 4 * j + 2 && E[j][3] == 4 * j + 3 && E[j][4] == 4 * j + 4
  {
  }

  /** An entry for the last bit of `a`, the digit `b` and the first bit of `c`, and six key bits from `u` on. */
  function Even(box: seq<seq<int>>, a: int, b: int, c: int, u: int, w: int): int
    requires Shaped(box, 4, 16)
  {
    Selected(box, Xor(BitOf(a, 3), BitOf(u, 0)), Xor(BitOf(b, 0), BitOf(u, 1)), Xor(BitOf(b, 1), BitOf(u, 2)),
             Xor(BitOf(b, 2), BitOf(u, 3)), Xor(BitOf(b, 3), BitOf(w, 0)), Xor(BitOf(c, 0), BitOf(w, 1)))
  }

  /** The same for six key bits that end with `w`. */
  function Odd(box: seq<seq<int>>, a: int, b: int, c: int, u: int, w: int): int
    requires Shaped(box, 4, 16)
  {
    Selected(box, Xor(BitOf(a, 3), BitOf(u, 2)), Xor(BitOf(b, 0), BitOf(u, 3)), Xor(BitOf(b, 1), BitOf(w, 0)),
             Xor(BitOf(b, 2), BitOf(w, 1)), Xor(BitOf(b, 3), BitOf(w, 2)), Xor(BitOf(c, 0), BitOf(w, 3)))
  }

  lemma Shapes()
    ensures Shaped(S1, 4, 16) && Shaped(S2, 4, 16) && Shaped(S3, 4, 16) && Shaped(S4, 4, 16)
    ensures Shaped(S5, 4, 16) && Shaped(S6, 4, 16) && Shaped(S7, 4, 16) && Shaped(S8, 4, 16)
  {
  }

  /** The selection functions make the digits `s` of the right half `r` and the key `k`. */
  predicate Outs(r: seq<int>, k: seq<int>, s: seq<int>)
    requires |r| == |s| == 8 && |k| == 12
  {
    Shapes();
    && Even(S1, r[7], r[0], r[1], k[0], k[1]) == s[0]
    && Odd(S2, r[0], r[1], r[2], k[1], k[2]) == s[1]
    && Even(S3, r[1], r[2], r[3], k[3], k[4]) == s[2]
    && Odd(S4, r[2], r[3], r[4], k[4], k[5]) == s[3]
    && Even(S5, r[3], r[4], r[5], k[6], k[7]) == s[4]
    && Odd(S6, r[4], r[5], r[6], k[7], k[8]) == s[5]
    && Even(S7, r[5], r[6], r[7], k[9], k[10]) == s[6]
    && Odd(S8, r[6], r[7], r[0], k[10], k[11]) == s[7]
  }

  predicate MixedRow(l: seq<int>, s: seq<int>, n: seq<int>, q: nat)
    requires |l| == |s| == |n| == 8 && q < 8
  {
    PlacesP();
    && Xor(BitOf(l[q], 0), Digit(s, P[q][0] - 1)) == BitOf(n[q], 0)
    && Xor(BitOf(l[q], 1), Digit(s, P[q][1] - 1)) == BitOf(n[q], 1)
    && Xor(BitOf(l[q], 2), Digit(s, P[q][2] - 1)) == BitOf(n[q], 2)
    && Xor(BitOf(l[q], 3), Digit(s, P[q][3] - 1)) == BitOf(n[q], 3)
  }

  /** The digits `s`, permuted, change the left half `l` into the new right half `n`. */
  predicate Mixed(l: seq<int>, s: seq<int>, n: seq<int>)
    requires |l| == |s| == |n| == 8
  {
    && MixedRow(l, s, n, 0) && MixedRow(l, s, n, 1) && MixedRow(l, s, n, 2) && MixedRow(l, s, n, 3)
    && MixedRow(l, s, n, 4) && MixedRow(l, s, n, 5) && MixedRow(l, s, n, 6) && MixedRow(l, s, n, 7)
  }

  function Input(r: seq<int>, k: seq<int>): (pre: seq<Bit>)
    requires |r| == 8 && |k| == 12
    ensures |pre| == 48
  {
    PlacesE();
    XorAll(Permute(Hex(r), E, 8, 6, 1), Hex(k))
  }

  function Near(r: seq<int>, j: nat, b: nat): Bit
    requires |r| == 8 && j < 8 && b < 6
  {
    if b == 0 then BitOf(r[(j + 7) % 8], 3) else if b < 5 then BitOf(r[j], b - 1) else BitOf(r[(j + 1) % 8], 0)
  }

  lemma ExpandedBit(r: seq<int>, j: nat, b: nat)
    requires |r| == 8 && j < 8 && b < 6
    ensures Places(E, 8, 6, 1, 32) && Permute(Hex(r), E, 8, 6, 1)[6 * j + b] == Hex(r)[E[j][b] - 1]
  {
    hide Hex, Places;
    PlacesE();
    ExpansionPlaces(j);
    CellE(j, b);
    CellPlace(E, 8, 6, 1, 32, 6 * j + b);
  }

  lemma CellE(j: nat, b: nat)
    requires b < 6 && j < 8 && |E| == 8 && |E[j]| == 6
    ensures (6 * j + b) / 6 == j && (6 * j + b) % 6 == b && Cell(E, 6, 6 * j + b) == E[j][b]
  {
  }

  lemma NearBit(r: seq<int>, j: nat, b: nat)
    requires |r| == 8 && j < 8 && b < 6
    ensures |E| == 8 && |E[j]| == 6 && 1 <= E[j][b] <= 32 && Hex(r)[E[j][b] - 1] == Near(r, j, b)
  {
    hide BitOf;
    ExpansionPlaces(j);
    assert b == 0 || b == 1 || b == 2 || b == 3 || b == 4 || b == 5;
  }

  lemma InputBit(r: seq<int>, k: seq<int>, j: nat, b: nat)
    requires |r| == 8 && |k| == 12 && j < 8 && b < 6
    ensures Input(r, k)[6 * j + b] == Xor(Near(r, j, b), Digit(k, 6 * j + b))
  {
    hide BitOf, Near, Permute, Places;
    ExpandedBit(r, j, b);
    NearBit(r, j, b);
  }

  /** The entry that the six bits from `6 * j` on select. */
  function Chosen(pre: seq<Bit>, j: nat): int
    requires |pre| == 48 && j < 8
  {
    BoxShape();
    var t := 6 * j;
    Selected(S[j], pre[t], pre[t + 1], pre[t + 2], pre[t + 3], pre[t + 4], pre[t + 5])
  }

  lemma InputBits(r: seq<int>, k: seq<int>, j: nat)
    requires |r| == 8 && |k| == 12 && j < 8
    ensures var pre, t := Input(r, k), 6 * j;
            && pre[t] == Xor(Near(r, j, 0), Digit(k, t)) && pre[t + 1] == Xor(Near(r, j, 1), Digit(k, t + 1))
            && pre[t + 2] == Xor(Near(r, j, 2), Digit(k, t + 2)) && pre[t + 3] == Xor(Near(r, j, 3), Digit(k, t + 3))
            && pre[t + 4] == Xor(Near(r, j, 4), Digit(k, t + 4)) && pre[t + 5] == Xor(Near(r, j, 5), Digit(k, t + 5))
  {
    hide Input, Near, Digit;
    InputBit(r, k, j, 0);
    InputBit(r, k, j, 1);
    InputBit(r, k, j, 2);
    InputBit(r, k, j, 3);
    InputBit(r, k, j, 4);
    InputBit(r, k, j, 5);
  }

  lemma ChosenEven(r: seq<int>, k: seq<int>, j: nat)
    requires |r| == 8 && |k| == 12 && j < 8 && j % 2 == 0
    ensures |S| == 8 && Shaped(S[j], 4, 16)
    ensures Chosen(Input(r, k), j) == Even(S[j], r[(j + 7) % 8], r[j], r[(j + 1) % 8], k[3 * j / 2], k[3 * j / 2 + 1])
  {
    hide BitOf, Input, Selected, Shaped;
    BoxShape();
    InputBits(r, k, j);
  }

  lemma ChosenOdd(r: seq<int>, k: seq<int>, j: nat)
    requires |r| == 8 && |k| == 12 && j < 8 && j % 2 == 1
    ensures |S| == 8 && Shaped(S[j], 4, 16)
    ensures Chosen(Input(r, k), j) == Odd(S[j], r[j - 1], r[j], r[(j + 1) % 8], k[3 * j / 2], k[3 * j / 2 + 1])
  {
    hide BitOf, Input, Selected, Shaped;
    BoxShape();
    InputBits(r, k, j);
  }

  lemma ChosenIs(r: seq<int>, k: seq<int>, s: seq<int>, j: nat)
    requires |r| == |s| == 8 && |k| == 12 && Outs(r, k, s) && j < 8
    ensures Chosen(Input(r, k), j) == s[j]
  {
    hide Even, Odd, Chosen, Input, Shaped;
    if j % 2 == 0 {
      ChosenEven(r, k, j);
      assert j == 0 || j == 2 || j == 4 || j == 6;
    } else {
      ChosenOdd(r, k, j);
      assert j == 1 || j == 3 || j == 5 || j == 7;
    }
  }

  lemma BoxesHex(r: seq<int>, k: seq<int>, s: seq<int>)
    requires |r| == |s| == 8 && |k| == 12 && Outs(r, k, s)
    ensures Boxes(Input(r, k)) == Hex(s)
  {
    hide Outs, BitOf, Input, Selected;
    forall i | 0 <= i < 32
      ensures Boxes(Input(r, k))[i] == Hex(s)[i]
    {
      ChosenIs(r, k, s, i / 4);
    }
  }

  lemma MixedAt(l: seq<int>, s: seq<int>, n: seq<int>, q: nat, c: nat)
    requires |l| == |s| == |n| == 8 && Mixed(l, s, n) && q < 8 && c < 4
    ensures |P| == 8 && |P[q]| == 4 && 1 <= P[q][c] <= 32
    ensures Xor(BitOf(l[q], c), Digit(s, P[q][c] - 1)) == BitOf(n[q], c)
  {
    PlacesP();
    assert MixedRow(l, s, n, q) by {
      hide MixedRow;
      assert q == 0 || q == 1 || q == 2 || q == 3 || q == 4 || q == 5 || q == 6 || q == 7;
    }
    hide BitOf, Digit, Mixed, Xor;
    assert c == 0 || c == 1 || c == 2 || c == 3;
  }

  lemma MixHex(l: seq<int>, s: seq<int>, n: seq<int>)
    requires |l| == |s| == |n| == 8 && Mixed(l, s, n)
    ensures Places(P, 8, 4, 1, 32) && XorAll(Hex(l), Permute(Hex(s), P, 8, 4, 1)) == Hex(n)
  {
    hide Mixed, BitOf;
    PlacesP();
    forall i | 0 <= i < 32
      ensures XorAll(Hex(l), Permute(Hex(s), P, 8, 4, 1))[i] == Hex(n)[i]
    {
      hide Places;
      MixedAt(l, s, n, i / 4, i % 4);
    }
  }

  /** One round on digits. */
  lemma RoundHex(l: seq<int>, r: seq<int>, k: seq<int>, s: seq<int>, n: seq<int>)
    requires |l| == |r| == |s| == |n| == 8 && |k| == 12 && Outs(r, k, s) && Mixed(l, s, n)
    ensures Round(Hex(l) + Hex(r), Hex(k)) == Hex(r) + Hex(n)
  {
    hide Outs, Mixed, Places, Boxes, Hex, Permute, XorAll;
    var h := Hex(l) + Hex(r);
    assert h[..32] == Hex(l) && h[32..] == Hex(r);
    BoxesHex(r, k, s);
    MixHex(l, s, n);
    PlacesE();
  }

  // ----- the key schedule -----

  predicate Digits(c: seq<int>) {
    forall q :: 0 <= q < |c| ==> 0 <= c[q] < 16
  }

  /** The digits `n` are the digits `c` turned to the left by one bit. */
  predicate Once(c: seq<int>, n: seq<int>)
    requires |c| == |n| == 7
  {
    && n[0] == c[0] * 2 % 16 + c[1] / 8
    && n[1] == c[1] * 2 % 16 + c[2] / 8
    && n[2] == c[2] * 2 % 16 + c[3] / 8
    && n[3] == c[3] * 2 % 16 + c[4] / 8
    && n[4] == c[4] * 2 % 16 + c[5] / 8
    && n[5] == c[5] * 2 % 16 + c[6] / 8
    && n[6] == c[6] * 2 % 16 + c[0] / 8
  }

  predicate Twice(c: seq<int>, n: seq<int>)
    requires |c| == |n| == 7
  {
    && n[0] == c[0] * 4 % 16 + c[1] / 4
    && n[1] == c[1] * 4 % 16 + c[2] / 4
    && n[2] == c[2] * 4 % 16 + c[3] / 4
    && n[3] == c[3] * 4 % 16 + c[4] / 4
    && n[4] == c[4] * 4 % 16 + c[5] / 4
    && n[5] == c[5] * 4 % 16 + c[6] / 4
    && n[6] == c[6] * 4 % 16 + c[0] / 4
  }

  lemma FourBits(a: Bit, b: Bit, c: Bit, d: Bit)
    ensures var z := 8 * (a as int) + 4 * (b as int) + 2 * (c as int) + d as int;
            && BitOf(z, 0) == a && BitOf(z, 1) == b && BitOf(z, 2) == c && BitOf(z, 3) == d
  {
  }

  lemma DigitBits(x: int)
    requires 0 <= x < 16
    ensures x == 8 * (BitOf(x, 0) as int) + 4 * (BitOf(x, 1) as int) + 2 * (BitOf(x, 2) as int) + BitOf(x, 3) as int
  {
  }

  lemma OnceValue(a: Bit, b: Bit, c: Bit, d: Bit, e: Bit, f: Bit, g: Bit, h: Bit)
    ensures var x, y := 8 * (a as int) + 4 * (b as int) + 2 * (c as int) + d as int,
                        8 * (e as int) + 4 * (f as int) + 2 * (g as int) + h as int;
            x * 2 % 16 + y / 8 == 8 * (b as int) + 4 * (c as int) + 2 * (d as int) + e as int
  {
    var x := 8 * (a as int) + 4 * (b as int) + 2 * (c as int) + d as int;
    var rest := 4 * (f as int) + 2 * (g as int) + h as int;
    assert x * 2 == 16 * (a as int) + (8 * (b as int) + 4 * (c as int) + 2 * (d as int));
    assert (8 * (e as int) + rest) / 8 == e as int;
  }

  lemma TwiceValue(a: Bit, b: Bit, c: Bit, d: Bit, e: Bit, f: Bit, g: Bit, h: Bit)
    ensures var x, y := 8 * (a as int) + 4 * (b as int) + 2 * (c as int) + d as int,
                        8 * (e as int) + 4 * (f as int) + 2 * (g as int) + h as int;
            x * 4 % 16 + y / 4 == 8 * (c as int) + 4 * (d as int) + 2 * (e as int) + f as int
  {
  }

  lemma OnceBits(x: int, y: int)
    requires 0 <= x < 16 && 0 <= y < 16
    ensures var z := x * 2 % 16 + y / 8;
            && 0 <= z < 16 && BitOf(z, 0) == BitOf(x, 1) && BitOf(z, 1) == BitOf(x, 2)
            && BitOf(z, 2) == BitOf(x, 3) && BitOf(z, 3) == BitOf(y, 0)
  {
    hide BitOf;
    DigitBits(x);
    DigitBits(y);
    OnceValue(BitOf(x, 0), BitOf(x, 1), BitOf(x, 2), BitOf(x, 3), BitOf(y, 0), BitOf(y, 1), BitOf(y, 2), BitOf(y, 3));
    FourBits(BitOf(x, 1), BitOf(x, 2), BitOf(x, 3), BitOf(y, 0));
  }

  lemma TwiceBits(x: int, y: int)
    requires 0 <= x < 16 && 0 <= y < 16
    ensures var z := x * 4 % 16 + y / 4;
            && 0 <= z < 16 && BitOf(z, 0) == BitOf(x, 2) && BitOf(z, 1) == BitOf(x, 3)
            && BitOf(z, 2) == BitOf(y, 0) && BitOf(z, 3) == BitOf(y, 1)
  {
    hide BitOf;
    DigitBits(x);
    DigitBits(y);
    TwiceValue(BitOf(x, 0), BitOf(x, 1), BitOf(x, 2), BitOf(x, 3), BitOf(y, 0), BitOf(y, 1), BitOf(y, 2), BitOf(y, 3));
    FourBits(BitOf(x, 2), BitOf(x, 3), BitOf(y, 0), BitOf(y, 1));
  }

  function After(q: nat): (r: nat)
    requires q < 7
    ensures r < 7
  {
    if q == 6 then 0 else q + 1
  }

  lemma OnceAt(c: seq<int>, n: seq<int>, q: nat)
    requires |c| == |n| == 7 && Once(c, n) && q < 7
    ensures n[q] == c[q] * 2 % 16 + c[After(q)] / 8
  {
    if q < 3 {
      assert q == 0 || q == 1 || q == 2;
    } else {
      assert q == 3 || q == 4 || q == 5 || q == 6;
    }
  }

  lemma TwiceAt(c: seq<int>, n: seq<int>, q: nat)
    requires |c| == |n| == 7 && Twice(c, n) && q < 7
    ensures n[q] == c[q] * 4 % 16 + c[After(q)] / 4
  {
    if q < 3 {
      assert q == 0 || q == 1 || q == 2;
    } else {
      assert q == 3 || q == 4 || q == 5 || q == 6;
    }
  }

  /** The place `t` bits behind bit `j`, and its digit. */
  lemma TurnPlace(j: nat, t: nat)
    requires j < 28 && t < 4
    ensures var i := (j + t) % 28;
            i % 4 == (j % 4 + t) % 4 && i / 4 == if j % 4 + t < 4 then j / 4 else After(j / 4)
  {
    var q, p := j / 4, j % 4;
    assert j == 4 * q + p && j + t == 4 * q + (p + t);
    if j + t >= 28 {
      assert q == 6 && (j + t) % 28 == j + t - 28;
    }
  }

  lemma OnceDigit(c: seq<int>, n: seq<int>, q: nat)
    requires |c| == |n| == 7 && Digits(c) && Once(c, n) && q < 7
    ensures 0 <= n[q] < 16
    ensures BitOf(n[q], 0) == BitOf(c[q], 1)
    ensures BitOf(n[q], 1) == BitOf(c[q], 2)
    ensures BitOf(n[q], 2) == BitOf(c[q], 3)
    ensures BitOf(n[q], 3) == BitOf(c[After(q)], 0)
  {
    hide BitOf, Once, After;
    OnceAt(c, n, q);
    OnceBits(c[q], c[After(q)]);
  }

  lemma OnceHex(c: seq<int>, n: seq<int>)
    requires |c| == |n| == 7 && Digits(c) && Once(c, n)
    ensures Turned(Hex(c), 1) == Hex(n) && Digits(n)
  {
    hide BitOf, Once, After;
    forall j: nat | j < 28
      ensures 0 <= n[j / 4] < 16 && Turned(Hex(c), 1)[j] == Hex(n)[j]
    {
      TurnPlace(j, 1);
      OnceDigit(c, n, j / 4);
    }
    forall q: nat | q < 7
      ensures 0 <= n[q] < 16
    {
      OnceDigit(c, n, q);
    }
  }

  lemma TwiceDigit(c: seq<int>, n: seq<int>, q: nat)
    requires |c| == |n| == 7 && Digits(c) && Twice(c, n) && q < 7
    ensures 0 <= n[q] < 16
    ensures BitOf(n[q], 0) == BitOf(c[q], 2)
    ensures BitOf(n[q], 1) == BitOf(c[q], 3)
    ensures BitOf(n[q], 2) == BitOf(c[After(q)], 0)
    ensures BitOf(n[q], 3) == BitOf(c[After(q)], 1)
  {
    hide BitOf, Twice, After;
    TwiceAt(c, n, q);
    TwiceBits(c[q], c[After(q)]);
  }

  lemma TwiceHex(c: seq<int>, n: seq<int>)
    requires |c| == |n| == 7 && Digits(c) && Twice(c, n)
    ensures Turned(Hex(c), 2) == Hex(n) && Digits(n)
  {
    hide BitOf, Twice, After;
    forall j: nat | j < 28
      ensures 0 <= n[j / 4] < 16 && Turned(Hex(c), 2)[j] == Hex(n)[j]
    {
      TurnPlace(j, 2);
      TwiceDigit(c, n, j / 4);
    }
    forall q: nat | q < 7
      ensures 0 <= n[q] < 16
    {
      TwiceDigit(c, n, q);
    }
  }

  /** The key `k` is picked from the turned halves. */
  predicate Picked(c: seq<int>, d: seq<int>, k: seq<int>)
    requires |c| == |d| == 7 && |k| == 12
  {
    PlacesPC2C();
    PlacesPC2D();
    && Digit(c, PC2_C[0][0] - 1) == BitOf(k[0], 0) && Digit(c, PC2_C[0][1] - 1) == BitOf(k[0], 1)
    && Digit(c, PC2_C[0][2] - 1) == BitOf(k[0], 2) && Digit(c, PC2_C[0][3] - 1) == BitOf(k[0], 3)
    && Digit(c, PC2_C[0][4] - 1) == BitOf(k[1], 0) && Digit(c, PC2_C[0][5] - 1) == BitOf(k[1], 1)
    && Digit(c, PC2_C[1][0] - 1) == BitOf(k[1], 2) && Digit(c, PC2_C[1][1] - 1) == BitOf(k[1], 3)
    && Digit(c, PC2_C[1][2] - 1) == BitOf(k[2], 0) && Digit(c, PC2_C[1][3] - 1) == BitOf(k[2], 1)
    && Digit(c, PC2_C[1][4] - 1) == BitOf(k[2], 2) && Digit(c, PC2_C[1][5] - 1) == BitOf(k[2], 3)
    && Digit(c, PC2_C[2][0] - 1) == BitOf(k[3], 0) && Digit(c, PC2_C[2][1] - 1) == BitOf(k[3], 1)
    && Digit(c, PC2_C[2][2] - 1) == BitOf(k[3], 2) && Digit(c, PC2_C[2][3] - 1) == BitOf(k[3], 3)
    && Digit(c, PC2_C[2][4] - 1) == BitOf(k[4], 0) && Digit(c, PC2_C[2][5] - 1) == BitOf(k[4], 1)
    && Digit(c, PC2_C[3][0] - 1) == BitOf(k[4], 2) && Digit(c, PC2_C[3][1] - 1) == BitOf(k[4], 3)
    && Digit(c, PC2_C[3][2] - 1) == BitOf(k[5], 0) && Digit(c, PC2_C[3][3] - 1) == BitOf(k[5], 1)
    && Digit(c, PC2_C[3][4] - 1) == BitOf(k[5], 2) && Digit(c, PC2_C[3][5] - 1) == BitOf(k[5], 3)
    && Digit(d, PC2_D[0][0] - 29) == BitOf(k[6], 0) && Digit(d, PC2_D[0][1] - 29) == BitOf(k[6], 1)
    && Digit(d, PC2_D[0][2] - 29) == BitOf(k[6], 2) && Digit(d, PC2_D[0][3] - 29) == BitOf(k[6], 3)
    && Digit(d, PC2_D[0][4] - 29) == BitOf(k[7], 0) && Digit(d, PC2_D[0][5] - 29) == BitOf(k[7], 1)
    && Digit(d, PC2_D[1][0] - 29) == BitOf(k[7], 2) && Digit(d, PC2_D[1][1] - 29) == BitOf(k[7], 3)
    && Digit(d, PC2_D[1][2] - 29) == BitOf(k[8], 0) && Digit(d, PC2_D[1][3] - 29) == BitOf(k[8], 1)
    && Digit(d, PC2_D[1][4] - 29) == BitOf(k[8], 2) && Digit(d, PC2_D[1][5] - 29) == BitOf(k[8], 3)
    && Digit(d, PC2_D[2][0] - 29) == BitOf(k[9], 0) && Digit(d, PC2_D[2][1] - 29) == BitOf(k[9], 1)
    && Digit(d, PC2_D[2][2] - 29) == BitOf(k[9], 2) && Digit(d, PC2_D[2][3] - 29) == BitOf(k[9], 3)
    && Digit(d, PC2_D[2][4] - 29) == BitOf(k[10], 0) && Digit(d, PC2_D[2][5] - 29) == BitOf(k[10], 1)
    && Digit(d, PC2_D[3][0] - 29) == BitOf(k[10], 2) && Digit(d, PC2_D[3][1] - 29) == BitOf(k[10], 3)
    && Digit(d, PC2_D[3][2] - 29) == BitOf(k[11], 0) && Digit(d, PC2_D[3][3] - 29) == BitOf(k[11], 1)
    && Digit(d, PC2_D[3][4] - 29) == BitOf(k[11], 2) && Digit(d, PC2_D[3][5] - 29) == BitOf(k[11], 3)
  }

  lemma PickedLeft(c: seq<int>, d: seq<int>, k: seq<int>, r: nat, j: nat)
    requires |c| == |d| == 7 && |k| == 12 && Picked(c, d, k) && r < 4 && j < 6
    ensures |PC2_C| == 4 && |PC2_C[r]| == 6 && 1 <= PC2_C[r][j] <= 28
    ensures Digit(c, PC2_C[r][j] - 1) == Digit(k, 6 * r + j)
  {
    PlacesPC2C();
    hide BitOf;
    assert r == 0 || r == 1 || r == 2 || r == 3;
    assert j == 0 || j == 1 || j == 2 || j == 3 || j == 4 || j == 5;
  }

  lemma PickedRight(c: seq<int>, d: seq<int>, k: seq<int>, r: nat, j: nat)
    requires |c| == |d| == 7 && |k| == 12 && Picked(c, d, k) && r < 4 && j < 6
    ensures |PC2_D| == 4 && |PC2_D[r]| == 6 && 29 <= PC2_D[r][j] <= 56
    ensures Digit(d, PC2_D[r][j] - 29) == Digit(k, 24 + 6 * r + j)
  {
    PlacesPC2D();
    hide BitOf;
    assert r == 0 || r == 1 || r == 2 || r == 3;
    assert j == 0 || j == 1 || j == 2 || j == 3 || j == 4 || j == 5;
  }

  lemma PickHex(c: seq<int>, d: seq<int>, k: seq<int>)
    requires |c| == |d| == 7 && |k| == 12 && Picked(c, d, k)
    ensures Places(PC2_C, 4, 6, 1, 28) && Places(PC2_D, 4, 6, 29, 56)
    ensures Permute(Hex(c), PC2_C, 4, 6, 1) + Permute(Hex(d), PC2_D, 4, 6, 29) == Hex(k)
  {
    hide Picked, BitOf;
    PlacesPC2C();
    PlacesPC2D();
    var a, b := Permute(Hex(c), PC2_C, 4, 6, 1), Permute(Hex(d), PC2_D, 4, 6, 29);
    forall i | 0 <= i < 24
      ensures a[i] == Hex(k)[i] && b[i] == Hex(k)[24 + i]
    {
      hide Places;
      PickedLeft(c, d, k, i / 6, i % 6);
      PickedRight(c, d, k, i / 6, i % 6);
      assert 6 * (i / 6) + i % 6 == i;
    }
    assert a + b == Hex(k);
  }

  // ----- the other permutations -----

  /** The digits `h` are the bits of `b` in the order of the initial permutation. */
  predicate Starts(b: seq<int>, h: seq<int>)
    requires |b| == |h| == 16
  {
    StartsAbove(b, h) && StartsBelow(b, h)
  }

  predicate StartsAbove(b: seq<int>, h: seq<int>)
    requires |b| == |h| == 16
  {
    PlacesIP();
    && Digit(b, IP[0][0] - 1) == BitOf(h[0], 0) && Digit(b, IP[0][1] - 1) == BitOf(h[0], 1)
    && Digit(b, IP[0][2] - 1) == BitOf(h[0], 2) && Digit(b, IP[0][3] - 1) == BitOf(h[0], 3)
    && Digit(b, IP[0][4] - 1) == BitOf(h[1], 0) && Digit(b, IP[0][5] - 1) == BitOf(h[1], 1)
    && Digit(b, IP[0][6] - 1) == BitOf(h[1], 2) && Digit(b, IP[0][7] - 1) == BitOf(h[1], 3)
    && Digit(b, IP[1][0] - 1) == BitOf(h[2], 0) && Digit(b, IP[1][1] - 1) == BitOf(h[2], 1)
    && Digit(b, IP[1][2] - 1) == BitOf(h[2], 2) && Digit(b, IP[1][3] - 1) == BitOf(h[2], 3)
    && Digit(b, IP[1][4] - 1) == BitOf(h[3], 0) && Digit(b, IP[1][5] - 1) == BitOf(h[3], 1)
    && Digit(b, IP[1][6] - 1) == BitOf(h[3], 2) && Digit(b, IP[1][7] - 1) == BitOf(h[3], 3)
    && Digit(b, IP[2][0] - 1) == BitOf(h[4], 0) && Digit(b, IP[2][1] - 1) == BitOf(h[4], 1)
    && Digit(b, IP[2][2] - 1) == BitOf(h[4], 2) && Digit(b, IP[2][3] - 1) == BitOf(h[4], 3)
    && Digit(b, IP[2][4] - 1) == BitOf(h[5], 0) && Digit(b, IP[2][5] - 1) == BitOf(h[5], 1)
    && Digit(b, IP[2][6] - 1) == BitOf(h[5], 2) && Digit(b, IP[2][7] - 1) == BitOf(h[5], 3)
    && Digit(b, IP[3][0] - 1) == BitOf(h[6], 0) && Digit(b, IP[3][1] - 1) == BitOf(h[6], 1)
    && Digit(b, IP[3][2] - 1) == BitOf(h[6], 2) && Digit(b, IP[3][3] - 1) == BitOf(h[6], 3)
    && Digit(b, IP[3][4] - 1) == BitOf(h[7], 0) && Digit(b, IP[3][5] - 1) == BitOf(h[7], 1)
    && Digit(b, IP[3][6] - 1) == BitOf(h[7], 2) && Digit(b, IP[3][7] - 1) == BitOf(h[7], 3)
  }

  predicate StartsBelow(b: seq<int>, h: seq<int>)
    requires |b| == |h| == 16
  {
    PlacesIP();
    && Digit(b, IP[4][0] - 1) == BitOf(h[8], 0) && Digit(b, IP[4][1] - 1) == BitOf(h[8], 1)
    && Digit(b, IP[4][2] - 1) == BitOf(h[8], 2) && Digit(b, IP[4][3] - 1) == BitOf(h[8], 3)
    && Digit(b, IP[4][4] - 1) == BitOf(h[9], 0) && Digit(b, IP[4][5] - 1) == BitOf(h[9], 1)
    && Digit(b, IP[4][6] - 1) == BitOf(h[9], 2) && Digit(b, IP[4][7] - 1) == BitOf(h[9], 3)
    && Digit(b, IP[5][0] - 1) == BitOf(h[10], 0) && Digit(b, IP[5][1] - 1) == BitOf(h[10], 1)
    && Digit(b, IP[5][2] - 1) == BitOf(h[10], 2) && Digit(b, IP[5][3] - 1) == BitOf(h[10], 3)
    && Digit(b, IP[5][4] - 1) == BitOf(h[11], 0) && Digit(b, IP[5][5] - 1) == BitOf(h[11], 1)
    && Digit(b, IP[5][6] - 1) == BitOf(h[11], 2) && Digit(b, IP[5][7] - 1) == BitOf(h[11], 3)
    && Digit(b, IP[6][0] - 1) == BitOf(h[12], 0) && Digit(b, IP[6][1] - 1) == BitOf(h[12], 1)
    && Digit(b, IP[6][2] - 1) == BitOf(h[12], 2) && Digit(b, IP[6][3] - 1) == BitOf(h[12], 3)
    && Digit(b, IP[6][4] - 1) == BitOf(h[13], 0) && Digit(b, IP[6][5] - 1) == BitOf(h[13], 1)
    && Digit(b, IP[6][6] - 1) == BitOf(h[13], 2) && Digit(b, IP[6][7] - 1) == BitOf(h[13], 3)
    && Digit(b, IP[7][0] - 1) == BitOf(h[14], 0) && Digit(b, IP[7][1] - 1) == BitOf(h[14], 1)
    && Digit(b, IP[7][2] - 1) == BitOf(h[14], 2) && Digit(b, IP[7][3] - 1) == BitOf(h[14], 3)
    && Digit(b, IP[7][4] - 1) == BitOf(h[15], 0) && Digit(b, IP[7][5] - 1) == BitOf(h[15], 1)
    && Digit(b, IP[7][6] - 1) == BitOf(h[15], 2) && Digit(b, IP[7][7] - 1) == BitOf(h[15], 3)
  }

  lemma StartsAt(b: seq<int>, h: seq<int>, r: nat, c: nat)
    requires |b| == |h| == 16 && Starts(b, h) && r < 8 && c < 8
    ensures |IP| == 8 && |IP[r]| == 8 && 1 <= IP[r][c] <= 64 && Digit(b, IP[r][c] - 1) == Digit(h, 8 * r + c)
  {
    PlacesIP();
    hide BitOf;
    assert r == 0 || r == 1 || r == 2 || r == 3 || r == 4 || r == 5 || r == 6 || r == 7;
    assert c == 0 || c == 1 || c == 2 || c == 3 || c == 4 || c == 5 || c == 6 || c == 7;
  }

  lemma StartsHex(b: seq<int>, h: seq<int>)
    requires |b| == |h| == 16 && Starts(b, h)
    ensures Places(IP, 8, 8, 1, 64) && Permute(Hex(b), IP, 8, 8, 1) == Hex(h)
  {
    hide Starts, BitOf;
    PlacesIP();
    forall i | 0 <= i < 64
      ensures Permute(Hex(b), IP, 8, 8, 1)[i] == Hex(h)[i]
    {
      hide Places;
      StartsAt(b, h, i / 8, i % 8);
      assert 8 * (i / 8) + i % 8 == i;
    }
  }

  /** The digits `h` are the bits of `b` in the order of the final permutation. */
  predicate Ends(b: seq<int>, h: seq<int>)
    requires |b| == |h| == 16
  {
    EndsAbove(b, h) && EndsBelow(b, h)
  }

  predicate EndsAbove(b: seq<int>, h: seq<int>)
    requires |b| == |h| == 16
  {
    PlacesFP();
    && Digit(b, FP[0][0] - 1) == BitOf(h[0], 0) && Digit(b, FP[0][1] - 1) == BitOf(h[0], 1)
    && Digit(b, FP[0][2] - 1) == BitOf(h[0], 2) && Digit(b, FP[0][3] - 1) == BitOf(h[0], 3)
    && Digit(b, FP[0][4] - 1) == BitOf(h[1], 0) && Digit(b, FP[0][5] - 1) == BitOf(h[1], 1)
    && Digit(b, FP[0][6] - 1) == BitOf(h[1], 2) && Digit(b, FP[0][7] - 1) == BitOf(h[1], 3)
    && Digit(b, FP[1][0] - 1) == BitOf(h[2], 0) && Digit(b, FP[1][1] - 1) == BitOf(h[2], 1)
    && Digit(b, FP[1][2] - 1) == BitOf(h[2], 2) && Digit(b, FP[1][3] - 1) == BitOf(h[2], 3)
    && Digit(b, FP[1][4] - 1) == BitOf(h[3], 0) && Digit(b, FP[1][5] - 1) == BitOf(h[3], 1)
    && Digit(b, FP[1][6] - 1) == BitOf(h[3], 2) && Digit(b, FP[1][7] - 1) == BitOf(h[3], 3)
    && Digit(b, FP[2][0] - 1) == BitOf(h[4], 0) && Digit(b, FP[2][1] - 1) == BitOf(h[4], 1)
    && Digit(b, FP[2][2] - 1) == BitOf(h[4], 2) && Digit(b, FP[2][3] - 1) == BitOf(h[4], 3)
    && Digit(b, FP[2][4] - 1) == BitOf(h[5], 0) && Digit(b, FP[2][5] - 1) == BitOf(h[5], 1)
    && Digit(b, FP[2][6] - 1) == BitOf(h[5], 2) && Digit(b, FP[2][7] - 1) == BitOf(h[5], 3)
    && Digit(b, FP[3][0] - 1) == BitOf(h[6], 0) && Digit(b, FP[3][1] - 1) == BitOf(h[6], 1)
    && Digit(b, FP[3][2] - 1) == BitOf(h[6], 2) && Digit(b, FP[3][3] - 1) == BitOf(h[6], 3)
    && Digit(b, FP[3][4] - 1) == BitOf(h[7], 0) && Digit(b, FP[3][5] - 1) == BitOf(h[7], 1)
    && Digit(b, FP[3][6] - 1) == BitOf(h[7], 2) && Digit(b, FP[3][7] - 1) == BitOf(h[7], 3)
  }

  predicate EndsBelow(b: seq<int>, h: seq<int>)
    requires |b| == |h| == 16
  {
    PlacesFP();
    && Digit(b, FP[4][0] - 1) == BitOf(h[8], 0) && Digit(b, FP[4][1] - 1) == BitOf(h[8], 1)
    && Digit(b, FP[4][2] - 1) == BitOf(h[8], 2) && Digit(b, FP[4][3] - 1) == BitOf(h[8], 3)
    && Digit(b, FP[4][4] - 1) == BitOf(h[9], 0) && Digit(b, FP[4][5] - 1) == BitOf(h[9], 1)
    && Digit(b, FP[4][6] - 1) == BitOf(h[9], 2) && Digit(b, FP[4][7] - 1) == BitOf(h[9], 3)
    && Digit(b, FP[5][0] - 1) == BitOf(h[10], 0) && Digit(b, FP[5][1] - 1) == BitOf(h[10], 1)
    && Digit(b, FP[5][2] - 1) == BitOf(h[10], 2) && Digit(b, FP[5][3] - 1) == BitOf(h[10], 3)
    && Digit(b, FP[5][4] - 1) == BitOf(h[11], 0) && Digit(b, FP[5][5] - 1) == BitOf(h[11], 1)
    && Digit(b, FP[5][6] - 1) == BitOf(h[11], 2) && Digit(b, FP[5][7] - 1) == BitOf(h[11], 3)
    && Digit(b, FP[6][0] - 1) == BitOf(h[12], 0) && Digit(b, FP[6][1] - 1) == BitOf(h[12], 1)
    && Digit(b, FP[6][2] - 1) == BitOf(h[12], 2) && Digit(b, FP[6][3] - 1) == BitOf(h[12], 3)
    && Digit(b, FP[6][4] - 1) == BitOf(h[13], 0) && Digit(b, FP[6][5] - 1) == BitOf(h[13], 1)
    && Digit(b, FP[6][6] - 1) == BitOf(h[13], 2) && Digit(b, FP[6][7] - 1) == BitOf(h[13], 3)
    && Digit(b, FP[7][0] - 1) == BitOf(h[14], 0) && Digit(b, FP[7][1] - 1) == BitOf(h[14], 1)
    && Digit(b, FP[7][2] - 1) == BitOf(h[14], 2) && Digit(b, FP[7][3] - 1) == BitOf(h[14], 3)
    && Digit(b, FP[7][4] - 1) == BitOf(h[15], 0) && Digit(b, FP[7][5] - 1) == BitOf(h[15], 1)
    && Digit(b, FP[7][6] - 1) == BitOf(h[15], 2) && Digit(b, FP[7][7] - 1) == BitOf(h[15], 3)
  }

  lemma EndsAt(b: seq<int>, h: seq<int>, r: nat, c: nat)
    requires |b| == |h| == 16 && Ends(b, h) && r < 8 && c < 8
    ensures |FP| == 8 && |FP[r]| == 8 && 1 <= FP[r][c] <= 64 && Digit(b, FP[r][c] - 1) == Digit(h, 8 * r + c)
  {
    PlacesFP();
    hide BitOf;
    assert r == 0 || r == 1 || r == 2 || r == 3 || r == 4 || r == 5 || r == 6 || r == 7;
    assert c == 0 || c == 1 || c == 2 || c == 3 || c == 4 || c == 5 || c == 6 || c == 7;
  }

  lemma EndsHex(b: seq<int>, h: seq<int>)
    requires |b| == |h| == 16 && Ends(b, h)
    ensures Places(FP, 8, 8, 1, 64) && Permute(Hex(b), FP, 8, 8, 1) == Hex(h)
  {
    hide Ends, BitOf;
    PlacesFP();
    forall i | 0 <= i < 64
      ensures Permute(Hex(b), FP, 8, 8, 1)[i] == Hex(h)[i]
    {
      hide Places;
      EndsAt(b, h, i / 8, i % 8);
      assert 8 * (i / 8) + i % 8 == i;
    }
  }

  /** The digits `h` are the left half of the key `b`. */
  predicate LeftOf(b: seq<int>, h: seq<int>)
    requires |b| == 16 && |h| == 7
  {
    PlacesPC1C();
    && Digit(b, PC1_C[0][0] - 1) == BitOf(h[0], 0) && Digit(b, PC1_C[0][1] - 1) == BitOf(h[0], 1)
    && Digit(b, PC1_C[0][2] - 1) == BitOf(h[0], 2) && Digit(b, PC1_C[0][3] - 1) == BitOf(h[0], 3)
    && Digit(b, PC1_C[0][4] - 1) == BitOf(h[1], 0) && Digit(b, PC1_C[0][5] - 1) == BitOf(h[1], 1)
    && Digit(b, PC1_C[0][6] - 1) == BitOf(h[1], 2)
    && Digit(b, PC1_C[1][0] - 1) == BitOf(h[1], 3) && Digit(b, PC1_C[1][1] - 1) == BitOf(h[2], 0)
    && Digit(b, PC1_C[1][2] - 1) == BitOf(h[2], 1) && Digit(b, PC1_C[1][3] - 1) == BitOf(h[2], 2)
    && Digit(b, PC1_C[1][4] - 1) == BitOf(h[2], 3) && Digit(b, PC1_C[1][5] - 1) == BitOf(h[3], 0)
    && Digit(b, PC1_C[1][6] - 1) == BitOf(h[3], 1)
    && Digit(b, PC1_C[2][0] - 1) == BitOf(h[3], 2) && Digit(b, PC1_C[2][1] - 1) == BitOf(h[3], 3)
    && Digit(b, PC1_C[2][2] - 1) == BitOf(h[4], 0) && Digit(b, PC1_C[2][3] - 1) == BitOf(h[4], 1)
    && Digit(b, PC1_C[2][4] - 1) == BitOf(h[4], 2) && Digit(b, PC1_C[2][5] - 1) == BitOf(h[4], 3)
    && Digit(b, PC1_C[2][6] - 1) == BitOf(h[5], 0)
    && Digit(b, PC1_C[3][0] - 1) == BitOf(h[5], 1) && Digit(b, PC1_C[3][1] - 1) == BitOf(h[5], 2)
    && Digit(b, PC1_C[3][2] - 1) == BitOf(h[5], 3) && Digit(b, PC1_C[3][3] - 1) == BitOf(h[6], 0)
    && Digit(b, PC1_C[3][4] - 1) == BitOf(h[6], 1) && Digit(b, PC1_C[3][5] - 1) == BitOf(h[6], 2)
    && Digit(b, PC1_C[3][6] - 1) == BitOf(h[6], 3)
  }

  lemma LeftOfAt(b: seq<int>, h: seq<int>, r: nat, c: nat)
    requires |b| == 16 && |h| == 7 && LeftOf(b, h) && r < 4 && c < 7
    ensures |PC1_C| == 4 && |PC1_C[r]| == 7 && 1 <= PC1_C[r][c] <= 64
    ensures Digit(b, PC1_C[r][c] - 1) == Digit(h, 7 * r + c)
  {
    PlacesPC1C();
    hide BitOf;
    assert r == 0 || r == 1 || r == 2 || r == 3;
    assert c == 0 || c == 1 || c == 2 || c == 3 || c == 4 || c == 5 || c == 6;
  }

  lemma LeftOfHex(b: seq<int>, h: seq<int>)
    requires |b| == 16 && |h| == 7 && LeftOf(b, h)
    ensures Places(PC1_C, 4, 7, 1, 64) && Permute(Hex(b), PC1_C, 4, 7, 1) == Hex(h)
  {
    hide LeftOf, BitOf;
    PlacesPC1C();
    forall i | 0 <= i < 28
      ensures Permute(Hex(b), PC1_C, 4, 7, 1)[i] == Hex(h)[i]
    {
      hide Places;
      LeftOfAt(b, h, i / 7, i % 7);
      assert 7 * (i / 7) + i % 7 == i;
    }
  }

  /** The digits `h` are the right half of the key `b`. */
  predicate RightOf(b: seq<int>, h: seq<int>)
    requires |b| == 16 && |h| == 7
  {
    PlacesPC1D();
    && Digit(b, PC1_D[0][0] - 1) == BitOf(h[0], 0) && Digit(b, PC1_D[0][1] - 1) == BitOf(h[0], 1)
    && Digit(b, PC1_D[0][2] - 1) == BitOf(h[0], 2) && Digit(b, PC1_D[0][3] - 1) == BitOf(h[0], 3)
    && Digit(b, PC1_D[0][4] - 1) == BitOf(h[1], 0) && Digit(b, PC1_D[0][5] - 1) == BitOf(h[1], 1)
    && Digit(b, PC1_D[0][6] - 1) == BitOf(h[1], 2)
    && Digit(b, PC1_D[1][0] - 1) == BitOf(h[1], 3) && Digit(b, PC1_D[1][1] - 1) == BitOf(h[2], 0)
    && Digit(b, PC1_D[1][2] - 1) == BitOf(h[2], 1) && Digit(b, PC1_D[1][3] - 1) == BitOf(h[2], 2)
    && Digit(b, PC1_D[1][4] - 1) == BitOf(h[2], 3) && Digit(b, PC1_D[1][5] - 1) == BitOf(h[3], 0)
    && Digit(b, PC1_D[1][6] - 1) == BitOf(h[3], 1)
    && Digit(b, PC1_D[2][0] - 1) == BitOf(h[3], 2) && Digit(b, PC1_D[2][1] - 1) == BitOf(h[3], 3)
    && Digit(b, PC1_D[2][2] - 1) == BitOf(h[4], 0) && Digit(b, PC1_D[2][3] - 1) == BitOf(h[4], 1)
    && Digit(b, PC1_D[2][4] - 1) == BitOf(h[4], 2) && Digit(b, PC1_D[2][5] - 1) == BitOf(h[4], 3)
    && Digit(b, PC1_D[2][6] - 1) == BitOf(h[5], 0)
    && Digit(b, PC1_D[3][0] - 1) == BitOf(h[5], 1) && Digit(b, PC1_D[3][1] - 1) == BitOf(h[5], 2)
    && Digit(b, PC1_D[3][2] - 1) == BitOf(h[5], 3) && Digit(b, PC1_D[3][3] - 1) == BitOf(h[6], 0)
    && Digit(b, PC1_D[3][4] - 1) == BitOf(h[6], 1) && Digit(b, PC1_D[3][5] - 1) == BitOf(h[6], 2)
    && Digit(b, PC1_D[3][6] - 1) == BitOf(h[6], 3)
  }

  lemma RightOfAt(b: seq<int>, h: seq<int>, r: nat, c: nat)
    requires |b| == 16 && |h| == 7 && RightOf(b, h) && r < 4 && c < 7
    ensures |PC1_D| == 4 && |PC1_D[r]| == 7 && 1 <= PC1_D[r][c] <= 64
    ensures Digit(b, PC1_D[r][c] - 1) == Digit(h, 7 * r + c)
  {
    PlacesPC1D();
    hide BitOf;
    assert r == 0 || r == 1 || r == 2 || r == 3;
    assert c == 0 || c == 1 || c == 2 || c == 3 || c == 4 || c == 5 || c == 6;
  }

  lemma RightOfHex(b: seq<int>, h: seq<int>)
    requires |b| == 16 && |h| == 7 && RightOf(b, h)
    ensures Places(PC1_D, 4, 7, 1, 64) && Permute(Hex(b), PC1_D, 4, 7, 1) == Hex(h)
  {
    hide RightOf, BitOf;
    PlacesPC1D();
    forall i | 0 <= i < 28
      ensures Permute(Hex(b), PC1_D, 4, 7, 1)[i] == Hex(h)[i]
    {
      hide Places;
      RightOfAt(b, h, i / 7, i % 7);
      assert 7 * (i / 7) + i % 7 == i;
    }
  }

  // ----- the turns of a table of half keys -----

  /** Row `i` of a table, turned by the shifts of round `i`, is the next row. */
  predicate Turns(t: seq<seq<int>>, i: nat)
    requires 1 <= i <= 16
  {
    ShiftCounts();
    && |t| == 18 && |t[i]| == |t[i + 1]| == 7
    && if SHIFTS[i - 1] == 1 then Once(t[i], t[i + 1]) else Twice(t[i], t[i + 1])
  }

  lemma TurnedMoreBy(c: seq<Bit>, n: nat, t: nat)
    requires |c| == 28 && t <= 28
    ensures Turned(Turned(c, n), t) == Turned(c, n + t)
  {
    forall j: nat | j < 28
      ensures Turned(Turned(c, n), t)[j] == Turned(c, n + t)[j]
    {
      WrappedPlace(j, n, t);
    }
  }

  lemma WrappedPlace(j: nat, n: nat, t: nat)
    requires j < 28 && t <= 28
    ensures ((j + t) % 28 + n) % 28 == (j + (n + t)) % 28
  {
    if j + t < 28 {
      assert (j + t) % 28 == j + t;
    } else {
      assert (j + t) % 28 == j + t - 28;
    }
  }

  lemma HalfTurns(k: seq<Bit>, n: nat, t: nat, c: seq<int>, c': seq<int>)
    requires |k| == 28 && |c| == |c'| == 7 && Digits(c) && Turned(k, n) == Hex(c)
    requires (t == 1 && Once(c, c')) || (t == 2 && Twice(c, c'))
    ensures Turned(k, n + t) == Hex(c') && Digits(c')
  {
    hide Turned, Hex, Once, Twice, Digits;
    TurnedMoreBy(k, n, t);
    if t == 1 {
      OnceHex(c, c');
    } else {
      TwiceHex(c, c');
    }
  }

  lemma ShiftNext(i: nat)
    requires 1 <= i <= 16
    ensures |SHIFTS| == 16 && 1 <= SHIFTS[i - 1] <= 2 && Shift(i) == Shift(i - 1) + SHIFTS[i - 1]
  {
    ShiftCounts();
  }

  /** The rows of a table are half a key after each round's turns. */
  lemma {:induction false} RowsTurned(k: seq<Bit>, t: seq<seq<int>>, i: nat)
    requires |k| == 28 && |t| == 18 && |t[1]| == 7 && Digits(t[1]) && Turned(k, 0) == Hex(t[1]) && i <= 16
    requires forall q: nat :: 1 <= q <= 16 ==> Turns(t, q)
    ensures |t[i + 1]| == 7 && Digits(t[i + 1]) && Turned(k, Shift(i)) == Hex(t[i + 1])
  {
    hide Turned, Hex, Once, Twice, Digits, Shift;
    if i == 0 {
      ShiftStart();
    } else {
      RowsTurned(k, t, i - 1);
      assert Turns(t, i);
      ShiftNext(i);
      HalfTurns(k, Shift(i - 1), SHIFTS[i - 1], t[i], t[i + 1]);
    }
  }
}

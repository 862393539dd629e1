/**
 A known answer of the cipher, worked out round by round: the key 133457799BBCDFF1 enciphers the block 0123456789ABCDEF
 to 85E813540F0AB405.
 */
module DesKnown {
  import opened Des
  import opened DesBoxes
  import opened DesCipher
  import opened DesDigits
  import opened DesTables

  const KEY: seq<int> := [1, 3, 3, 4, 5, 7, 7, 9, 9, 11, 11, 12, 13, 15, 15, 1]
  const BLOCK: seq<int> := [0, 1, 2, 3, 4, 5, 6, 7, 8, 9, 10, 11, 12, 13, 14, 15]
  const ANSWER: seq<int> := [8, 5, 14, 8, 1, 3, 5, 4, 0, 15, 0, 10, 11, 4, 0, 5]

  /** The left half of the key, and what it is after each round's turns. */
  const LEFT: seq<seq<int>> := [
    [],
    [15, 0, 12, 12, 10, 10, 15],
    [14, 1, 9, 9, 5, 5, 15],
    [12, 3, 3, 2, 10, 11, 15],
    [0, 12, 12, 10, 10, 15, 15],
    [3, 3, 2, 10, 11, 15, 12],
    [12, 12, 10, 10, 15, 15, 0],
    [3, 2, 10, 11, 15, 12, 3],
    [12, 10, 10, 15, 15, 0, 12],
    [2, 10, 11, 15, 12, 3, 3],
    [5, 5, 7, 15, 8, 6, 6],
    [5, 5, 15, 14, 1, 9, 9],
    [5, 7, 15, 8, 6, 6, 5],
    [5, 15, 14, 1, 9, 9, 5],
    [7, 15, 8, 6, 6, 5, 5],
    [15, 14, 1, 9, 9, 5, 5],
    [15, 8, 6, 6, 5, 5, 7],
    [15, 0, 12, 12, 10, 10, 15]]

  /** The right half of the key. */
  const RIGHT: seq<seq<int>> := [
    [],
    [5, 5, 6, 6, 7, 8, 15],
    [10, 10, 12, 12, 15, 1, 14],
    [5, 5, 9, 9, 14, 3, 13],
    [5, 6, 6, 7, 8, 15, 5],
    [5, 9, 9, 14, 3, 13, 5],
    [6, 6, 7, 8, 15, 5, 5],
    [9, 9, 14, 3, 13, 5, 5],
    [6, 7, 8, 15, 5, 5, 6],
    [9, 14, 3, 13, 5, 5, 9],
    [3, 12, 7, 10, 10, 11, 3],
    [15, 1, 14, 10, 10, 12, 12],
    [12, 7, 10, 10, 11, 3, 3],
    [1, 14, 10, 10, 12, 12, 15],
    [7, 10, 10, 11, 3, 3, 12],
    [14, 10, 10, 12, 12, 15, 1],
    [10, 10, 11, 3, 3, 12, 7],
    [5, 5, 6, 6, 7, 8, 15]]

  /** The key of each round. */
  const KEYS: seq<seq<int>> := [
    [],
    [1, 11, 0, 2, 14, 15, 15, 12, 7, 0, 7, 2],
    [7, 9, 10, 14, 13, 9, 13, 11, 12, 9, 14, 5],
    [5, 5, 15, 12, 8, 10, 4, 2, 12, 15, 9, 9],
    [7, 2, 10, 13, 13, 6, 13, 11, 3, 5, 1, 13],
    [7, 12, 14, 12, 0, 7, 14, 11, 5, 3, 10, 8],
    [6, 3, 10, 5, 3, 14, 5, 0, 7, 11, 2, 15],
    [14, 12, 8, 4, 11, 7, 15, 6, 1, 8, 11, 12],
    [15, 7, 8, 10, 3, 10, 12, 1, 3, 11, 15, 11],
    [14, 0, 13, 11, 14, 11, 14, 13, 14, 7, 8, 1],
    [11, 1, 15, 3, 4, 7, 11, 10, 4, 6, 4, 15],
    [2, 1, 5, 15, 13, 3, 13, 14, 13, 3, 8, 6],
    [7, 5, 7, 1, 15, 5, 9, 4, 6, 7, 14, 9],
    [9, 7, 12, 5, 13, 1, 15, 10, 11, 10, 4, 1],
    [5, 15, 4, 3, 11, 7, 15, 2, 14, 7, 3, 10],
    [11, 15, 9, 1, 8, 13, 3, 13, 3, 15, 0, 10],
    [12, 11, 3, 13, 8, 11, 0, 14, 1, 7, 15, 5]]

  /** The left half of the block and then the right half after each number of rounds. */
  const HALVES: seq<seq<int>> := [
    [],
    [12, 12, 0, 0, 12, 12, 15, 15],
    [15, 0, 10, 10, 15, 0, 10, 10],
    [14, 15, 4, 10, 6, 5, 4, 4],
    [12, 12, 0, 1, 7, 7, 0, 9],
    [10, 2, 5, 12, 0, 11, 15, 4],
    [7, 7, 2, 2, 0, 0, 4, 5],
    [8, 10, 4, 15, 10, 6, 3, 7],
    [14, 9, 6, 7, 12, 13, 6, 9],
    [0, 6, 4, 10, 11, 10, 1, 0],
    [13, 5, 6, 9, 4, 11, 9, 0],
    [2, 4, 7, 12, 12, 6, 7, 10],
    [11, 7, 13, 5, 13, 7, 11, 2],
    [12, 5, 7, 8, 3, 12, 7, 8],
    [7, 5, 11, 13, 1, 8, 5, 8],
    [1, 8, 12, 3, 1, 5, 5, 10],
    [12, 2, 8, 12, 9, 6, 0, 13],
    [4, 3, 4, 2, 3, 2, 3, 4],
    [0, 10, 4, 12, 13, 9, 9, 5]]

  /** What the selection functions give in each round. */
  const OUTS: seq<seq<int>> := [
    [],
    [5, 12, 8, 2, 11, 5, 9, 7],
    [15, 8, 13, 0, 3, 10, 10, 14],
    [2, 7, 1, 0, 14, 1, 6, 15],
    [2, 1, 14, 13, 9, 15, 3, 10],
    [5, 0, 12, 8, 3, 1, 14, 11],
    [4, 1, 15, 3, 4, 12, 3, 13],
    [1, 0, 7, 5, 4, 0, 10, 13],
    [6, 12, 1, 8, 7, 12, 10, 14],
    [1, 1, 0, 12, 5, 7, 7, 7],
    [13, 10, 0, 4, 5, 2, 7, 5],
    [7, 3, 0, 5, 13, 1, 0, 1],
    [7, 11, 8, 11, 2, 6, 3, 5],
    [9, 10, 13, 1, 8, 11, 4, 15],
    [6, 4, 7, 9, 9, 10, 15, 1],
    [11, 2, 14, 8, 8, 13, 3, 12],
    [10, 7, 8, 3, 2, 4, 2, 9]]

  // Rounds are counted from 1.

  predicate KeyTurned(i: nat)
    requires 1 <= i <= 16
  {
    Turns(LEFT, i) && Turns(RIGHT, i)
  }

  predicate KeyPicked(i: nat)
    requires 1 <= i <= 16
  {
    && |LEFT| == |RIGHT| == 18 && |KEYS| == 17 && |LEFT[i + 1]| == |RIGHT[i + 1]| == 7 && |KEYS[i]| == 12
    && Picked(LEFT[i + 1], RIGHT[i + 1], KEYS[i])
  }

  predicate Selects(i: nat)
    requires 1 <= i <= 16
  {
    && |HALVES| == 19 && |KEYS| == |OUTS| == 17 && |HALVES[i + 1]| == |OUTS[i]| == 8 && |KEYS[i]| == 12
    && Outs(HALVES[i + 1], KEYS[i], OUTS[i])
  }

  predicate Mixes(i: nat)
    requires 1 <= i <= 16
  {
    && |HALVES| == 19 && |OUTS| == 17 && |HALVES[i]| == |HALVES[i + 2]| == |OUTS[i]| == 8
    && Mixed(HALVES[i], OUTS[i], HALVES[i + 2])
  }

  lemma Turned1()
    ensures KeyTurned(1)
  {
  }

  lemma Picked1()
    ensures KeyPicked(1)
  {
    hide BitOf;
    NibbleBits();
  }

  lemma Selects1()
    ensures Selects(1)
  {
    hide BitOf;
    NibbleBits();
  }

  lemma Mixes1()
    ensures Mixes(1)
  {
    hide BitOf;
    NibbleBits();
  }

  lemma Turned2()
    ensures KeyTurned(2)
  {
  }

  lemma Picked2()
    ensures KeyPicked(2)
  {
    hide BitOf;
    NibbleBits();
  }

  lemma Selects2()
    ensures Selects(2)
  {
    hide BitOf;
    NibbleBits();
  }

  lemma Mixes2()
    ensures Mixes(2)
  {
    hide BitOf;
    NibbleBits();
  }

  lemma Turned3()
    ensures KeyTurned(3)
  {
  }

  lemma Picked3()
    ensures KeyPicked(3)
  {
    hide BitOf;
    NibbleBits();
  }

  lemma Selects3()
    ensures Selects(3)
  {
    hide BitOf;
    NibbleBits();
  }

  lemma Mixes3()
    ensures Mixes(3)
  {
    hide BitOf;
    NibbleBits();
  }

  lemma Turned4()
    ensures KeyTurned(4)
  {
  }

  lemma Picked4()
    ensures KeyPicked(4)
  {
    hide BitOf;
    NibbleBits();
  }

  lemma Selects4()
    ensures Selects(4)
  {
    hide BitOf;
    NibbleBits();
  }

  lemma Mixes4()
    ensures Mixes(4)
  {
    hide BitOf;
    NibbleBits();
  }

  lemma Turned5()
    ensures KeyTurned(5)
  {
  }

  lemma Picked5()
    ensures KeyPicked(5)
  {
    hide BitOf;
    NibbleBits();
  }

  lemma Selects5()
    ensures Selects(5)
  {
    hide BitOf;
    NibbleBits();
  }

  lemma Mixes5()
    ensures Mixes(5)
  {
    hide BitOf;
    NibbleBits();
  }

  lemma Turned6()
    ensures KeyTurned(6)
  {
  }

  lemma Picked6()
    ensures KeyPicked(6)
  {
    hide BitOf;
    NibbleBits();
  }

  lemma Selects6()
    ensures Selects(6)
  {
    hide BitOf;
    NibbleBits();
  }

  lemma Mixes6()
    ensures Mixes(6)
  {
    hide BitOf;
    NibbleBits();
  }

  lemma Turned7()
    ensures KeyTurned(7)
  {
  }

  lemma Picked7()
    ensures KeyPicked(7)
  {
    hide BitOf;
    NibbleBits();
  }

  lemma Selects7()
    ensures Selects(7)
  {
    hide BitOf;
    NibbleBits();
  }

  lemma Mixes7()
    ensures Mixes(7)
  {
    hide BitOf;
    NibbleBits();
  }

  lemma Turned8()
    ensures KeyTurned(8)
  {
  }

  lemma Picked8()
    ensures KeyPicked(8)
  {
    hide BitOf;
    NibbleBits();
  }

  lemma Selects8()
    ensures Selects(8)
  {
    hide BitOf;
    NibbleBits();
  }

  lemma Mixes8()
    ensures Mixes(8)
  {
    hide BitOf;
    NibbleBits();
  }

  lemma Turned9()
    ensures KeyTurned(9)
  {
  }

  lemma Picked9()
    ensures KeyPicked(9)
  {
    hide BitOf;
    NibbleBits();
  }

  lemma Selects9()
    ensures Selects(9)
  {
    hide BitOf;
    NibbleBits();
  }

  lemma Mixes9()
    ensures Mixes(9)
  {
    hide BitOf;
    NibbleBits();
  }

  lemma Turned10()
    ensures KeyTurned(10)
  {
  }

  lemma Picked10()
    ensures KeyPicked(10)
  {
    hide BitOf;
    NibbleBits();
  }

  lemma Selects10()
    ensures Selects(10)
  {
    hide BitOf;
    NibbleBits();
  }

  lemma Mixes10()
    ensures Mixes(10)
  {
    hide BitOf;
    NibbleBits();
  }

  lemma Turned11()
    ensures KeyTurned(11)
  {
  }

  lemma Picked11()
    ensures KeyPicked(11)
  {
    hide BitOf;
    NibbleBits();
  }

  lemma Selects11()
    ensures Selects(11)
  {
    hide BitOf;
    NibbleBits();
  }

  lemma Mixes11()
    ensures Mixes(11)
  {
    hide BitOf;
    NibbleBits();
  }

  lemma Turned12()
    ensures KeyTurned(12)
  {
  }

  lemma Picked12()
    ensures KeyPicked(12)
  {
    hide BitOf;
    NibbleBits();
  }

  lemma Selects12()
    ensures Selects(12)
  {
    hide BitOf;
    NibbleBits();
  }

  lemma Mixes12()
    ensures Mixes(12)
  {
    hide BitOf;
    NibbleBits();
  }

  lemma Turned13()
    ensures KeyTurned(13)
  {
  }

  lemma Picked13()
    ensures KeyPicked(13)
  {
    hide BitOf;
    NibbleBits();
  }

  lemma Selects13()
    ensures Selects(13)
  {
    hide BitOf;
    NibbleBits();
  }

  lemma Mixes13()
    ensures Mixes(13)
  {
    hide BitOf;
    NibbleBits();
  }

  lemma Turned14()
    ensures KeyTurned(14)
  {
  }

  lemma Picked14()
    ensures KeyPicked(14)
  {
    hide BitOf;
    NibbleBits();
  }

  lemma Selects14()
    ensures Selects(14)
  {
    hide BitOf;
    NibbleBits();
  }

  lemma Mixes14()
    ensures Mixes(14)
  {
    hide BitOf;
    NibbleBits();
  }

  lemma Turned15()
    ensures KeyTurned(15)
  {
  }

  lemma Picked15()
    ensures KeyPicked(15)
  {
    hide BitOf;
    NibbleBits();
  }

  lemma Selects15()
    ensures Selects(15)
  {
    hide BitOf;
    NibbleBits();
  }

  lemma Mixes15()
    ensures Mixes(15)
  {
    hide BitOf;
    NibbleBits();
  }

  lemma Turned16()
    ensures KeyTurned(16)
  {
  }

  lemma Picked16()
    ensures KeyPicked(16)
  {
    hide BitOf;
    NibbleBits();
  }

  lemma Selects16()
    ensures Selects(16)
  {
    hide BitOf;
    NibbleBits();
  }

  lemma Mixes16()
    ensures Mixes(16)
  {
    hide BitOf;
    NibbleBits();
  }

  lemma AllTurned(i: nat)
    requires 1 <= i <= 16
    ensures KeyTurned(i)
  {
    hide KeyTurned;
    if i == 1 { Turned1(); }
    if i == 2 { Turned2(); }
    if i == 3 { Turned3(); }
    if i == 4 { Turned4(); }
    if i == 5 { Turned5(); }
    if i == 6 { Turned6(); }
    if i == 7 { Turned7(); }
    if i == 8 { Turned8(); }
    if i == 9 { Turned9(); }
    if i == 10 { Turned10(); }
    if i == 11 { Turned11(); }
    if i == 12 { Turned12(); }
    if i == 13 { Turned13(); }
    if i == 14 { Turned14(); }
    if i == 15 { Turned15(); }
    if i == 16 { Turned16(); }
  }

  lemma AllPicked(i: nat)
    requires 1 <= i <= 16
    ensures KeyPicked(i)
  {
    hide KeyPicked;
    if i == 1 { Picked1(); }
    if i == 2 { Picked2(); }
    if i == 3 { Picked3(); }
    if i == 4 { Picked4(); }
    if i == 5 { Picked5(); }
    if i == 6 { Picked6(); }
    if i == 7 { Picked7(); }
    if i == 8 { Picked8(); }
    if i == 9 { Picked9(); }
    if i == 10 { Picked10(); }
    if i == 11 { Picked11(); }
    if i == 12 { Picked12(); }
    if i == 13 { Picked13(); }
    if i == 14 { Picked14(); }
    if i == 15 { Picked15(); }
    if i == 16 { Picked16(); }
  }

  lemma AllSelects(i: nat)
    requires 1 <= i <= 16
    ensures Selects(i)
  {
    hide Selects;
    if i == 1 { Selects1(); }
    if i == 2 { Selects2(); }
    if i == 3 { Selects3(); }
    if i == 4 { Selects4(); }
    if i == 5 { Selects5(); }
    if i == 6 { Selects6(); }
    if i == 7 { Selects7(); }
    if i == 8 { Selects8(); }
    if i == 9 { Selects9(); }
    if i == 10 { Selects10(); }
    if i == 11 { Selects11(); }
    if i == 12 { Selects12(); }
    if i == 13 { Selects13(); }
    if i == 14 { Selects14(); }
    if i == 15 { Selects15(); }
    if i == 16 { Selects16(); }
  }

  lemma AllMixes(i: nat)
    requires 1 <= i <= 16
    ensures Mixes(i)
  {
    hide Mixes;
    if i == 1 { Mixes1(); }
    if i == 2 { Mixes2(); }
    if i == 3 { Mixes3(); }
    if i == 4 { Mixes4(); }
    if i == 5 { Mixes5(); }
    if i == 6 { Mixes6(); }
    if i == 7 { Mixes7(); }
    if i == 8 { Mixes8(); }
    if i == 9 { Mixes9(); }
    if i == 10 { Mixes10(); }
    if i == 11 { Mixes11(); }
    if i == 12 { Mixes12(); }
    if i == 13 { Mixes13(); }
    if i == 14 { Mixes14(); }
    if i == 15 { Mixes15(); }
    if i == 16 { Mixes16(); }
  }

  lemma ExampleStarts()
    ensures Starts(BLOCK, [12, 12, 0, 0, 12, 12, 15, 15, 15, 0, 10, 10, 15, 0, 10, 10])
  {
    hide BitOf;
    NibbleBits();
  }

  lemma ExampleEnds()
    ensures Ends([0, 10, 4, 12, 13, 9, 9, 5, 4, 3, 4, 2, 3, 2, 3, 4], ANSWER)
  {
    hide BitOf;
    NibbleBits();
  }

  lemma ExampleLeft()
    ensures |LEFT| == 18 && |LEFT[1]| == 7 && LeftOf(KEY, LEFT[1])
  {
    hide BitOf;
    NibbleBits();
  }

  lemma ExampleRight()
    ensures |RIGHT| == 18 && |RIGHT[1]| == 7 && RightOf(KEY, RIGHT[1])
  {
    hide BitOf;
    NibbleBits();
  }

  lemma HalvesStart()
    ensures |LEFT| == |RIGHT| == 18 && |LEFT[1]| == |RIGHT[1]| == 7
    ensures Turned(LeftKey(Hex(KEY)), 0) == Hex(LEFT[1]) && Turned(RightKey(Hex(KEY)), 0) == Hex(RIGHT[1])
  {
    hide Turned, Hex, Permute, Places, LeftOf, RightOf;
    ExampleLeft();
    ExampleRight();
    LeftOfHex(KEY, LEFT[1]);
    RightOfHex(KEY, RIGHT[1]);
    TurnedZero(LeftKey(Hex(KEY)));
    TurnedZero(RightKey(Hex(KEY)));
  }

  /** The halves of the key after each round's turns. */
  lemma HalvesTurned(i: nat)
    requires i <= 16
    ensures |LEFT| == |RIGHT| == 18 && |LEFT[i + 1]| == |RIGHT[i + 1]| == 7
    ensures Turned(LeftKey(Hex(KEY)), Shift(i)) == Hex(LEFT[i + 1])
    ensures Turned(RightKey(Hex(KEY)), Shift(i)) == Hex(RIGHT[i + 1])
  {
    hide Turned, Hex, Turns, LeftKey, RightKey, Digits;
    HalvesStart();
    FirstDigits();
    forall q: nat | 1 <= q <= 16
      ensures Turns(LEFT, q) && Turns(RIGHT, q)
    {
      AllTurned(q);
    }
    RowsTurned(LeftKey(Hex(KEY)), LEFT, i);
    RowsTurned(RightKey(Hex(KEY)), RIGHT, i);
  }

  lemma FirstDigits()
    ensures |LEFT| == |RIGHT| == 18 && Digits(LEFT[1]) && Digits(RIGHT[1])
  {
  }

  /** The key of each round. */
  lemma KeyHex(i: nat)
    requires 1 <= i <= 16
    ensures |KEYS| == 17 && |KEYS[i]| == 12 && Schedule(Hex(KEY))[i - 1] == Hex(KEYS[i])
  {
    hide Turned, Hex, Picked, Permute, Places, LeftKey, RightKey, Digits, RoundKey;
    HalvesTurned(i);
    AllPicked(i);
    RoundKeyIs(Hex(KEY), i - 1);
    PickHex(LEFT[i + 1], RIGHT[i + 1], KEYS[i]);
  }

  /** The halves of the block after each number of rounds. */
  lemma {:induction false} RoundsOf(i: nat)
    requires i <= 16
    ensures |HALVES| == 19 && |HALVES[i + 1]| == |HALVES[i + 2]| == 8
    ensures Keys(Schedule(Hex(KEY))) && Keys(Schedule(Hex(KEY))[..i])
    ensures Rounds(Initial(Hex(BLOCK)), Schedule(Hex(KEY))[..i]) == Hex(HALVES[i + 1]) + Hex(HALVES[i + 2])
  {
    hide Hex, Outs, Mixed, Round, Rounds, Schedule, Starts, Permute, Places;
    var ks, h := Schedule(Hex(KEY)), Initial(Hex(BLOCK));
    if i == 0 {
      ExampleStarts();
      FirstHalves();
      StartsHex(BLOCK, HALVES[1] + HALVES[2]);
      HexAppend(HALVES[1], HALVES[2]);
      RoundsNone(h, ks);
    } else {
      RoundsOf(i - 1);
      AllSelects(i);
      AllMixes(i);
      KeyHex(i);
      RoundsMore(h, ks, i - 1);
      RoundHex(HALVES[i], HALVES[i + 1], KEYS[i], OUTS[i], HALVES[i + 2]);
    }
  }

  lemma FirstHalves()
    ensures |HALVES| == 19 && |HALVES[1]| == |HALVES[2]| == 8
    ensures HALVES[1] + HALVES[2] == [12, 12, 0, 0, 12, 12, 15, 15, 15, 0, 10, 10, 15, 0, 10, 10]
  {
  }

  lemma LastHalves()
    ensures |HALVES| == 19 && |HALVES[17]| == |HALVES[18]| == 8
    ensures HALVES[18] + HALVES[17] == [0, 10, 4, 12, 13, 9, 9, 5, 4, 3, 4, 2, 3, 2, 3, 4]
  {
  }

  /** The published answer. */
  lemma KnownAnswer()
    ensures Keys(Schedule(Hex(KEY))) && Crypt(Hex(BLOCK), Schedule(Hex(KEY))) == Hex(ANSWER)
  {
    hide Hex, Rounds, Schedule, Ends, Permute, Places, Initial, Digits;
    var ks := Schedule(Hex(KEY));
    RoundsOf(16);
    assert ks[..16] == ks;
    LastHalves();
    ExampleEnds();
    EndsHex(HALVES[18] + HALVES[17], ANSWER);
    HexAppend(HALVES[18], HALVES[17]);
    SwappedHex(Hex(HALVES[17]), Hex(HALVES[18]));
  }

  lemma SwappedHex(a: seq<Bit>, b: seq<Bit>)
    requires |a| == |b| == 32
    ensures Swap(a + b) == b + a
  {
  }

  /** nbssetkey and blkencrypt on that key and block, and blkencrypt back again. */
  method Worked() returns (c: Cipher, block: array<Bit>, answer: seq<Bit>)
    ensures block.Length == 64 && answer == Hex(ANSWER) && block[..] == Hex(BLOCK)
  {
    hide Hex, Rounds, Schedule, Crypt, KeyRows, Backwards;
    c := new Cipher();
    var key := new Bit[64](i requires 0 <= i < 64 => Hex(KEY)[i]);
    block := new Bit[64](i requires 0 <= i < 64 => Hex(BLOCK)[i]);
    assert key[..64] == Hex(KEY) && block[..64] == Hex(BLOCK);
    c.SetKey(key);
    c.BlkEncrypt(block, false);
    KnownAnswer();
    answer := block[..64];
    c.BlkEncrypt(block, true);
    Deciphering(Hex(BLOCK), Schedule(Hex(KEY)));
    assert block[..] == block[..64];
  }
}

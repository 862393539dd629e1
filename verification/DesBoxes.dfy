/**
 What the selection functions are made for (D. Coppersmith, "The Data Encryption Standard (DES) and its strength
 against attacks", 1994): each row of a table is a permutation, and inputs that differ in one bit, or in the two in the
 middle, give outputs that differ in at least two bits.
 */
module DesBoxes {
  import opened Des
  import opened DesTables

  /** The number of bits in which two entries differ. */
  function Apart(a: int, b: int): int {
    Xor(BitOf(a, 0), BitOf(b, 0)) + Xor(BitOf(a, 1), BitOf(b, 1)) +
    Xor(BitOf(a, 2), BitOf(b, 2)) + Xor(BitOf(a, 3), BitOf(b, 3))
  }

  predicate Far(a: int, b: int) {
    Apart(a, b) >= 2
  }

  lemma NibbleBits()
    ensures BitOf(0, 0) == 0 && BitOf(0, 1) == 0 && BitOf(0, 2) == 0 && BitOf(0, 3) == 0
    ensures BitOf(1, 0) == 0 && BitOf(1, 1) == 0 && BitOf(1, 2) == 0 && BitOf(1, 3) == 1
    ensures BitOf(2, 0) == 0 && BitOf(2, 1) == 0 && BitOf(2, 2) == 1 && BitOf(2, 3) == 0
    ensures BitOf(3, 0) == 0 && BitOf(3, 1) == 0 && BitOf(3, 2) == 1 && BitOf(3, 3) == 1
    ensures BitOf(4, 0) == 0 && BitOf(4, 1) == 1 && BitOf(4, 2) == 0 && BitOf(4, 3) == 0
    ensures BitOf(5, 0) == 0 && BitOf(5, 1) == 1 && BitOf(5, 2) == 0 && BitOf(5, 3) == 1
    ensures BitOf(6, 0) == 0 && BitOf(6, 1) == 1 && BitOf(6, 2) == 1 && BitOf(6, 3) == 0
    ensures BitOf(7, 0) == 0 && BitOf(7, 1) == 1 && BitOf(7, 2) == 1 && BitOf(7, 3) == 1
    ensures BitOf(8, 0) == 1 && BitOf(8, 1) == 0 && BitOf(8, 2) == 0 && BitOf(8, 3) == 0
    ensures BitOf(9, 0) == 1 && BitOf(9, 1) == 0 && BitOf(9, 2) == 0 && BitOf(9, 3) == 1
    ensures BitOf(10, 0) == 1 && BitOf(10, 1) == 0 && BitOf(10, 2) == 1 && BitOf(10, 3) == 0
    ensures BitOf(11, 0) == 1 && BitOf(11, 1) == 0 && BitOf(11, 2) == 1 && BitOf(11, 3) == 1
    ensures BitOf(12, 0) == 1 && BitOf(12, 1) == 1 && BitOf(12, 2) == 0 && BitOf(12, 3) == 0
    ensures BitOf(13, 0) == 1 && BitOf(13, 1) == 1 && BitOf(13, 2) == 0 && BitOf(13, 3) == 1
    ensures BitOf(14, 0) == 1 && BitOf(14, 1) == 1 && BitOf(14, 2) == 1 && BitOf(14, 3) == 0
    ensures BitOf(15, 0) == 1 && BitOf(15, 1) == 1 && BitOf(15, 2) == 1 && BitOf(15, 3) == 1
  {
  }

  lemma FarA()
    ensures Far(0, 3) && Far(0, 5) && Far(0, 6) && Far(0, 7) && Far(0, 9) && Far(0, 10)
    ensures Far(0, 11) && Far(0, 12) && Far(0, 13) && Far(0, 14) && Far(0, 15)
    ensures Far(1, 2) && Far(1, 4) && Far(1, 6) && Far(1, 7) && Far(1, 8) && Far(1, 10)
    ensures Far(1, 11) && Far(1, 12) && Far(1, 13) && Far(1, 14) && Far(1, 15)
    ensures Far(2, 1) && Far(2, 4) && Far(2, 5) && Far(2, 7) && Far(2, 8) && Far(2, 9)
    ensures Far(2, 11) && Far(2, 12) && Far(2, 13) && Far(2, 14) && Far(2, 15)
    ensures Far(3, 0) && Far(3, 4) && Far(3, 5) && Far(3, 6) && Far(3, 8) && Far(3, 9)
    ensures Far(3, 10) && Far(3, 12) && Far(3, 13) && Far(3, 14) && Far(3, 15)
  {
    hide BitOf;
    NibbleBits();
  }

  lemma FarB()
    ensures Far(4, 1) && Far(4, 2) && Far(4, 3) && Far(4, 7) && Far(4, 8) && Far(4, 9)
    ensures Far(4, 10) && Far(4, 11) && Far(4, 13) && Far(4, 14) && Far(4, 15)
    ensures Far(5, 0) && Far(5, 2) && Far(5, 3) && Far(5, 6) && Far(5, 8) && Far(5, 9)
    ensures Far(5, 10) && Far(5, 11) && Far(5, 12) && Far(5, 14) && Far(5, 15)
    ensures Far(6, 0) && Far(6, 1) && Far(6, 3) && Far(6, 5) && Far(6, 8) && Far(6, 9)
    ensures Far(6, 10) && Far(6, 11) && Far(6, 12) && Far(6, 13) && Far(6, 15)
    ensures Far(7, 0) && Far(7, 1) && Far(7, 2) && Far(7, 4) && Far(7, 8) && Far(7, 9)
    ensures Far(7, 10) && Far(7, 11) && Far(7, 12) && Far(7, 13) && Far(7, 14)
  {
    hide BitOf;
    NibbleBits();
  }

  lemma FarC()
    ensures Far(8, 1) && Far(8, 2) && Far(8, 3) && Far(8, 4) && Far(8, 5) && Far(8, 6)
    ensures Far(8, 7) && Far(8, 11) && Far(8, 13) && Far(8, 14) && Far(8, 15)
    ensures Far(9, 0) && Far(9, 2) && Far(9, 3) && Far(9, 4) && Far(9, 5) && Far(9, 6)
    ensures Far(9, 7) && Far(9, 10) && Far(9, 12) && Far(9, 14) && Far(9, 15)
    ensures Far(10, 0) && Far(10, 1) && Far(10, 3) && Far(10, 4) && Far(10, 5) && Far(10, 6)
    ensures Far(10, 7) && Far(10, 9) && Far(10, 12) && Far(10, 13) && Far(10, 15)
    ensures Far(11, 0) && Far(11, 1) && Far(11, 2) && Far(11, 4) && Far(11, 5) && Far(11, 6)
    ensures Far(11, 7) && Far(11, 8) && Far(11, 12) && Far(11, 13) && Far(11, 14)
  {
    hide BitOf;
    NibbleBits();
  }

  lemma FarD()
    ensures Far(12, 0) && Far(12, 1) && Far(12, 2) && Far(12, 3) && Far(12, 5) && Far(12, 6)
    ensures Far(12, 7) && Far(12, 9) && Far(12, 10) && Far(12, 11) && Far(12, 15)
    ensures Far(13, 0) && Far(13, 1) && Far(13, 2) && Far(13, 3) && Far(13, 4) && Far(13, 6)
    ensures Far(13, 7) && Far(13, 8) && Far(13, 10) && Far(13, 11) && Far(13, 14)
    ensures Far(14, 0) && Far(14, 1) && Far(14, 2) && Far(14, 3) && Far(14, 4) && Far(14, 5)
    ensures Far(14, 7) && Far(14, 8) && Far(14, 9) && Far(14, 11) && Far(14, 13)
    ensures Far(15, 0) && Far(15, 1) && Far(15, 2) && Far(15, 3) && Far(15, 4) && Far(15, 5)
    ensures Far(15, 6) && Far(15, 8) && Far(15, 9) && Far(15, 10) && Far(15, 12)
  {
    hide BitOf;
    NibbleBits();
  }

  /** Which entries are far apart. */
  lemma FarPairs()
    ensures Far(0, 3) && Far(0, 5) && Far(0, 6) && Far(0, 7) && Far(0, 9) && Far(0, 10)
    ensures Far(0, 11) && Far(0, 12) && Far(0, 13) && Far(0, 14) && Far(0, 15)
    ensures Far(1, 2) && Far(1, 4) && Far(1, 6) && Far(1, 7) && Far(1, 8) && Far(1, 10)
    ensures Far(1, 11) && Far(1, 12) && Far(1, 13) && Far(1, 14) && Far(1, 15)
    ensures Far(2, 1) && Far(2, 4) && Far(2, 5) && Far(2, 7) && Far(2, 8) && Far(2, 9)
    ensures Far(2, 11) && Far(2, 12) && Far(2, 13) && Far(2, 14) && Far(2, 15)
    ensures Far(3, 0) && Far(3, 4) && Far(3, 5) && Far(3, 6) && Far(3, 8) && Far(3, 9)
    ensures Far(3, 10) && Far(3, 12) && Far(3, 13) && Far(3, 14) && Far(3, 15)
    ensures Far(4, 1) && Far(4, 2) && Far(4, 3) && Far(4, 7) && Far(4, 8) && Far(4, 9)
    ensures Far(4, 10) && Far(4, 11) && Far(4, 13) && Far(4, 14) && Far(4, 15)
    ensures Far(5, 0) && Far(5, 2) && Far(5, 3) && Far(5, 6) && Far(5, 8) && Far(5, 9)
    ensures Far(5, 10) && Far(5, 11) && Far(5, 12) && Far(5, 14) && Far(5, 15)
    ensures Far(6, 0) && Far(6, 1) && Far(6, 3) && Far(6, 5) && Far(6, 8) && Far(6, 9)
    ensures Far(6, 10) && Far(6, 11) && Far(6, 12) && Far(6, 13) && Far(6, 15)
    ensures Far(7, 0) && Far(7, 1) && Far(7, 2) && Far(7, 4) && Far(7, 8) && Far(7, 9)
    ensures Far(7, 10) && Far(7, 11) && Far(7, 12) && Far(7, 13) && Far(7, 14)
    ensures Far(8, 1) && Far(8, 2) && Far(8, 3) && Far(8, 4) && Far(8, 5) && Far(8, 6)
    ensures Far(8, 7) && Far(8, 11) && Far(8, 13) && Far(8, 14) && Far(8, 15)
    ensures Far(9, 0) && Far(9, 2) && Far(9, 3) && Far(9, 4) && Far(9, 5) && Far(9, 6)
    ensures Far(9, 7) && Far(9, 10) && Far(9, 12) && Far(9, 14) && Far(9, 15)
    ensures Far(10, 0) && Far(10, 1) && Far(10, 3) && Far(10, 4) && Far(10, 5) && Far(10, 6)
    ensures Far(10, 7) && Far(10, 9) && Far(10, 12) && Far(10, 13) && Far(10, 15)
    ensures Far(11, 0) && Far(11, 1) && Far(11, 2) && Far(11, 4) && Far(11, 5) && Far(11, 6)
    ensures Far(11, 7) && Far(11, 8) && Far(11, 12) && Far(11, 13) && Far(11, 14)
    ensures Far(12, 0) && Far(12, 1) && Far(12, 2) && Far(12, 3) && Far(12, 5) && Far(12, 6)
    ensures Far(12, 7) && Far(12, 9) && Far(12, 10) && Far(12, 11) && Far(12, 15)
    ensures Far(13, 0) && Far(13, 1) && Far(13, 2) && Far(13, 3) && Far(13, 4) && Far(13, 6)
    ensures Far(13, 7) && Far(13, 8) && Far(13, 10) && Far(13, 11) && Far(13, 14)
    ensures Far(14, 0) && Far(14, 1) && Far(14, 2) && Far(14, 3) && Far(14, 4) && Far(14, 5)
    ensures Far(14, 7) && Far(14, 8) && Far(14, 9) && Far(14, 11) && Far(14, 13)
    ensures Far(15, 0) && Far(15, 1) && Far(15, 2) && Far(15, 3) && Far(15, 4) && Far(15, 5)
    ensures Far(15, 6) && Far(15, 8) && Far(15, 9) && Far(15, 10) && Far(15, 12)
  {
    hide Far;
    FarA();
    FarB();
    FarC();
    FarD();
  }

  /** The entries of a row are numbers below 16, and all different. */
  predicate Different(t: seq<int>)
    requires |t| == 16
  {
    && (forall c :: 0 <= c < 16 ==> 0 <= t[c] < 16)
    && forall c, d :: 0 <= c < d < 16 ==> t[c] != t[d]
  }

  /** The entries of a row whose columns differ in one bit, or in the two in the middle. */
  predicate RowFar(t: seq<int>)
    requires |t| == 16
  {
    && Far(t[0], t[1]) && Far(t[2], t[3]) && Far(t[4], t[5]) && Far(t[6], t[7])
    && Far(t[8], t[9]) && Far(t[10], t[11]) && Far(t[12], t[13]) && Far(t[14], t[15])
    && Far(t[0], t[2]) && Far(t[1], t[3]) && Far(t[4], t[6]) && Far(t[5], t[7])
    && Far(t[8], t[10]) && Far(t[9], t[11]) && Far(t[12], t[14]) && Far(t[13], t[15])
    && Far(t[0], t[4]) && Far(t[1], t[5]) && Far(t[2], t[6]) && Far(t[3], t[7])
    && Far(t[8], t[12]) && Far(t[9], t[13]) && Far(t[10], t[14]) && Far(t[11], t[15])
    && Far(t[0], t[8]) && Far(t[1], t[9]) && Far(t[2], t[10]) && Far(t[3], t[11])
    && Far(t[4], t[12]) && Far(t[5], t[13]) && Far(t[6], t[14]) && Far(t[7], t[15])
    && Far(t[0], t[6]) && Far(t[1], t[7]) && Far(t[2], t[4]) && Far(t[3], t[5])
    && Far(t[8], t[14]) && Far(t[9], t[15]) && Far(t[10], t[12]) && Far(t[11], t[13])
  }

  /** The entries of two rows in the same column. */
  predicate RowsFar(t: seq<int>, u: seq<int>)
    requires |t| == |u| == 16
  {
    && Far(t[0], u[0]) && Far(t[1], u[1]) && Far(t[2], u[2]) && Far(t[3], u[3])
    && Far(t[4], u[4]) && Far(t[5], u[5]) && Far(t[6], u[6]) && Far(t[7], u[7])
    && Far(t[8], u[8]) && Far(t[9], u[9]) && Far(t[10], u[10]) && Far(t[11], u[11])
    && Far(t[12], u[12]) && Far(t[13], u[13]) && Far(t[14], u[14]) && Far(t[15], u[15])
  }

  predicate Good(box: seq<seq<int>>)
    requires Shaped(box, 4, 16)
  {
    && RowFar(box[0]) && RowFar(box[1]) && RowFar(box[2]) && RowFar(box[3])
    && Different(box[0]) && Different(box[1]) && Different(box[2]) && Different(box[3])
    && RowsFar(box[0], box[1]) && RowsFar(box[2], box[3]) && RowsFar(box[0], box[2]) && RowsFar(box[1], box[3])
  }

  // ----- the eight tables -----

  lemma Good1()
    ensures Shaped(S1, 4, 16) && Good(S1)
  {
    hide RowFar, RowsFar, Different, Shaped;
    Top1();
    Bottom1();
    Sides1();
    Heights1();
    First1(0);
    First1(1);
    Third1();
    Fourth1();
  }

  lemma First1(r: nat)
    requires r < 2
    ensures Shaped(S1, 4, 16) && Different(S1[r])
  {
  }

  lemma Third1()
    ensures Shaped(S1, 4, 16) && Different(S1[2])
  {
  }

  lemma Fourth1()
    ensures Shaped(S1, 4, 16) && Different(S1[3])
  {
  }

  lemma Top1()
    ensures Shaped(S1, 4, 16) && RowFar(S1[0]) && RowFar(S1[1])
  {
    hide Far;
    FarPairs();
  }

  lemma Bottom1()
    ensures Shaped(S1, 4, 16) && RowFar(S1[2]) && RowFar(S1[3])
  {
    hide Far;
    FarPairs();
  }

  lemma Sides1()
    ensures Shaped(S1, 4, 16) && RowsFar(S1[0], S1[1]) && RowsFar(S1[2], S1[3])
  {
    hide Far;
    FarPairs();
  }

  lemma Heights1()
    ensures Shaped(S1, 4, 16) && RowsFar(S1[0], S1[2]) && RowsFar(S1[1], S1[3])
  {
    hide Far;
    FarPairs();
  }

  lemma Good2()
    ensures Shaped(S2, 4, 16) && Good(S2)
  {
    hide RowFar, RowsFar, Different, Shaped;
    Top2();
    Bottom2();
    Sides2();
    Heights2();
    First2(0);
    First2(1);
    Third2();
    Fourth2();
  }

  lemma First2(r: nat)
    requires r < 2
    ensures Shaped(S2, 4, 16) && Different(S2[r])
  {
  }

  lemma Third2()
    ensures Shaped(S2, 4, 16) && Different(S2[2])
  {
  }

  lemma Fourth2()
    ensures Shaped(S2, 4, 16) && Different(S2[3])
  {
  }

  lemma Top2()
    ensures Shaped(S2, 4, 16) && RowFar(S2[0]) && RowFar(S2[1])
  {
    hide Far;
    FarPairs();
  }

  lemma Bottom2()
    ensures Shaped(S2, 4, 16) && RowFar(S2[2]) && RowFar(S2[3])
  {
    hide Far;
    FarPairs();
  }

  lemma Sides2()
    ensures Shaped(S2, 4, 16) && RowsFar(S2[0], S2[1]) && RowsFar(S2[2], S2[3])
  {
    hide Far;
    FarPairs();
  }

  lemma Heights2()
    ensures Shaped(S2, 4, 16) && RowsFar(S2[0], S2[2]) && RowsFar(S2[1], S2[3])
  {
    hide Far;
    FarPairs();
  }

  lemma Good3()
    ensures Shaped(S3, 4, 16) && Good(S3)
  {
    hide RowFar, RowsFar, Different, Shaped;
    Top3();
    Bottom3();
    Sides3();
    Heights3();
    First3(0);
    First3(1);
    Third3();
    Fourth3();
  }

  lemma First3(r: nat)
    requires r < 2
    ensures Shaped(S3, 4, 16) && Different(S3[r])
  {
  }

  lemma Third3()
    ensures Shaped(S3, 4, 16) && Different(S3[2])
  {
  }

  lemma Fourth3()
    ensures Shaped(S3, 4, 16) && Different(S3[3])
  {
  }

  lemma Top3()
    ensures Shaped(S3, 4, 16) && RowFar(S3[0]) && RowFar(S3[1])
  {
    hide Far;
    FarPairs();
  }

  lemma Bottom3()
    ensures Shaped(S3, 4, 16) && RowFar(S3[2]) && RowFar(S3[3])
  {
    hide Far;
    FarPairs();
  }

  lemma Sides3()
    ensures Shaped(S3, 4, 16) && RowsFar(S3[0], S3[1]) && RowsFar(S3[2], S3[3])
  {
    hide Far;
    FarPairs();
  }

  lemma Heights3()
    ensures Shaped(S3, 4, 16) && RowsFar(S3[0], S3[2]) && RowsFar(S3[1], S3[3])
  {
    hide Far;
    FarPairs();
  }

  lemma Good4()
    ensures Shaped(S4, 4, 16) && Good(S4)
  {
    hide RowFar, RowsFar, Different, Shaped;
    Top4();
    Bottom4();
    Sides4();
    Heights4();
    First4(0);
    First4(1);
    Third4();
    Fourth4();
  }

  lemma First4(r: nat)
    requires r < 2
    ensures Shaped(S4, 4, 16) && Different(S4[r])
  {
  }

  lemma Third4()
    ensures Shaped(S4, 4, 16) && Different(S4[2])
  {
  }

  lemma Fourth4()
    ensures Shaped(S4, 4, 16) && Different(S4[3])
  {
  }

  lemma Top4()
    ensures Shaped(S4, 4, 16) && RowFar(S4[0]) && RowFar(S4[1])
  {
    hide Far;
    FarPairs();
  }

  lemma Bottom4()
    ensures Shaped(S4, 4, 16) && RowFar(S4[2]) && RowFar(S4[3])
  {
    hide Far;
    FarPairs();
  }

  lemma Sides4()
    ensures Shaped(S4, 4, 16) && RowsFar(S4[0], S4[1]) && RowsFar(S4[2], S4[3])
  {
    hide Far;
    FarPairs();
  }

  lemma Heights4()
    ensures Shaped(S4, 4, 16) && RowsFar(S4[0], S4[2]) && RowsFar(S4[1], S4[3])
  {
    hide Far;
    FarPairs();
  }

  lemma Good5()
    ensures Shaped(S5, 4, 16) && Good(S5)
  {
    hide RowFar, RowsFar, Different, Shaped;
    Top5();
    Bottom5();
    Sides5();
    Heights5();
    First5(0);
    First5(1);
    Third5();
    Fourth5();
  }

  lemma First5(r: nat)
    requires r < 2
    ensures Shaped(S5, 4, 16) && Different(S5[r])
  {
  }

  lemma Third5()
    ensures Shaped(S5, 4, 16) && Different(S5[2])
  {
  }

  lemma Fourth5()
    ensures Shaped(S5, 4, 16) && Different(S5[3])
  {
  }

  lemma Top5()
    ensures Shaped(S5, 4, 16) && RowFar(S5[0]) && RowFar(S5[1])
  {
    hide Far;
    FarPairs();
  }

  lemma Bottom5()
    ensures Shaped(S5, 4, 16) && RowFar(S5[2]) && RowFar(S5[3])
  {
    hide Far;
    FarPairs();
  }

  lemma Sides5()
    ensures Shaped(S5, 4, 16) && RowsFar(S5[0], S5[1]) && RowsFar(S5[2], S5[3])
  {
    hide Far;
    FarPairs();
  }

  lemma Heights5()
    ensures Shaped(S5, 4, 16) && RowsFar(S5[0], S5[2]) && RowsFar(S5[1], S5[3])
  {
    hide Far;
    FarPairs();
  }

  lemma Good6()
    ensures Shaped(S6, 4, 16) && Good(S6)
  {
    hide RowFar, RowsFar, Different, Shaped;
    Top6();
    Bottom6();
    Sides6();
    Heights6();
    First6(0);
    First6(1);
    Third6();
    Fourth6();
  }

  lemma First6(r: nat)
    requires r < 2
    ensures Shaped(S6, 4, 16) && Different(S6[r])
  {
  }

  lemma Third6()
    ensures Shaped(S6, 4, 16) && Different(S6[2])
  {
  }

  lemma Fourth6()
    ensures Shaped(S6, 4, 16) && Different(S6[3])
  {
  }

  lemma Top6()
    ensures Shaped(S6, 4, 16) && RowFar(S6[0]) && RowFar(S6[1])
  {
    hide Far;
    FarPairs();
  }

  lemma Bottom6()
    ensures Shaped(S6, 4, 16) && RowFar(S6[2]) && RowFar(S6[3])
  {
    hide Far;
    FarPairs();
  }

  lemma Sides6()
    ensures Shaped(S6, 4, 16) && RowsFar(S6[0], S6[1]) && RowsFar(S6[2], S6[3])
  {
    hide Far;
    FarPairs();
  }

  lemma Heights6()
    ensures Shaped(S6, 4, 16) && RowsFar(S6[0], S6[2]) && RowsFar(S6[1], S6[3])
  {
    hide Far;
    FarPairs();
  }

  lemma Good7()
    ensures Shaped(S7, 4, 16) && Good(S7)
  {
    hide RowFar, RowsFar, Different, Shaped;
    Top7();
    Bottom7();
    Sides7();
    Heights7();
    First7(0);
    First7(1);
    Third7();
    Fourth7();
  }

  lemma First7(r: nat)
    requires r < 2
    ensures Shaped(S7, 4, 16) && Different(S7[r])
  {
  }

  lemma Third7()
    ensures Shaped(S7, 4, 16) && Different(S7[2])
  {
  }

  lemma Fourth7()
    ensures Shaped(S7, 4, 16) && Different(S7[3])
  {
  }

  lemma Top7()
    ensures Shaped(S7, 4, 16) && RowFar(S7[0]) && RowFar(S7[1])
  {
    hide Far;
    FarPairs();
  }

  lemma Bottom7()
    ensures Shaped(S7, 4, 16) && RowFar(S7[2]) && RowFar(S7[3])
  {
    hide Far;
    FarPairs();
  }

  lemma Sides7()
    ensures Shaped(S7, 4, 16) && RowsFar(S7[0], S7[1]) && RowsFar(S7[2], S7[3])
  {
    hide Far;
    FarPairs();
  }

  lemma Heights7()
    ensures Shaped(S7, 4, 16) && RowsFar(S7[0], S7[2]) && RowsFar(S7[1], S7[3])
  {
    hide Far;
    FarPairs();
  }

  lemma Good8()
    ensures Shaped(S8, 4, 16) && Good(S8)
  {
    hide RowFar, RowsFar, Different, Shaped;
    Top8();
    Bottom8();
    Sides8();
    Heights8();
    First8(0);
    First8(1);
    Third8();
    Fourth8();
  }

  lemma First8(r: nat)
    requires r < 2
    ensures Shaped(S8, 4, 16) && Different(S8[r])
  {
  }

  lemma Third8()
    ensures Shaped(S8, 4, 16) && Different(S8[2])
  {
  }

  lemma Fourth8()
    ensures Shaped(S8, 4, 16) && Different(S8[3])
  {
  }

  lemma Top8()
    ensures Shaped(S8, 4, 16) && RowFar(S8[0]) && RowFar(S8[1])
  {
    hide Far;
    FarPairs();
  }

  lemma Bottom8()
    ensures Shaped(S8, 4, 16) && RowFar(S8[2]) && RowFar(S8[3])
  {
    hide Far;
    FarPairs();
  }

  lemma Sides8()
    ensures Shaped(S8, 4, 16) && RowsFar(S8[0], S8[1]) && RowsFar(S8[2], S8[3])
  {
    hide Far;
    FarPairs();
  }

  lemma Heights8()
    ensures Shaped(S8, 4, 16) && RowsFar(S8[0], S8[2]) && RowsFar(S8[1], S8[3])
  {
    hide Far;
    FarPairs();
  }

  lemma AllGood(j: nat)
    requires j < 8
    ensures |S| == 8 && Shaped(S[j], 4, 16) && Good(S[j])
  {
    hide Good, Shaped;
    Good1();
    Good2();
    Good3();
    Good4();
    Good5();
    Good6();
    Good7();
    Good8();
  }

  // ----- what this means for the selection functions -----

  /** Different numbers below `n`, `n` of them, are all the numbers below `n`. */
  lemma {:induction false} AllOccur(t: seq<int>, n: nat, v: int)
    requires |t| == n && (forall c :: 0 <= c < n ==> 0 <= t[c] < n)
    requires forall c, d :: 0 <= c < d < n ==> t[c] != t[d]
    requires 0 <= v < n
    ensures v in t
  {
    if c :| 0 <= c < n && t[c] == n - 1 {
      if v < n - 1 {
        var rest := t[..c] + t[c + 1..];
        AllOccur(rest, n - 1, v);
        var d :| 0 <= d < n - 1 && rest[d] == v;
        assert t[if d < c then d else d + 1] == v;
      }
    } else {
      AllOccur(t[..n - 1], n - 1, t[n - 1]);
    }
  }

  /** The six bits with bit `p` changed. */
  function Flipped(x: seq<Bit>, p: nat): (y: seq<Bit>)
    requires |x| == 6 && p < 6
    ensures |y| == 6
  {
    x[p := Xor(x[p], 1)]
  }

  /** What selection function `j` gives for six bits. */
  function Gives(j: nat, x: seq<Bit>): int
    requires j < 8 && |x| == 6
  {
    BoxShape();
    Selected(S[j], x[0], x[1], x[2], x[3], x[4], x[5])
  }

  /** A column of a row, by the bits in the middle; one of them changed, or the two in the very middle. */
  lemma RowChanges(t: seq<int>, b1: int, b2: int, b3: int, b4: int)
    requires |t| == 16 && RowFar(t)
    requires 0 <= b1 < 2 && 0 <= b2 < 2 && 0 <= b3 < 2 && 0 <= b4 < 2
    ensures var c := 8 * b1 + 4 * b2 + 2 * b3 + b4;
            && Far(t[c], t[c + 8 - 16 * b1]) && Far(t[c], t[c + 4 - 8 * b2])
            && Far(t[c], t[c + 2 - 4 * b3]) && Far(t[c], t[c + 1 - 2 * b4])
            && Far(t[c], t[c + 4 - 8 * b2 + 2 - 4 * b3])
  {
    hide Far;
    FarBothWays();
  }

  lemma FarBothWays()
    ensures forall a, b :: Far(a, b) == Far(b, a)
  {
  }

  /** The entry of any table for six bits. */
  function Entry(box: seq<seq<int>>, x: seq<Bit>): int
    requires Shaped(box, 4, 16) && |x| == 6
  {
    Selected(box, x[0], x[1], x[2], x[3], x[4], x[5])
  }

  function Row(x: seq<Bit>): (r: nat)
    requires |x| == 6
    ensures r < 4
  {
    2 * (x[0] as int) + x[5] as int
  }

  function Column(x: seq<Bit>): (c: nat)
    requires |x| == 6
    ensures c < 16
  {
    8 * (x[1] as int) + 4 * (x[2] as int) + 2 * (x[3] as int) + x[4] as int
  }

  lemma OuterChanges(box: seq<seq<int>>, x: seq<Bit>, p: nat)
    requires Shaped(box, 4, 16) && Good(box) && |x| == 6 && p in {0, 5}
    ensures Far(Entry(box, x), Entry(box, Flipped(x, p)))
  {
    hide Good, RowFar, RowsFar, Far, Different;
    FlippedBits(x, p);
    FarBothWays();
    GoodColumn(box, Column(x));
  }

  lemma GoodRow(box: seq<seq<int>>, r: nat)
    requires Shaped(box, 4, 16) && Good(box) && r < 4
    ensures RowFar(box[r]) && Different(box[r])
  {
    hide RowFar, RowsFar, Different;
  }

  lemma InnerChanges(box: seq<seq<int>>, x: seq<Bit>, p: nat)
    requires Shaped(box, 4, 16) && Good(box) && |x| == 6 && 0 < p < 5
    ensures Far(Entry(box, x), Entry(box, Flipped(x, p)))
    ensures Far(Entry(box, x), Entry(box, Flipped(Flipped(x, 2), 3)))
  {
    hide Good, RowFar, RowsFar, Far, Different;
    FlippedBits(x, p);
    FlippedBits(x, 2);
    FlippedBits(Flipped(x, 2), 3);
    GoodRow(box, Row(x));
    RowChanges(box[Row(x)], x[1], x[2], x[3], x[4]);
  }

  /**
   Six bits that differ in one place give outputs that differ in at least two, and so do six bits that differ in the two
   places in the middle.
   */
  lemma OneBitChanges(j: nat, x: seq<Bit>, p: nat)
    requires j < 8 && |x| == 6 && p < 6
    ensures Apart(Gives(j, x), Gives(j, Flipped(x, p))) >= 2
    ensures Apart(Gives(j, x), Gives(j, Flipped(Flipped(x, 2), 3))) >= 2
  {
    hide Good, Shaped, Selected, Flipped, Apart;
    AllGood(j);
    InnerChanges(S[j], x, if p in {0, 5} then 1 else p);
    if p in {0, 5} {
      OuterChanges(S[j], x, p);
    }
  }

  lemma FlippedBits(x: seq<Bit>, p: nat)
    requires |x| == 6 && p < 6
    ensures Flipped(x, p)[p] == 1 - x[p] && forall q :: 0 <= q < 6 && q != p ==> Flipped(x, p)[q] == x[q]
  {
  }

  lemma GoodColumn(box: seq<seq<int>>, c: nat)
    requires Shaped(box, 4, 16) && Good(box) && c < 16
    ensures Far(box[0][c], box[1][c]) && Far(box[2][c], box[3][c])
    ensures Far(box[0][c], box[2][c]) && Far(box[1][c], box[3][c])
  {
    hide Far, RowFar, RowsFar, Different;
    ColumnFar(box[0], box[1], c);
    ColumnFar(box[2], box[3], c);
    ColumnFar(box[0], box[2], c);
    ColumnFar(box[1], box[3], c);
  }

  lemma ColumnFar(t: seq<int>, u: seq<int>, c: nat)
    requires |t| == |u| == 16 && RowsFar(t, u) && c < 16
    ensures Far(t[c], u[c])
  {
    hide Far;
  }

  lemma RowOccurs(t: seq<int>, v: int)
    requires |t| == 16 && Different(t) && 0 <= v < 16
    ensures v in t && forall c, d :: 0 <= c < d < 16 ==> t[c] != t[d]
  {
    AllOccur(t, 16, v);
  }

  /** Each row of each table is a permutation of the numbers from 0 to 15. */
  lemma RowPermutes(j: nat, r: nat, v: int)
    requires j < 8 && r < 4 && 0 <= v < 16
    ensures |S| == 8 && |S[j]| == 4 && |S[j][r]| == 16
    ensures v in S[j][r] && forall c, d :: 0 <= c < d < 16 ==> S[j][r][c] != S[j][r][d]
  {
    hide Good, Different;
    AllGood(j);
    assert Shaped(S[j], 4, 16);
    GoodRow(S[j], r);
    RowOccurs(S[j][r], v);
  }
}

/**
 The table that random uses before any call of srandom: it is what initstate would make of the seed 1 and 128 bytes, as
 bsdlibc/gen/random.c says of it.  The proof is the seeding, word by word.
 */
module RandomTable {
  import opened Random

  const RANDTBL: seq<int> := [
    3,
    0x9A319039, 0x32D9C024, 0x9B663182, 0x5DA1F342, 0xDE3B81E0, 0xDF0A6FB5, 0xF103BC02, 0x48F340FB,
    0x7449E56B, 0xBEB1DBB0, 0xAB5C5918, 0x946554FD, 0x8C2E680F, 0xEB3D799F, 0xB11EE0B7, 0x2D436B86,
    0xDA672E2A, 0x1588CA88, 0xE369735D, 0x904F35F7, 0xD7158FD6, 0x6FA6F051, 0x616E6B96, 0xAC94EFDC,
    0x36413F93, 0xC622C298, 0xF5A42AB8, 0x8A88D77B, 0xF5AD9D0E, 0x8999220B, 0x27FB47B9]

  // The words of the stream, 31 in a row; the first row is the seeds from the front pointer on.

  const ROW1: seq<int> := [
    0x2781E494, 0xC46B9B3D, 0xF94BDF32, 0x95FB7483, 0xD9E2B600, 0x9CFBAE39, 0xBF54BC7E, 0x0FF6D5DF,
    0x0ABD322C, 0x31DFF4F5, 0x237C228A, 0xAF1CF0FB, 0x7DE14518, 0xC487EB71, 0xE201DD56, 0xD2BFA1D7,
    0xE2319AC4, 0xE3DECDAD, 0xE95678E2, 0x93728473, 0x500F9F30, 0x284797A9, 0x2C67412E, 0x7566F4CF,
    0x42877E5C, 0xB3590565, 0x4DAA423A, 0xE4880EEB, 0x00000001, 0x41C67EA6, 0x967EB0E7]

  const ROW2: seq<int> := [
    0x2781E495, 0x063219E3, 0x8FCA9019, 0xBD7D5918, 0xE014CFE3, 0x2CC63E52, 0x7CD21596, 0xF00BA5C2,
    0x3783707E, 0xAEB20A8B, 0x1387C84C, 0xE6A06179, 0x2C934FA3, 0xD80FB3BD, 0xC8A23ECF, 0xFF52F17A,
    0xBA414E81, 0xAC810C7C, 0xE8A96A5C, 0x4DB3D2F4, 0xFC90ABAC, 0x10F10205, 0x7A1B1422, 0x71F7A07B,
    0x53788061, 0x2D741987, 0xBFA1E2B5, 0x38008F4C, 0x2D741988, 0x0168615B, 0xCE7F4033]

  const ROW3: seq<int> := [
    0x54F5FE1D, 0x079A7B3E, 0x5E49D04C, 0x12735735, 0xE7AF4B21, 0x8B100E9E, 0x8F456CCB, 0xD7BAF0E3,
    0xC2937F1C, 0x3DF77756, 0xEB42B92F, 0xA933E095, 0x6A8AC6F9, 0xC3526CEC, 0x71D61F64, 0x69DDB873,
    0x7D93BB6D, 0x1E572BE0, 0x528722CF, 0xCB478E61, 0x1AE7D78C, 0x637824D4, 0x4562A283, 0x8CDF7807,
    0xB6F0A535, 0x72D6BC0A, 0x4C815ABC, 0xEEF13481, 0xA04AD592, 0x4DE9BC17, 0xBD7074B4]

  const ROW4: seq<int> := [
    0xF540D3AF, 0x55843755, 0x1BBA4500, 0x07B42AE4, 0x3D338276, 0xA6CA539E, 0x96F997AF, 0x14EE7359,
    0x695DD2BA, 0xD4F10F05, 0x00312C88, 0x1291B34F, 0x3F7BD5FE, 0xC3839974, 0x8467D2B3, 0xA9598E71,
    0x411754E1, 0xA2BEFE93, 0xFBE0B140, 0x0C5EE342, 0xBDA6D61F, 0x5F58D614, 0x51C185C5, 0x4A864E26,
    0x16497B49, 0xC49841CF, 0x9707A8E2, 0x053AAFCA, 0x64E31761, 0xE4F164F9, 0xC2AB247E]

  const ROW5: seq<int> := [
    0x5A23EB10, 0x3A759C4E, 0xDE65697E, 0x61D815F4, 0x77A91EC4, 0x852FBD1C, 0xF8D1ADA3, 0x8C97921D,
    0xEE8D8FD6, 0xCDC2BCA8, 0x8CC8BEA5, 0x011F4325, 0x0D3E92A6, 0x504C5819, 0x858715D8, 0xB6982117,
    0x9163ACFA, 0x2846146B, 0xB278D257, 0x9DC2903C, 0xE5ECEA8A, 0x11D1A86B, 0xEF841601, 0x307338B0,
    0x281B23B4, 0xB41C57D0, 0xC77AE192, 0x2D55D37E, 0x18FF6F31, 0xAC6C468B, 0xF000F7FC]

  const ROW6: seq<int> := [
    0x73235A41, 0xE6E1E2D9, 0xCE66617A, 0xD4FB7035, 0x5E8B019D, 0x53961E96, 0xCDCD1DD8, 0xEB2293BA,
    0x4223AE6C, 0x9B8FDA80, 0x77EB525F, 0x4342F191, 0xA8CE6D26, 0xC837AA78, 0xC8CA0769, 0x5F668E3D,
    0x599B5772, 0xF1101BD4, 0x11DF6094, 0xF75DE7AE, 0xD6FD065E, 0x23B108FF, 0xE6E1FDAF, 0x07703F0E,
    0x4BCC2CB3, 0x9AFE557F, 0xCEEB20A0, 0x79220031, 0xB3FDC4B0, 0x7B57672B, 0x6922F82D]

  const ROW7: seq<int> := [
    0x27211EF1, 0x62394A04, 0x378959A7, 0xFC1C8F26, 0xC0C44BA1, 0x8B1F783D, 0xC9E9ACFE, 0xABE6DF5B,
    0xCD4326A9, 0x6579877E, 0x23D231BA, 0x1086183A, 0x0E47F4A4, 0xEC09DC32, 0xD9501FA3, 0x6DAE82E1,
    0x45A533A4, 0xCA603B77, 0x7F8DE375, 0x3D031B52, 0xA15D41D5, 0xA33EEC74, 0x23E51901, 0xA8CD80E3,
    0xEF0B1927, 0xBEE36E80, 0x77B8A183, 0x682D1958, 0x72E13330, 0xF31008AE, 0xD1501185]

  const ROW8: seq<int> := [
    0x9A025221, 0x554952B2, 0x08D96B2C, 0x961EE147, 0x160D9E53, 0x93F8E369, 0x60088E45, 0xC1F47DAE,
    0x613C0A12, 0xC58215C3, 0xE5C6AF68, 0x71C2224C, 0xD3CA0A67, 0xD1D08B9A, 0x4B1241EF, 0x41788D48,
    0x1775BF3E, 0x15727D66, 0xC10670BD, 0x5478DA90, 0xB6CFBF3B, 0x64455D31, 0x785DF391, 0x5F9D401E,
    0x53507658, 0x37416211, 0xD755E1A1, 0xBB7D8FB0, 0xAA229541, 0xCA65EA4F, 0x8CCDA135]

  const ROW9: seq<int> := [
    0x4424E762, 0x1FAF3D01, 0x95A70C61, 0xDA43C8A9, 0x35BCDB54, 0x299FEFCA, 0x3A4C56EE, 0xF7B15902,
    0x8ADBF9DC, 0xFFCE6CB1, 0xDD78086A, 0xFC9E1C28, 0xD3987718, 0xAF489404, 0x47B05E17, 0x15110460,
    0xC6BE5342, 0x5D22DB7D, 0xD617751D, 0x1B372DD2, 0x13F29AB8, 0x3A5CD24E, 0x93952163, 0x738FDAD6,
    0x8DAD48A6, 0xCAD68374, 0x4AE5BC77, 0x492AD856, 0x74F918B5, 0x154BA6C6, 0xD5F8798B]

  const ROW10: seq<int> := [
    0xB91E0017, 0x34FAE3C7, 0x6B9F85EC, 0x9361C8C0, 0x6AB7BF1B, 0x953F75B6, 0xCDAE1FAE, 0x6269181D,
    0x201B6F92, 0xCD7C8C5F, 0x3FE12087, 0x1CB98BBA, 0xA1150377, 0xEF29B48B, 0x6469E9D1, 0xB62607D7,
    0xB5E807CD, 0xC18CC54E, 0x8C3D7CF4, 0xD11F359F, 0xD57F6006, 0xC69A4F42, 0x64B45702, 0x490F3ADC,
    0x544797E8, 0x2F8ADA76, 0x93F4F753, 0x9D72703E, 0xA483F32B, 0xA9409E19, 0x736AE9C9]

  const ROW11: seq<int> := [
    0x5DA1F342, 0xDE3B81E0, 0xDF0A6FB5, 0xF103BC02, 0x48F340FB, 0x7449E56B, 0xBEB1DBB0, 0xAB5C5918,
    0x946554FD, 0x8C2E680F, 0xEB3D799F, 0xB11EE0B7, 0x2D436B86, 0xDA672E2A, 0x1588CA88, 0xE369735D,
    0x904F35F7, 0xD7158FD6, 0x6FA6F051, 0x616E6B96, 0xAC94EFDC, 0x36413F93, 0xC622C298, 0xF5A42AB8,
    0x8A88D77B, 0xF5AD9D0E, 0x8999220B, 0x27FB47B9, 0x9A319039, 0x32D9C024, 0x9B663182]

  const STREAM: seq<seq<int>> := [[], ROW1, ROW2, ROW3, ROW4, ROW5, ROW6, ROW7, ROW8, ROW9, ROW10, ROW11]

  function NextSeed(x: int): int {
    (1103515245 * x + 12345) % WORDS
  }

  predicate Seeds1(r: seq<int>)
    requires |r| == 31
  {
    && r[29] == NextSeed(r[28]) && r[30] == NextSeed(r[29]) && r[0] == NextSeed(r[30])
    && r[1] == NextSeed(r[0]) && r[2] == NextSeed(r[1]) && r[3] == NextSeed(r[2])
  }

  predicate Seeds2(r: seq<int>)
    requires |r| == 31
  {
    && r[4] == NextSeed(r[3]) && r[5] == NextSeed(r[4]) && r[6] == NextSeed(r[5])
    && r[7] == NextSeed(r[6]) && r[8] == NextSeed(r[7]) && r[9] == NextSeed(r[8])
  }

  predicate Seeds3(r: seq<int>)
    requires |r| == 31
  {
    && r[10] == NextSeed(r[9]) && r[11] == NextSeed(r[10]) && r[12] == NextSeed(r[11])
    && r[13] == NextSeed(r[12]) && r[14] == NextSeed(r[13]) && r[15] == NextSeed(r[14])
  }

  predicate Seeds4(r: seq<int>)
    requires |r| == 31
  {
    && r[16] == NextSeed(r[15]) && r[17] == NextSeed(r[16]) && r[18] == NextSeed(r[17])
    && r[19] == NextSeed(r[18]) && r[20] == NextSeed(r[19]) && r[21] == NextSeed(r[20])
  }

  predicate Seeds5(r: seq<int>)
    requires |r| == 31
  {
    && r[22] == NextSeed(r[21]) && r[23] == NextSeed(r[22]) && r[24] == NextSeed(r[23])
    && r[25] == NextSeed(r[24]) && r[26] == NextSeed(r[25]) && r[27] == NextSeed(r[26])
  }

  /** The seed 1 stands at the place 28 of the row, and its successors follow round the row. */
  predicate SeedRow(r: seq<int>)
    requires |r| == 31
  {
    r[28] == 1 && Seeds1(r) && Seeds2(r) && Seeds3(r) && Seeds4(r) && Seeds5(r)
  }

  /** The sum of two words. */
  predicate Plus(a: int, b: int, c: int) {
    0 <= c < WORDS && (c == a + b || c == a + b - WORDS)
  }

  predicate RowBegins(r: seq<int>, n: seq<int>)
    requires |r| == |n| == 31
  {
    && Plus(r[0], r[28], n[0]) && Plus(r[1], r[29], n[1]) && Plus(r[2], r[30], n[2])
    && Plus(r[3], n[0], n[3]) && Plus(r[4], n[1], n[4]) && Plus(r[5], n[2], n[5])
    && Plus(r[6], n[3], n[6]) && Plus(r[7], n[4], n[7]) && Plus(r[8], n[5], n[8])
    && Plus(r[9], n[6], n[9]) && Plus(r[10], n[7], n[10]) && Plus(r[11], n[8], n[11])
    && Plus(r[12], n[9], n[12]) && Plus(r[13], n[10], n[13]) && Plus(r[14], n[11], n[14])
    && Plus(r[15], n[12], n[15])
  }

  predicate RowEnds(r: seq<int>, n: seq<int>)
    requires |r| == |n| == 31
  {
    && Plus(r[16], n[13], n[16]) && Plus(r[17], n[14], n[17]) && Plus(r[18], n[15], n[18])
    && Plus(r[19], n[16], n[19]) && Plus(r[20], n[17], n[20]) && Plus(r[21], n[18], n[21])
    && Plus(r[22], n[19], n[22]) && Plus(r[23], n[20], n[23]) && Plus(r[24], n[21], n[24])
    && Plus(r[25], n[22], n[25]) && Plus(r[26], n[23], n[26]) && Plus(r[27], n[24], n[27])
    && Plus(r[28], n[25], n[28]) && Plus(r[29], n[26], n[29]) && Plus(r[30], n[27], n[30])
  }

  /** Each word of a row is the sum of those 31 and 3 places before it. */
  predicate RowFollows(r: seq<int>, n: seq<int>)
    requires |r| == |n| == 31
  {
    RowBegins(r, n) && RowEnds(r, n)
  }

  lemma FirstRow1()
    ensures |ROW1| == 31 && ROW1[28] == 1 && Seeds1(ROW1)
  {
  }

  lemma FirstRow2()
    ensures |ROW1| == 31 && Seeds2(ROW1)
  {
  }

  lemma FirstRow3()
    ensures |ROW1| == 31 && Seeds3(ROW1)
  {
  }

  lemma FirstRow4()
    ensures |ROW1| == 31 && Seeds4(ROW1)
  {
  }

  lemma FirstRow5()
    ensures |ROW1| == 31 && Seeds5(ROW1)
  {
  }

  lemma Begin1()
    ensures |ROW1| == |ROW2| == 31 && RowBegins(ROW1, ROW2)
  {
  }

  lemma End1()
    ensures |ROW1| == |ROW2| == 31 && RowEnds(ROW1, ROW2)
  {
  }

  lemma Begin2()
    ensures |ROW2| == |ROW3| == 31 && RowBegins(ROW2, ROW3)
  {
  }

  lemma End2()
    ensures |ROW2| == |ROW3| == 31 && RowEnds(ROW2, ROW3)
  {
  }

  lemma Begin3()
    ensures |ROW3| == |ROW4| == 31 && RowBegins(ROW3, ROW4)
  {
  }

  lemma End3()
    ensures |ROW3| == |ROW4| == 31 && RowEnds(ROW3, ROW4)
  {
  }

  lemma Begin4()
    ensures |ROW4| == |ROW5| == 31 && RowBegins(ROW4, ROW5)
  {
  }

  lemma End4()
    ensures |ROW4| == |ROW5| == 31 && RowEnds(ROW4, ROW5)
  {
  }

  lemma Begin5()
    ensures |ROW5| == |ROW6| == 31 && RowBegins(ROW5, ROW6)
  {
  }

  lemma End5()
    ensures |ROW5| == |ROW6| == 31 && RowEnds(ROW5, ROW6)
  {
  }

  lemma Begin6()
    ensures |ROW6| == |ROW7| == 31 && RowBegins(ROW6, ROW7)
  {
  }

  lemma End6()
    ensures |ROW6| == |ROW7| == 31 && RowEnds(ROW6, ROW7)
  {
  }

  lemma Begin7()
    ensures |ROW7| == |ROW8| == 31 && RowBegins(ROW7, ROW8)
  {
  }

  lemma End7()
    ensures |ROW7| == |ROW8| == 31 && RowEnds(ROW7, ROW8)
  {
  }

  lemma Begin8()
    ensures |ROW8| == |ROW9| == 31 && RowBegins(ROW8, ROW9)
  {
  }

  lemma End8()
    ensures |ROW8| == |ROW9| == 31 && RowEnds(ROW8, ROW9)
  {
  }

  lemma Begin9()
    ensures |ROW9| == |ROW10| == 31 && RowBegins(ROW9, ROW10)
  {
  }

  lemma End9()
    ensures |ROW9| == |ROW10| == 31 && RowEnds(ROW9, ROW10)
  {
  }

  lemma Begin10()
    ensures |ROW10| == |ROW11| == 31 && RowBegins(ROW10, ROW11)
  {
  }

  lemma End10()
    ensures |ROW10| == |ROW11| == 31 && RowEnds(ROW10, ROW11)
  {
  }

  lemma RowsFollow(i: nat)
    requires 1 <= i <= 10
    ensures |STREAM| == 12 && |STREAM[i]| == |STREAM[i + 1]| == 31 && RowFollows(STREAM[i], STREAM[i + 1])
  {
    hide RowBegins, RowEnds;
    if i == 1 { Begin1(); End1(); }
    if i == 2 { Begin2(); End2(); }
    if i == 3 { Begin3(); End3(); }
    if i == 4 { Begin4(); End4(); }
    if i == 5 { Begin5(); End5(); }
    if i == 6 { Begin6(); End6(); }
    if i == 7 { Begin7(); End7(); }
    if i == 8 { Begin8(); End8(); }
    if i == 9 { Begin9(); End9(); }
    if i == 10 { Begin10(); End10(); }
  }

  // ----- from the rows to the stream -----

  function Behind(k: nat): (j: nat)
    requires k < 31
    ensures j < 31
  {
    if k == 30 then 0 else k + 1
  }

  lemma SeedAt(r: seq<int>, k: nat)
    requires |r| == 31 && SeedRow(r) && k < 31 && k != 27
    ensures r[Behind(k)] == NextSeed(r[k])
  {
    hide NextSeed;
  }

  lemma SeedFirst(r: seq<int>)
    requires |r| == 31 && SeedRow(r)
    ensures r[28] == 1
  {
  }

  /** The row holds the seed and its successors, from the front pointer on. */
  lemma {:induction false} SeedRowIs(r: seq<int>, n: nat)
    requires |r| == 31 && SeedRow(r) && n < 31
    ensures r[if n < 3 then n + 28 else n - 3] == Seeded(1, n)
  {
    hide SeedRow, NextSeed;
    if n == 0 {
      SeedFirst(r);
      SeedOne();
    } else {
      SeedRowIs(r, n - 1);
      SeedAt(r, if n - 1 < 3 then n - 1 + 28 else n - 1 - 3);
      SeededStep(n);
    }
  }

  lemma SeedOne()
    ensures Seeded(1, 0) == 1
  {
  }

  lemma SeededStep(n: nat)
    requires n > 0
    ensures Seeded(1, n) == NextSeed(Seeded(1, n - 1))
  {
  }

  lemma FollowsAt(r: seq<int>, n: seq<int>, k: nat)
    requires |r| == |n| == 31 && RowFollows(r, n) && k < 31
    ensures Plus(r[k], if k >= 3 then n[k - 3] else r[28 + k], n[k])
  {
    hide Plus;
  }

  lemma PlusIs(a: int, b: int, c: int)
    requires Plus(a, b, c)
    ensures c == (a + b) % WORDS
  {
  }

  lemma WordFirst(q: seq<int>, sep: nat, k: nat)
    requires 1 <= sep < |q| && k < |q|
    ensures Word(q, sep, k) == q[k]
  {
  }

  lemma WordNext(q: seq<int>, sep: nat, k: nat)
    requires 1 <= sep < |q| && k >= |q|
    ensures Word(q, sep, k) == (Word(q, sep, k - |q|) + Word(q, sep, k - sep)) % WORDS
  {
  }

  /** The recurrences of the four types are those of the polynomials named for them: x**7 + x**3 + 1 and so on. */
  lemma Polynomials(q: seq<int>, kind: nat, k: nat)
    requires 1 <= kind < MAX_TYPES && |q| == DEGREES[kind] && k >= |q|
    ensures kind == 1 ==> Word(q, SEPS[1], k) == (Word(q, 3, k - 7) + Word(q, 3, k - 3)) % WORDS
    ensures kind == 2 ==> Word(q, SEPS[2], k) == (Word(q, 1, k - 15) + Word(q, 1, k - 1)) % WORDS
    ensures kind == 3 ==> Word(q, SEPS[3], k) == (Word(q, 3, k - 31) + Word(q, 3, k - 3)) % WORDS
    ensures kind == 4 ==> Word(q, SEPS[4], k) == (Word(q, 1, k - 63) + Word(q, 1, k - 1)) % WORDS
  {
    hide Word;
    WordNext(q, SEPS[kind], k);
  }

  /** The row holds the words of the stream from `base` on. */
  ghost predicate Words(q: seq<int>, base: nat, r: seq<int>)
    requires |q| == 31
  {
    |r| == 31 && forall k: nat :: k < 31 ==> r[k] == Word(q, 3, base + k)
  }

  lemma {:induction false} NextWord(q: seq<int>, base: nat, r: seq<int>, n: seq<int>, k: nat)
    requires |q| == |n| == 31 && Words(q, base, r) && RowFollows(r, n) && k < 31
    ensures n[k] == Word(q, 3, base + 31 + k)
  {
    hide RowFollows, Word, Plus;
    if k >= 3 {
      NextWord(q, base, r, n, k - 3);
    }
    FollowsAt(r, n, k);
    PlusIs(r[k], if k >= 3 then n[k - 3] else r[28 + k], n[k]);
    WordNext(q, 3, base + 31 + k);
  }

  lemma NextWords(q: seq<int>, base: nat, r: seq<int>, n: seq<int>)
    requires |q| == |n| == 31 && Words(q, base, r) && RowFollows(r, n)
    ensures Words(q, base + 31, n)
  {
    hide RowFollows, Word;
    forall k: nat | k < 31
      ensures n[k] == Word(q, 3, base + 31 + k)
    {
      NextWord(q, base, r, n, k);
    }
  }

  lemma FirstRow()
    ensures |ROW1| == 31 && SeedRow(ROW1)
  {
    hide Seeds1, Seeds2, Seeds3, Seeds4, Seeds5;
    FirstRow1();
    FirstRow2();
    FirstRow3();
    FirstRow4();
    FirstRow5();
  }

  lemma SeedWords(r: seq<int>)
    requires |r| == 31 && SeedRow(r)
    ensures Words(SeededQueue(1, 31, 3), 0, r)
  {
    hide SeedRow, Seeded, Word;
    var q := SeededQueue(1, 31, 3);
    forall k: nat | k < 31
      ensures r[k] == Word(q, 3, 0 + k)
    {
      SeedRowIs(r, (k + 3) % 31);
      WordFirst(q, 3, k);
    }
  }

  /** Row `i` holds the words of the stream from `31 * (i - 1)` on. */
  lemma {:induction false} RowWords(i: nat)
    requires 1 <= i <= 11
    ensures |STREAM| == 12 && Words(SeededQueue(1, 31, 3), 31 * (i - 1), STREAM[i])
  {
    hide Words, RowFollows, SeededQueue, SeedRow;
    if i == 1 {
      FirstRow();
      SeedWords(ROW1);
    } else {
      RowWords(i - 1);
      RowsFollow(i - 1);
      NextWords(SeededQueue(1, 31, 3), 31 * (i - 2), STREAM[i - 1], STREAM[i]);
    }
  }

  predicate Front1(t: seq<int>, r: seq<int>)
    requires |t| == 32 && |r| == 31
  {
    && r[0] == t[4] && r[1] == t[5] && r[2] == t[6]
  }

  predicate Front2(t: seq<int>, r: seq<int>)
    requires |t| == 32 && |r| == 31
  {
    && r[3] == t[7] && r[4] == t[8] && r[5] == t[9]
  }

  predicate Front3(t: seq<int>, r: seq<int>)
    requires |t| == 32 && |r| == 31
  {
    && r[6] == t[10] && r[7] == t[11] && r[8] == t[12] && r[9] == t[13]
    && r[10] == t[14] && r[11] == t[15]
  }

  predicate Front4(t: seq<int>, r: seq<int>)
    requires |t| == 32 && |r| == 31
  {
    && r[12] == t[16] && r[13] == t[17] && r[14] == t[18] && r[15] == t[19]
    && r[16] == t[20] && r[17] == t[21] && r[18] == t[22] && r[19] == t[23]
  }

  predicate Front5(t: seq<int>, r: seq<int>)
    requires |t| == 32 && |r| == 31
  {
    && r[20] == t[24] && r[21] == t[25] && r[22] == t[26] && r[23] == t[27]
    && r[24] == t[28] && r[25] == t[29] && r[26] == t[30] && r[27] == t[31]
    && r[28] == t[1] && r[29] == t[2] && r[30] == t[3]
  }

  /** The table's words from place 4 on, round to it again, are the row. */
  predicate FromFront(t: seq<int>, r: seq<int>)
    requires |t| == 32 && |r| == 31
  {
    Front1(t, r) && Front2(t, r) && Front3(t, r) && Front4(t, r) && Front5(t, r)
  }

  lemma Last1()
    ensures |RANDTBL| == 32 && |ROW11| == 31 && Front1(RANDTBL, ROW11)
  {
  }

  lemma Last2()
    ensures |RANDTBL| == 32 && |ROW11| == 31 && Front2(RANDTBL, ROW11)
  {
  }

  lemma Last3()
    ensures |RANDTBL| == 32 && |ROW11| == 31 && Front3(RANDTBL, ROW11)
  {
  }

  lemma Last4()
    ensures |RANDTBL| == 32 && |ROW11| == 31 && Front4(RANDTBL, ROW11)
  {
  }

  lemma Last5()
    ensures |RANDTBL| == 32 && |ROW11| == 31 && Front5(RANDTBL, ROW11)
  {
  }

  lemma TableWords()
    ensures WordTable(RANDTBL) && |RANDTBL| == 32 && RANDTBL[0] == 3
  {
  }

  lemma FromFrontIs(t: seq<int>, r: seq<int>)
    requires |t| == 32 && |r| == 31 && FromFront(t, r)
    ensures Queue(t, 31, 3) == r
  {
    forall k: nat | k < 31
      ensures Queue(t, 31, 3)[k] == r[k]
    {
      FrontAt(t, r, k);
    }
  }

  lemma FrontAt(t: seq<int>, r: seq<int>, k: nat)
    requires |t| == 32 && |r| == 31 && FromFront(t, r) && k < 31
    ensures r[k] == t[if k < 28 then k + 4 else k - 27]
  {
  }

  lemma StreamEnd()
    ensures |STREAM| == 12 && STREAM[11] == ROW11
  {
  }

  /** The built-in table is the one that initstate makes of the seed 1. */
  lemma BuiltIn()
    ensures Left(RANDTBL) && Saved(RANDTBL) == Steps(SeededQueue(1, 31, 3), 3, 310)
  {
    hide Queue, Steps, SeededQueue, Front1, Front2, Front3, Front4, Front5, Words, Word;
    var q := SeededQueue(1, 31, 3);
    TableWords();
    Last1();
    Last2();
    Last3();
    Last4();
    Last5();
    FromFrontIs(RANDTBL, ROW11);
    StreamEnd();
    RowWords(11);
    WordsSteps(q, ROW11);
    SavedIs(RANDTBL);
  }

  lemma WordsSteps(q: seq<int>, r: seq<int>)
    requires |q| == 31 && Words(q, 310, r)
    ensures Steps(q, 3, 310) == r
  {
    hide Word, Steps;
    forall k: nat | k < 31
      ensures Steps(q, 3, 310)[k] == r[k]
    {
      StepsWords(q, 3, 310, k);
    }
  }

  lemma SavedIs(s: seq<int>)
    requires |s| == 32 && WordTable(s) && s[0] == 3
    ensures Left(s) && Saved(s) == Queue(s, 31, 3)
  {
    hide Queue;
  }
}

/** srandom, initstate, setstate and random of bsdlibc/gen/random.c on 32-bit words. */
module Random {
  const MAX_TYPES: int := 5
  const WORDS: int := 0x1_0000_0000
  const DEGREES: seq<int> := [0, 7, 15, 31, 63]
  const SEPS: seq<int> := [0, 3, 1, 3, 1]
  const BREAK_0: int := 8
  const BREAK_1: int := 32
  const BREAK_2: int := 64
  const BREAK_3: int := 128
  const BREAK_4: int := 256

  // ----- the recurrence -----

  /** The last words of a stream, oldest first, one step on. */
  function Step(q: seq<int>, sep: nat): (r: seq<int>)
    requires 1 <= sep < |q|
    ensures |r| == |q|
  {
    q[1..] + [(q[0] + q[|q| - sep]) % WORDS]
  }

  function Steps(q: seq<int>, sep: nat, n: nat): (r: seq<int>)
    requires 1 <= sep < |q|
    ensures |r| == |q|
  {
    if n == 0 then q else Step(Steps(q, sep, n - 1), sep)
  }

  /** Word `k` of the stream that begins with the words `q`: the sum of the words `deg` and `sep` before it. */
  function Word(q: seq<int>, sep: nat, k: nat): int
    requires 1 <= sep < |q|
  {
    if k < |q| then q[k] else (Word(q, sep, k - |q|) + Word(q, sep, k - sep)) % WORDS
  }

  /** After `n` steps the queue holds words `n` and following of the stream. */
  lemma {:induction false} StepsWords(q: seq<int>, sep: nat, n: nat, k: nat)
    requires 1 <= sep < |q| && k < |q|
    ensures Steps(q, sep, n)[k] == Word(q, sep, n + k)
    decreases n, k
  {
    if n > 0 {
      if k < |q| - 1 {
        StepsWords(q, sep, n - 1, k + 1);
      } else {
        StepsWords(q, sep, n - 1, 0);
        StepsWords(q, sep, n - 1, |q| - sep);
      }
    }
  }

  lemma StepsNone(q: seq<int>, sep: nat)
    requires 1 <= sep < |q|
    ensures Steps(q, sep, 0) == q
  {
  }

  lemma StepsMore(q: seq<int>, sep: nat, n: nat)
    requires 1 <= sep < |q|
    ensures Steps(q, sep, n + 1) == Step(Steps(q, sep, n), sep)
  {
  }

  lemma StepsAgain(q: seq<int>, sep: nat, n: nat)
    requires 1 <= sep < |q|
    ensures Steps(Steps(q, sep, n), sep, 1) == Steps(q, sep, n + 1)
  {
    var p := Steps(q, sep, n);
    assert Steps(p, sep, 1) == Step(Steps(p, sep, 0), sep);
  }

  /** The seed and the words that a congruential generator makes of it. */
  function Seeded(x: int, n: nat): int {
    if n == 0 then x else (1103515245 * Seeded(x, n - 1) + 12345) % WORDS
  }

  // ----- the table -----

  predicate Kind(kind: int, deg: int, sep: int) {
    0 <= kind < MAX_TYPES && deg == DEGREES[kind] && sep == SEPS[kind]
  }

  lemma KindFacts(kind: int, deg: int, sep: int)
    requires Kind(kind, deg, sep)
    ensures kind == 0 <==> deg == 0
    ensures kind != 0 ==> 1 <= sep < deg && deg >= 7
  {
  }

  /** The words of a table from the front pointer round to it again: the stream's last words, oldest first. */
  function Queue(s: seq<int>, deg: int, front: nat): (q: seq<int>)
    requires front <= deg && deg + 1 <= |s|
    ensures |q| == deg
  {
    s[1 + front..1 + deg] + s[1..1 + front]
  }

  lemma QueueAt(s: seq<int>, deg: nat, front: nat, k: nat)
    requires front < deg && deg + 1 <= |s| && k < deg
    ensures Queue(s, deg, front)[k] == s[1 + if front + k < deg then front + k else front + k - deg]
  {
  }

  /** Adding the rear word to the front word and moving on is one step of the recurrence. */
  lemma RingStep(s: seq<int>, deg: nat, sep: nat, front: nat, rear: nat)
    requires 1 <= sep < deg && deg + 1 <= |s| && rear < deg && front == (rear + sep) % deg
    ensures front < deg
    ensures var v := (s[1 + front] + s[1 + rear]) % WORDS;
            && Queue(s[1 + front := v], deg, (front + 1) % deg) == Step(Queue(s, deg, front), sep)
            && v == Step(Queue(s, deg, front), sep)[deg - 1]
  {
    hide Queue, Step;
    Modulo(rear + sep, deg);
    Modulo(front + 1, deg);
    RingAdd(s, deg, sep, front, rear, (front + 1) % deg);
  }

  lemma RingAdd(s: seq<int>, deg: nat, sep: nat, front: nat, rear: nat, next: nat)
    requires 1 <= sep < deg && deg + 1 <= |s| && rear < deg && front < deg
    requires front == if rear + sep < deg then rear + sep else rear + sep - deg
    requires next == if front + 1 < deg then front + 1 else 0
    ensures var v := (s[1 + front] + s[1 + rear]) % WORDS;
            && Queue(s[1 + front := v], deg, next) == Step(Queue(s, deg, front), sep)
            && v == Step(Queue(s, deg, front), sep)[deg - 1]
  {
    hide Queue;
    var q, v := Queue(s, deg, front), (s[1 + front] + s[1 + rear]) % WORDS;
    QueueAt(s, deg, front, 0);
    QueueAt(s, deg, front, deg - sep);
    var t := s[1 + front := v];
    var q' := Queue(t, deg, next);
    forall k: nat | k < deg
      ensures q'[k] == if k < deg - 1 then q[k + 1] else v
    {
      QueueAt(t, deg, next, k);
      if k < deg - 1 {
        QueueAt(s, deg, front, k + 1);
      }
    }
    assert q' == q[1..] + [v];
  }

  lemma Modulo(a: nat, n: nat)
    requires n > 0 && a < 2 * n
    ensures a % n == if a < n then a else a - n
  {
    if a >= n {
      assert (a - n) % n == a - n;
      assert a == n + (a - n);
    }
  }

  predicate WordTable(s: seq<int>) {
    forall k :: 0 <= k < |s| ==> 0 <= s[k] < WORDS
  }

  /** A table that initstate or setstate has left: its first word tells its type and its rear pointer. */
  predicate Left(s: seq<int>) {
    && WordTable(s) && |s| >= 2
    && var kind := s[0] % MAX_TYPES;
       && DEGREES[kind] + 1 <= |s|
       && (kind != 0 ==> s[0] / MAX_TYPES < DEGREES[kind])
       && (kind == 0 ==> s[0] == 0)
  }

  /** The words that determine all numbers to come from a table that was left. */
  function Saved(s: seq<int>): (q: seq<int>)
    requires Left(s)
  {
    var kind := s[0] % MAX_TYPES;
    KindFacts(kind, DEGREES[kind], SEPS[kind]);
    if kind == 0 then [s[1]] else Queue(s, DEGREES[kind], (s[0] / MAX_TYPES + SEPS[kind]) % DEGREES[kind])
  }

  /** The words behind the first are the stream. */
  lemma SavedAs(s: seq<int>, t: seq<int>, kind: int)
    requires Left(s) && kind == s[0] % MAX_TYPES && |t| == |s| && forall k :: 1 <= k < |s| ==> t[k] == s[k]
    ensures kind == 0 ==> Saved(s) == [t[1]]
    ensures kind != 0 ==>
      SEPS[kind] >= 0 && Saved(s) == Queue(t, DEGREES[kind], (s[0] / MAX_TYPES + SEPS[kind]) % DEGREES[kind])
  {
    hide Queue;
    KindFacts(kind, DEGREES[kind], SEPS[kind]);
    if kind != 0 {
      QueueSame(s, t, DEGREES[kind], (s[0] / MAX_TYPES + SEPS[kind]) % DEGREES[kind]);
    }
  }

  lemma QueueSame(s: seq<int>, t: seq<int>, deg: nat, front: nat)
    requires front <= deg && deg + 1 <= |s| == |t| && forall k :: 1 <= k < |s| ==> t[k] == s[k]
    ensures Queue(t, deg, front) == Queue(s, deg, front)
  {
    assert t[1..1 + front] == s[1..1 + front];
    assert t[1 + front..1 + deg] == s[1 + front..1 + deg];
  }

  /** The first word is no part of the stream. */
  lemma QueueTail(s: seq<int>, w: int, deg: int, front: nat)
    requires front <= deg && deg + 1 <= |s|
    ensures Queue(s[0 := w], deg, front) == Queue(s, deg, front)
  {
  }

  /** The word before the state, as initstate and setstate write it. */
  function Multiplexed(kind: int, rear: nat): int {
    if kind == 0 then 0 else MAX_TYPES * rear + kind
  }

  /** A table whose first word holds the type and the rear pointer. */
  lemma SavedWord(s: seq<int>, kind: int, deg: int, sep: int, rear: nat)
    requires Kind(kind, deg, sep) && WordTable(s) && |s| >= 2 && deg + 1 <= |s| && (kind != 0 ==> rear < deg)
    ensures var w := Multiplexed(kind, rear);
            var t := s[0 := w];
            && w % MAX_TYPES == kind && Left(t)
            && (kind == 0 ==> Saved(t) == [s[1]])
            && (kind != 0 ==> sep >= 0 && Saved(t) == Queue(s, deg, (rear + sep) % deg))
  {
    hide Queue, Saved;
    KindFacts(kind, deg, sep);
    if kind != 0 {
      RemainderIs(MAX_TYPES, rear, kind);
    }
    SavedAs(s[0 := Multiplexed(kind, rear)], s, kind);
  }

  /** The generator for `n` bytes of state. */
  function KindFor(n: int): (kind: int)
    requires n >= BREAK_0
    ensures 0 <= kind < MAX_TYPES && 4 * (DEGREES[kind] + 1) <= n
    ensures kind < 4 ==> n < 4 * (DEGREES[kind + 1] + 1)
  {
    if n < BREAK_1 then 0 else if n < BREAK_2 then 1 else if n < BREAK_3 then 2 else if n < BREAK_4 then 3 else 4
  }

  /** The words of a freshly seeded table, from the front pointer on. */
  function SeededQueue(x: int, deg: nat, sep: nat): (q: seq<int>)
    requires sep < deg
    ensures |q| == deg
  {
    seq(deg, k requires 0 <= k < deg => Seeded(x, (k + sep) % deg))
  }

  lemma SeededQueueIs(s: seq<int>, x: int, deg: nat, sep: nat)
    requires sep < deg && deg + 1 <= |s| && forall k :: 0 <= k < deg ==> s[1 + k] == Seeded(x, k)
    ensures Queue(s, deg, sep) == SeededQueue(x, deg, sep)
  {
    forall k | 0 <= k < deg
      ensures Queue(s, deg, sep)[k] == SeededQueue(x, deg, sep)[k]
    {
      Modulo(k + sep, deg);
    }
  }

  lemma CycleStep(i: nat, n: nat)
    requires n > 0
    ensures (i % n + 1) % n == (i + 1) % n
  {
    var q, r := i / n, i % n;
    assert i == n * q + r;
    if r + 1 < n {
      RemainderIs(n, q, r + 1);
      assert (i + 1) % n == r + 1;
    } else {
      RemainderIs(n, q + 1, 0);
      assert i + 1 == n * (q + 1) + 0;
    }
  }

  /** Going `i` places round a ring of `n` ends where it began exactly after whole rounds. */
  lemma WholeRounds(r: nat, i: nat, n: nat)
    requires r < n
    ensures (r + i) % n == r <==> i % n == 0
  {
    var q, e := i / n, i % n;
    assert r + i == n * q + (r + e);
    if r + e < n {
      RemainderIs(n, q, r + e);
    } else {
      RemainderIs(n, q + 1, r + e - n);
      assert r + i == n * (q + 1) + (r + e - n);
    }
  }

  lemma RemainderIs(n: nat, q: nat, r: nat)
    requires r < n
    ensures (n * q + r) % n == r && (n * q + r) / n == q
  {
    var a := n * q + r;
    var d := a / n - q;
    assert n * d == n * (a / n) - n * q == r - a % n;
    Multiple(n, d);
  }

  lemma Multiple(n: int, d: int)
    requires n > 0
    ensures d >= 1 ==> n * d >= n
    ensures d <= -1 ==> n * d <= -n
  {
    if d >= 1 {
      assert n * d == n + n * (d - 1);
    } else if d <= -1 {
      assert n * d == -n + n * (d + 1);
    }
  }

  /** The words of a queue, `i` of them later. */
  function Rotated(q: seq<int>, i: nat): (r: seq<int>)
    requires i <= |q|
    ensures |r| == |q|
  {
    q[i..] + q[..i]
  }

  /** A front pointer further on sees the same words, rotated. */
  lemma QueueRotated(s: seq<int>, deg: nat, f: nat, n: nat, g: nat)
    requires f < deg && deg + 1 <= |s| && g == (f + n) % deg
    ensures n % deg <= deg && Queue(s, deg, g) == Rotated(Queue(s, deg, f), n % deg)
  {
    hide Queue;
    var i := n % deg;
    FrontLater(f, n, deg);
    var q, r := Queue(s, deg, f), Queue(s, deg, g);
    forall k | 0 <= k < deg
      ensures r[k] == Rotated(q, i)[k]
    {
      QueueAt(s, deg, g, k);
      QueueAt(s, deg, f, if k + i < deg then k + i else k + i - deg);
    }
  }

  lemma FrontLater(f: nat, n: nat, deg: nat)
    requires f < deg
    ensures (f + n) % deg == if f + n % deg < deg then f + n % deg else f + n % deg - deg
  {
    var q, i := n / deg, n % deg;
    assert f + n == deg * q + (f + i);
    if f + i < deg {
      RemainderIs(deg, q, f + i);
    } else {
      assert f + n == deg * (q + 1) + (f + i - deg);
      RemainderIs(deg, q + 1, f + i - deg);
    }
  }

  lemma RotatedNone(q: seq<int>)
    ensures Rotated(q, 0) == q
  {
  }

  /** The front pointer after `n` draws. */
  lemma SameFront(rear: nat, n: nat, sep: nat, deg: nat)
    requires rear < deg && sep < deg
    ensures ((rear + n) % deg + sep) % deg == ((rear + sep) % deg + n) % deg
  {
    var q, e := (rear + n) / deg, (rear + n) % deg;
    var p, f := (rear + sep) / deg, (rear + sep) % deg;
    var a, b := (e + sep) / deg, (f + n) / deg;
    assert e + sep + deg * q == f + n + deg * p;
    RemainderSame(e + sep, f + n, deg, p - q);
  }

  lemma RemainderSame(x: nat, y: nat, n: nat, d: int)
    requires n > 0 && x == y + n * d
    ensures x % n == y % n
  {
    var k := x / n - y / n - d;
    assert n * k == n * (x / n) - n * (y / n) - n * d == y % n - x % n;
    Multiple(n, k);
  }

  // ----- the lowest bits of a seeded stream of type 1 -----

  /** Whether each of seven words is odd. */
  datatype Odds = Odds(a: bool, b: bool, c: bool, d: bool, e: bool, f: bool, g: bool)

  predicate OddWord(q: seq<int>, k: nat)
    requires |q| == 7
  {
    Word(q, 3, k) % 2 == 1
  }

  function OddsAt(q: seq<int>, n: nat): Odds
    requires |q| == 7
  {
    Odds(OddWord(q, n), OddWord(q, n + 1), OddWord(q, n + 2), OddWord(q, n + 3),
         OddWord(q, n + 4), OddWord(q, n + 5), OddWord(q, n + 6))
  }

  /** Seven steps of the recurrence with degree 7 and separation 3. */
  function SevenSteps(s: Odds): Odds {
    var a, b, c := s.a != s.e, s.b != s.f, s.c != s.g;
    var d := s.d != a;
    Odds(a, b, c, d, s.e != b, s.f != c, s.g != d)
  }

  lemma OddStep(q: seq<int>, k: nat)
    requires |q| == 7
    ensures OddWord(q, k + 7) <==> OddWord(q, k) != OddWord(q, k + 4)
  {
    var x := Word(q, 3, k) + Word(q, 3, k + 4);
    assert Word(q, 3, k + 7) == x % WORDS;
    assert x == WORDS * (x / WORDS) + x % WORDS;
  }

  lemma OddsStep(q: seq<int>, n: nat)
    requires |q| == 7
    ensures OddsAt(q, n + 7) == SevenSteps(OddsAt(q, n))
  {
    hide OddWord;
    OddStep(q, n);
    OddStep(q, n + 1);
    OddStep(q, n + 2);
    OddStep(q, n + 3);
    OddStep(q, n + 4);
    OddStep(q, n + 5);
    OddStep(q, n + 6);
  }

  function SevenTimes(s: Odds, i: nat): Odds {
    if i == 0 then s else SevenSteps(SevenTimes(s, i - 1))
  }

  lemma {:induction false} OddsLater(q: seq<int>, i: nat)
    requires |q| == 7
    ensures OddsAt(q, 7 * i) == SevenTimes(OddsAt(q, 0), i)
  {
    hide OddsAt, SevenSteps;
    if i > 0 {
      OddsLater(q, i - 1);
      OddsStep(q, 7 * (i - 1));
    }
  }

  lemma {:induction false} SeededOdd(x: int, n: nat)
    requires 0 <= x
    ensures Seeded(x, n) % 2 == (x + n) % 2
  {
    if n > 0 {
      SeededOdd(x, n - 1);
      SeededNext(x, n);
      hide Seeded;
      OddChain(Seeded(x, n), Seeded(x, n - 1), x + n - 1);
    }
  }

  lemma OddChain(r: int, s: int, m: int)
    requires r % 2 == (s + 1) % 2 && s % 2 == m % 2
    ensures r % 2 == (m + 1) % 2
  {
  }

  lemma SeededNext(x: int, n: nat)
    requires n > 0
    ensures Seeded(x, n) % 2 == (Seeded(x, n - 1) + 1) % 2
  {
    var s := Seeded(x, n - 1);
    OddTurn(s);
    EvenModulus(1103515245 * s + 12345);
  }

  lemma OddTurn(s: int)
    ensures (1103515245 * s + 12345) % 2 == (s + 1) % 2
  {
    assert 1103515245 * s + 12345 == 2 * (551757622 * s + 6172) + (s + 1);
  }

  lemma EvenModulus(y: int)
    ensures y % WORDS % 2 == y % 2
  {
    assert y == WORDS * (y / WORDS) + y % WORDS;
  }

  /** A freshly seeded queue has odd and even words in turn, round the ring. */
  lemma SeededOdds(x: nat)
    ensures var p, q := x % 2 == 1, SeededQueue(x, 7, 3);
            OddsAt(q, 0) == Odds(!p, p, !p, p, p, !p, p)
  {
    hide Seeded;
    SeededOdd(x, 0);
    SeededOdd(x, 1);
    SeededOdd(x, 2);
    SeededOdd(x, 3);
    SeededOdd(x, 4);
    SeededOdd(x, 5);
    SeededOdd(x, 6);
  }

  lemma TenTimes(p: bool)
    ensures var s := SevenTimes(Odds(!p, p, !p, p, p, !p, p), 10); s.c != s.d
  {
    var s0 := Odds(!p, p, !p, p, p, !p, p);
    var s1 := SevenSteps(s0);
    var s2 := SevenSteps(s1);
    var s3 := SevenSteps(s2);
    var s4 := SevenSteps(s3);
    var s5 := SevenSteps(s4);
    assert SevenTimes(s0, 1) == s1;
    assert SevenTimes(s0, 2) == s2;
    assert SevenTimes(s0, 3) == s3;
    assert SevenTimes(s0, 4) == s4;
    assert SevenTimes(s0, 5) == s5;
    var s6 := SevenSteps(s5);
    var s7 := SevenSteps(s6);
    var s8 := SevenSteps(s7);
    var s9 := SevenSteps(s8);
    assert SevenTimes(s0, 6) == s6;
    assert SevenTimes(s0, 7) == s7;
    assert SevenTimes(s0, 8) == s8;
    assert SevenTimes(s0, 9) == s9;
  }

  /** After seventy-one steps from any seed two neighbouring words differ. */
  lemma SeededNotAlike(x: nat)
    ensures var q := Steps(SeededQueue(x, 7, 3), 3, 71); q[1] != q[2]
  {
    hide Steps, SeededQueue, OddsAt, SevenTimes;
    var q := SeededQueue(x, 7, 3);
    SeededOdds(x);
    OddsLater(q, 10);
    TenTimes(x % 2 == 1);
    ThirdAndFourth(q, 70);
    StepsWords(q, 3, 71, 1);
    StepsWords(q, 3, 71, 2);
  }

  lemma ThirdAndFourth(q: seq<int>, n: nat)
    requires |q| == 7 && OddsAt(q, n).c != OddsAt(q, n).d
    ensures Word(q, 3, n + 2) != Word(q, 3, n + 3)
  {
  }

  lemma SmallQueues(s: seq<int>)
    requires |s| == 8
    ensures Queue(s, 7, 3) == [s[4], s[5], s[6], s[7], s[1], s[2], s[3]]
    ensures Queue(s, 7, 4) == [s[5], s[6], s[7], s[1], s[2], s[3], s[4]]
  {
  }

  lemma SmallStep(q: seq<int>)
    requires |q| == 7
    ensures Step(q, 3) == [q[1], q[2], q[3], q[4], q[5], q[6], (q[0] + q[4]) % WORDS]
  {
  }

  lemma SmallSaved(s: seq<int>)
    requires WordTable(s) && |s| == 8 && s[0] == 1
    ensures Left(s) && Saved(s) == Queue(s, 7, 3)
  {
    assert DEGREES[1] == 7 && SEPS[1] == 3;
    Modulo(3, 7);
  }

  /**
   One draw from the table `s` changes it to `t`.  The stream goes on from the front pointer at place 4, but the
   first word still tells where it was before: setstate brings back another stream.
   */
  lemma RewoundTable(s: seq<int>, t: seq<int>)
    requires s == [1, 1, 0, 0, 0, 0, 0, 0] && t == [1, 1, 0, 0, 1, 0, 0, 0]
    ensures Left(s) && Saved(s) == [0, 0, 0, 0, 1, 0, 0] && t[1..] == s[1..][3 := 1]
    ensures Queue(t, 7, 4) == Step(Saved(s), 3) == [0, 0, 0, 1, 0, 0, 1]
    ensures Left(t) && Saved(t) == [1, 0, 0, 0, 1, 0, 0]
  {
    hide Queue, Saved, Left, Step;
    SmallQueues(s);
    SmallQueues(t);
    SmallSaved(s);
    SmallSaved(t);
    SmallStep(Saved(s));
  }

  class Generator {
    var table: array<int>     // the current array, its first word before the state
    var kind: int
    var deg: int
    var sep: int
    var fptr: nat             // offsets from the first word of the state
    var rptr: nat
    var endPtr: int

    /** The type is chosen and the table is large enough for it. */
    ghost predicate Chosen()
      reads this, table
    {
      Kind(kind, deg, sep) && endPtr == deg && table.Length >= 2 && deg + 1 <= table.Length && WordTable(table[..])
    }

    ghost predicate Valid()
      reads this, table
    {
      && Chosen()
      && (kind != 0 ==> rptr < deg && fptr == (rptr + sep) % deg)
    }

    /** The first word tells the type and where the rear pointer is. */
    ghost predicate UpToDate()
      reads this, table
    {
      table.Length >= 2 && table[0] == Multiplexed(kind, rptr)
    }

    /** The words that determine all numbers to come. */
    ghost function State(): (q: seq<int>)
      reads this, table
      requires Valid()
    {
      KindFacts(kind, deg, sep);
      if kind == 0 then [table[1]] else Modulo(rptr + sep, deg); Queue(table[..], deg, fptr)
    }

    /** random */
    method Next() returns (i: int)
      requires Valid()
      modifies `fptr, `rptr, table
      ensures Valid() && table == old(table) && table[0] == old(table[0])
      ensures kind == 0 ==> i == (old(State()[0]) * 1103515245 + 12345) % 0x8000_0000 && State() == [i]
      ensures kind != 0 ==>
        1 <= sep < deg == |old(State())| && State() == Step(old(State()), sep) && i == State()[deg - 1] / 2
      ensures kind != 0 ==> rptr == (old(rptr) + 1) % deg
    {
      hide Step, Queue;
      KindFacts(kind, deg, sep);
      if kind == 0 {
        table[1] := (table[1] * 1103515245 + 12345) % 0x8000_0000;
        i := table[1];
      } else {
        i := AddRear();
        Advance();
      }
    }

    /** The sum of the rear and the front word goes to the front, and half of it is the number. */
    method AddRear() returns (i: int)
      requires Valid() && kind != 0
      modifies table
      ensures 1 <= sep < deg && fptr < deg && WordTable(table[..]) && table[0] == old(table[0])
      ensures Queue(table[..], deg, (fptr + 1) % deg) == Step(old(State()), sep)
      ensures i == Step(old(State()), sep)[deg - 1] / 2
    {
      hide Step, Queue;
      KindFacts(kind, deg, sep);
      RingStep(table[..], deg, sep, fptr, rptr);
      var v := (table[1 + fptr] + table[1 + rptr]) % WORDS;
      table[1 + fptr] := v;
      i := table[1 + fptr] / 2;
    }

    /** Both pointers move on; they cannot both come to the end at once. */
    method Advance()
      requires 1 <= sep < deg && rptr < deg && fptr == (rptr + sep) % deg && endPtr == deg
      modifies `fptr, `rptr
      ensures rptr == (old(rptr) + 1) % deg && fptr == (old(fptr) + 1) % deg && fptr == (rptr + sep) % deg
    {
      Modulo(rptr + 1, deg);
      Modulo(rptr + sep, deg);
      Modulo(fptr + 1, deg);
      fptr := fptr + 1;
      if fptr >= endPtr {
        fptr := 0;
        rptr := rptr + 1;
      } else {
        rptr := rptr + 1;
        if rptr >= endPtr {
          rptr := 0;
        }
      }
      Modulo(rptr + sep, deg);
    }

    /** srandom: after 10 * deg steps the rear pointer is at the first word again. */
    method Srandom(x: int)
      requires Chosen() && 0 <= x < WORDS
      modifies `fptr, `rptr, table
      ensures Valid() && table[0] == old(table[0])
      ensures kind == 0 ==> State() == [x]
      ensures kind != 0 ==> rptr == 0 && 1 <= sep < deg && State() == Steps(SeededQueue(x, deg, sep), sep, 10 * deg)
    {
      hide Steps, SeededQueue, Queue;
      KindFacts(kind, deg, sep);
      table[1] := x;
      if kind != 0 {
        Fill(x);
        fptr, rptr := sep, 0;
        SeededQueueIs(table[..], x, deg, sep);
        Modulo(sep, deg);
        StepsNone(State(), sep);
        ghost var q := State();
        for i := 0 to 10 * deg
          invariant Valid() && table[0] == old(table[0]) && rptr == i % deg && State() == Steps(q, sep, i)
        {
          StepsMore(q, sep, i);
          CycleStep(i, deg);
          var r := Next();
        }
        RemainderIs(deg, 10, 0);
      }
    }

    /** The congruential words of a seed. */
    method Fill(x: int)
      requires Chosen() && kind != 0 && table[1] == x && 0 <= x < WORDS
      modifies table
      ensures WordTable(table[..]) && table[0] == old(table[0])
      ensures forall k :: 0 <= k < deg ==> table[1 + k] == Seeded(x, k)
    {
      KindFacts(kind, deg, sep);
      for i := 1 to deg
        invariant WordTable(table[..]) && table[0] == old(table[0])
        invariant forall k :: 0 <= k < i ==> table[1 + k] == Seeded(x, k)
      {
        table[1 + i] := (1103515245 * table[i] + 12345) % WORDS;
        assert table[i] == table[1 + (i - 1)] == Seeded(x, i - 1);
      }
    }

    /** Keeps the type and the rear pointer in the word before the state. */
    method Save()
      requires Valid()
      modifies table
      ensures Valid() && State() == old(State()) && Left(table[..]) && Saved(table[..]) == State()
      ensures UpToDate() && table[0] % MAX_TYPES == kind
      ensures forall k :: 1 <= k < table.Length ==> table[k] == old(table[k])
    {
      hide Queue, Left, Saved;
      SavedWord(table[..], kind, deg, sep, rptr);
      if kind != 0 {
        QueueTail(table[..], MAX_TYPES * rptr + kind, deg, fptr);
      }
      table[0] := if kind == 0 then kind else MAX_TYPES * rptr + kind;
    }

    /** initstate: too little state is refused; else the largest generator that fits it is seeded. */
    method Initstate(seed: int, arg: array<int>, n: int)
      requires Valid() && 0 <= seed < WORDS && n <= 4 * arg.Length && (arg.Length >= 2 ==> WordTable(arg[..]))
      modifies this, table, arg
      ensures Valid() && UpToDate() && Left(table[..])
      ensures n < BREAK_0 ==> table == old(table) && State() == old(State()) && kind == old(kind)
      ensures n >= BREAK_0 ==> table == arg && kind == KindFor(n) && Left(arg[..]) && Saved(arg[..]) == State()
      ensures n >= BREAK_0 && kind == 0 ==> State() == [seed]
      ensures n >= BREAK_0 && kind != 0 ==>
        rptr == 0 && 1 <= sep < deg && State() == Steps(SeededQueue(seed, deg, sep), sep, 10 * deg)
      ensures old(table) != arg ==> Left(old(table)[..]) && Saved(old(table)[..]) == old(State())
    {
      hide Steps, SeededQueue, Queue, Left, Saved;
      Save();
      if n < BREAK_0 {
        return;
      }
      kind := KindFor(n);
      deg, sep := DEGREES[kind], SEPS[kind];
      table := arg;
      endPtr := deg;
      Srandom(seed);
      Save();
    }

    /**
     setstate: the stream of the array goes on where the array's first word says, which was read before
     the current pointer was saved.
     */
    method Setstate(arg: array<int>)
      requires Valid() && Left(arg[..])
      modifies this, table
      ensures Valid() && table == arg && kind == old(arg[0]) % MAX_TYPES
      ensures State() == old(Saved(arg[..]))
      ensures kind != 0 ==> rptr == old(arg[0]) / MAX_TYPES
      ensures old(table) != arg ==> Left(old(table)[..]) && Saved(old(table)[..]) == old(State())
      ensures old(table) != arg ==> old(table)[0] % MAX_TYPES == old(kind) && arg[..] == old(arg[..]) && UpToDate()
    {
      hide Queue;
      var k, rear := arg[0] % MAX_TYPES, arg[0] / MAX_TYPES;
      ghost var s := arg[..];
      Save();
      SavedAs(s, arg[..], k);
      Restore(arg, k, rear);
    }

    /** The second half of setstate. */
    method Restore(arg: array<int>, k: int, rear: int)
      requires 0 <= k < MAX_TYPES && arg.Length >= 2 && DEGREES[k] + 1 <= arg.Length && WordTable(arg[..])
      requires k != 0 ==> 0 <= rear < DEGREES[k]
      modifies this
      ensures Valid() && table == arg && kind == k && (kind != 0 ==> rptr == rear)
      ensures k == 0 ==> State() == [arg[1]]
      ensures k != 0 ==> SEPS[k] >= 0 && State() == Queue(arg[..], DEGREES[k], (rear + SEPS[k]) % DEGREES[k])
    {
      kind := k;
      deg, sep := DEGREES[kind], SEPS[kind];
      table := arg;
      KindFacts(kind, deg, sep);
      if kind != 0 {
        rptr := rear;
        fptr := (rear + sep) % deg;
      }
      endPtr := deg;
    }

    /**
     setstate with the current array, `n` draws after initstate or setstate of another array: the rear pointer goes
     back to where it was before the draws, so it is kept exactly if the generator is the trivial one or the draws
     went round the table a whole number of times.  The words of the stream `q` that should go on are those of the
     stream that does, rotated: the two are the same exactly if the rotation changes nothing.
     */
    method Again(n: nat) returns (kept: bool, ghost q: seq<int>)
      requires Valid() && UpToDate() && Left(table[..])
      modifies this, table
      ensures Valid() && table == old(table) && kind == old(kind) && deg == old(deg)
      ensures kind != 0 ==> 1 <= sep < deg == |old(State())| && q == Steps(old(State()), sep, n)
      ensures kind != 0 ==> rptr == old(rptr) && (kept <==> (old(rptr) + n) % deg == rptr)
      ensures kept <==> kind == 0 || n % deg == 0
      ensures State() == q <==> kind == 0 || State() == Rotated(State(), n % deg)
      ensures kind != 0 ==> q == Rotated(State(), n % deg)
    {
      hide Steps, Step, Queue, Left, Saved;
      KindFacts(kind, deg, sep);
      var k, d, s, r0 := kind, deg, sep, rptr;
      if k != 0 {
        StepsNone(State(), s);
        Modulo(rptr, d);
        WholeRounds(r0, n, d);
        RemainderIs(MAX_TYPES, r0, k);
      }
      for i := 0 to n
        invariant Valid() && table == old(table) && table[0] == old(table[0]) && kind == k && deg == d && sep == s
        invariant k != 0 ==> rptr == (r0 + i) % d && State() == Steps(old(State()), s, i)
      {
        if k != 0 {
          StepsMore(old(State()), s, i);
          CycleStep(r0 + i, d);
        }
        var x := Next();
      }
      q := State();
      var r := rptr;
      SavedWord(table[..], k, d, s, r0);
      assert table[..][0 := Multiplexed(k, r0)] == table[..];
      if k != 0 {
        SameFront(r0, n, s, d);
        QueueRotated(table[..], d, (r0 + s) % d, n, fptr);
      }
      Setstate(table);
      kept := k == 0 || rptr == r;
      RotatedNone(State());
    }

    /** initstate, one draw, setstate with the same array: for every seed the stream that goes on is another one. */
    method OneDrawLost(seed: int, arg: array<int>) returns (kept: bool, ghost q: seq<int>)
      requires Valid() && 0 <= seed < WORDS && arg.Length == 8 && WordTable(arg[..])
      modifies this, table, arg
      ensures Valid() && table == arg && kind == 1 && deg == 7 && sep == 3
      ensures !kept && rptr == 0 && q == Steps(SeededQueue(seed, 7, 3), 3, 71) && State() != q
    {
      hide Steps, SeededQueue, Left, Queue;
      Initstate(seed, arg, 32);
      StepsAgain(SeededQueue(seed, 7, 3), 3, 70);
      kept, q := Again(1);
      SeededNotAlike(seed);
      assert q[1] == State()[2] && q[2] != q[1];
    }

    /** Another array for a while, and back: the first stream goes on as if nothing had happened. */
    method Detour(other: array<int>, n: nat)
      requires Valid() && Left(other[..]) && other != table
      modifies this, table, other
      ensures Valid() && table == old(table) && kind == old(kind) && State() == old(State())
    {
      hide Left, Saved, Step;
      var mine := table;
      Setstate(other);
      ghost var left := mine[..];
      for i := 0 to n
        invariant Valid() && table == other && mine[..] == left
      {
        var x := Next();
      }
      Setstate(mine);
    }
  }
}

/** The byte code that expbuf holds for an item list. */
module RegexCode {
  import opened RegexSyntax

  const CBRA: int := 1
  const CCHR: int := 2
  const CDOT: int := 4
  const CCL: int := 6
  const NCCL: int := 8
  const CDOL: int := 10
  const CEOF: int := 11
  const CKET: int := 12
  const CSTAR: int := 1
  const ESIZE: int := 512

  /** The characters stored for a class, duplicates included. */
  function Members(els: seq<Element>): seq<int> {
    if els == [] then [] else Members(els[..|els| - 1]) + ElementMembers(els[|els| - 1])
  }

  function ElementMembers(e: Element): seq<int> {
    match e
    case Single(c) => [c]
    case Range(lo, hi) => Span(lo, hi) + [hi]
  }

  /** The characters above `lo` up to `hi`. */
  function Span(lo: int, hi: int): (s: seq<int>)
    ensures |s| == if lo < hi then hi - lo else 0
    ensures forall k :: 0 <= k < |s| ==> s[k] == lo + 1 + k
  {
    if lo < hi then seq(hi - lo, k requires 0 <= k => lo + 1 + k) else []
  }

  lemma ElementDecides(e: Element, x: int)
    ensures x in ElementMembers(e) <==> InElement(e, x)
  {
    if e.Range? && e.lo < x <= e.hi {
      assert Span(e.lo, e.hi)[x - e.lo - 1] == x;
    }
  }

  /** A character is stored for a class exactly when the class's elements contain it. */
  lemma {:induction false} MembersDecide(els: seq<Element>, x: int)
    ensures x in Members(els) <==> exists k :: 0 <= k < |els| && InElement(els[k], x)
  {
    if els != [] {
      var front, e := els[..|els| - 1], els[|els| - 1];
      MembersDecide(front, x);
      ElementDecides(e, x);
      hide ElementMembers, InElement;
      if k :| 0 <= k < |front| && InElement(front[k], x) {
        assert InElement(els[k], x);
      }
      if k :| 0 <= k < |els| && InElement(els[k], x) {
        assert k < |front| ==> InElement(front[k], x);
      }
    }
  }

  function Opcode(x: Item): int {
    match x
    case One(Chr(_), star) => if star then CCHR + CSTAR else CCHR
    case One(Dot, star) => if star then CDOT + CSTAR else CDOT
    case One(Class(negated, _), star) => (if negated then NCCL else CCL) + (if star then CSTAR else 0)
    case Dollar => CDOL
    case Bra(_) => CBRA
    case Ket(_) => CKET
  }

  function Operands(x: Item): seq<int> {
    match x
    case One(Chr(c), _) => [c]
    case One(Dot, _) => []
    case One(Class(_, els), _) => [|Members(els)| + 1] + Members(els)
    case Dollar => []
    case Bra(n) => [n]
    case Ket(n) => [n]
  }

  function Code(x: Item): seq<int> {
    [Opcode(x)] + Operands(x)
  }

  /** The code of a class without star. */
  function ClassCode(negated: bool, els: seq<Element>): seq<int> {
    [if negated then NCCL else CCL, |Members(els)| + 1] + Members(els)
  }

  lemma ClassCodeIs(negated: bool, els: seq<Element>)
    ensures Code(One(Class(negated, els), false)) == ClassCode(negated, els)
  {
  }

  function Encode(items: seq<Item>): seq<int> {
    if items == [] then [] else Encode(items[..|items| - 1]) + Code(items[|items| - 1])
  }

  /** The code of `x` stands at `e`. */
  predicate CodeAt(buf: seq<int>, e: int, x: Item) {
    0 <= e && e + |Code(x)| <= |buf| && buf[e..e + |Code(x)|] == Code(x)
  }

  /** The code from `e` on is that of the items, then CEOF. */
  predicate Laid(buf: seq<int>, e: int, items: seq<Item>)
    decreases |items|
  {
    if items == [] then 0 <= e < |buf| && buf[e] == CEOF
    else CodeAt(buf, e, items[0]) && Laid(buf, e + |Code(items[0])|, items[1..])
  }

  lemma CodeBytes(buf: seq<int>, e: int, x: Item)
    requires CodeAt(buf, e, x)
    ensures buf[e] == Opcode(x)
    ensures forall k :: 0 <= k < |Operands(x)| ==> buf[e + 1 + k] == Operands(x)[k]
  {
    var n := |Code(x)|;
    assert buf[e..e + n][0] == buf[e];
    forall k | 0 <= k < |Operands(x)|
      ensures buf[e + 1 + k] == Operands(x)[k]
    {
      assert buf[e..e + n][1 + k] == Code(x)[1 + k];
    }
  }

  /** Code in the buffer is laid out from every item on. */
  lemma {:induction false} EncodeLaid(buf: seq<int>, items: seq<Item>, k: nat)
    requires k <= |items| && |Encode(items)| < |buf|
    requires buf[..|Encode(items)|] == Encode(items) && buf[|Encode(items)|] == CEOF
    ensures |Encode(items[..k])| <= |Encode(items)|
    ensures Laid(buf, |Encode(items[..k])|, items[k..])
    decreases |items| - k
  {
    hide Code, CodeAt, Laid, Encode;
    var e := |Encode(items[..k])|;
    if k == |items| {
      assert items[..k] == items && items[k..] == [];
      LaidEnd(buf, e);
    } else {
      var x, code := items[k], Encode(items);
      EncodeLaid(buf, items, k + 1);
      EncodeUpTo(items, k);
      CodeStands(buf, code, Encode(items[..k]), x);
      LaidStep(buf, e, x, items[k + 1..]);
    }
  }

  /** The code up to item `k`, and one item further, begins the whole code. */
  lemma EncodeUpTo(items: seq<Item>, k: nat)
    requires k < |items|
    ensures var e, e' := |Encode(items[..k])|, |Encode(items[..k + 1])|;
            && e' == e + |Code(items[k])| <= |Encode(items)|
            && Encode(items)[..e'] == Encode(items[..k]) + Code(items[k])
            && items[k..] == [items[k]] + items[k + 1..]
  {
    hide Code, Encode;
    EncodePrefix(items, k + 1);
    EncodeAppend(items[..k], items[k]);
    assert items[..k] + [items[k]] == items[..k + 1];
  }

  lemma LaidEnd(buf: seq<int>, e: nat)
    requires e < |buf| && buf[e] == CEOF
    ensures Laid(buf, e, [])
  {
  }

  lemma CodeStands(buf: seq<int>, code: seq<int>, pre: seq<int>, x: Item)
    requires |code| <= |buf| && buf[..|code|] == code
    requires |pre + Code(x)| <= |code| && code[..|pre + Code(x)|] == pre + Code(x)
    ensures CodeAt(buf, |pre|, x)
  {
    hide Code;
    var e, n := |pre|, |Code(x)|;
    forall k | 0 <= k < n
      ensures buf[e..e + n][k] == Code(x)[k]
    {
      assert buf[..|code|][e + k] == code[..e + n][e + k] == (pre + Code(x))[e + k];
    }
    assert buf[e..e + n] == Code(x);
  }

  lemma LaidStep(buf: seq<int>, e: nat, x: Item, rest: seq<Item>)
    requires CodeAt(buf, e, x) && Laid(buf, e + |Code(x)|, rest)
    ensures Laid(buf, e, [x] + rest)
  {
    hide Code, CodeAt;
    assert ([x] + rest)[1..] == rest;
  }

  lemma {:induction false} EncodePrefix(items: seq<Item>, k: nat)
    requires k <= |items|
    ensures |Encode(items[..k])| <= |Encode(items)|
    ensures Encode(items)[..|Encode(items[..k])|] == Encode(items[..k])
    decreases |items|
  {
    if k == |items| {
      assert items[..k] == items;
    } else {
      var front := items[..|items| - 1];
      EncodePrefix(front, k);
      assert front[..k] == items[..k];
      var e := |Encode(items[..k])|;
      assert Encode(items)[..e] == Encode(front)[..e];
    }
  }

  lemma EncodeAppend(items: seq<Item>, x: Item)
    ensures Encode(items + [x]) == Encode(items) + Code(x)
  {
    assert (items + [x])[..|items|] == items;
  }

  // ----- the star -----

  /** The last item repeated. */
  function StarLast(items: seq<Item>): seq<Item>
    requires items != [] && items[|items| - 1].One?
  {
    items[..|items| - 1] + [items[|items| - 1].(star := true)]
  }

  /** The or-ing of CSTAR into a stored opcode. */
  function OrStar(op: int): int {
    if op % 2 == 0 then op + CSTAR else op
  }

  /** Starring the last item changes its opcode only. */
  lemma StarCode(items: seq<Item>)
    requires items != [] && items[|items| - 1].One?
    ensures |Encode(items[..|items| - 1])| < |Encode(items)|
    ensures var at := |Encode(items[..|items| - 1])|;
            Encode(StarLast(items)) == Encode(items)[at := OrStar(Encode(items)[at])]
    ensures |Encode(StarLast(items)[..|items| - 1])| == |Encode(items[..|items| - 1])|
  {
    var front, x := items[..|items| - 1], items[|items| - 1];
    EncodeAppend(front, x.(star := true));
    assert StarLast(items)[..|items| - 1] == front;
    assert Code(x.(star := true)) == Code(x)[0 := OrStar(Code(x)[0])];
  }
}

/** How the matcher's steps read the items' meaning. */
module RegexSteps {
  import opened RegexSyntax
  import opened RegexCode

  /** The class count fits a signed char and no stored character is the end of string. */
  predicate SoundItem(x: Item) {
    match x
    case One(Chr(c), _) => c != 0
    case One(Class(_, els), _) => |Members(els)| < 127
    case _ => true
  }

  ghost predicate Sound(items: seq<Item>) {
    forall k :: 0 <= k < |items| ==> SoundItem(items[k])
  }

  lemma StepEnd(s: seq<int>, i: nat)
    ensures MatchesAt([], s, i)
  {
    assert Matches([], s, i, i);
  }

  lemma StepOne(items: seq<Item>, s: seq<int>, i: nat)
    requires items != [] && items[0].One? && !items[0].star
    ensures MatchesAt(items, s, i) <==>
            i < |s| && Accepts(items[0].atom, s[i]) && MatchesAt(items[1..], s, i + 1)
  {
    if i < |s| && Accepts(items[0].atom, s[i]) && MatchesAt(items[1..], s, i + 1) {
      var j :| Matches(items[1..], s, i + 1, j);
      assert Matches(items, s, i, j);
    }
    if MatchesAt(items, s, i) {
      var j :| Matches(items, s, i, j);
      assert Matches(items[1..], s, i + 1, j);
    }
  }

  lemma StepEmpty(items: seq<Item>, s: seq<int>, i: nat)
    requires items != [] && !items[0].One?
    ensures MatchesAt(items, s, i) <==> (items[0].Dollar? ==> i == |s|) && MatchesAt(items[1..], s, i)
  {
    if (items[0].Dollar? ==> i == |s|) && MatchesAt(items[1..], s, i) {
      var j :| Matches(items[1..], s, i, j);
      assert Matches(items, s, i, j);
    }
    if MatchesAt(items, s, i) {
      var j :| Matches(items, s, i, j);
      assert Matches(items[1..], s, i, j);
    }
  }

  lemma StepStar(items: seq<Item>, s: seq<int>, i: nat)
    requires items != [] && items[0].One? && items[0].star
    ensures MatchesAt(items, s, i) <==>
            exists k :: Run(items[0].atom, s, i, k) && MatchesAt(items[1..], s, k)
  {
    if k :| Run(items[0].atom, s, i, k) && MatchesAt(items[1..], s, k) {
      var j :| Matches(items[1..], s, k, j);
      assert Matches(items, s, i, j);
    }
    if MatchesAt(items, s, i) {
      var j :| Matches(items, s, i, j);
      var k :| Run(items[0].atom, s, i, k) && Matches(items[1..], s, k, j);
      assert MatchesAt(items[1..], s, k);
    }
  }

  /** The runs from `i` end wherever the longest one has passed. */
  lemma LongestRun(a: Atom, s: seq<int>, i: int, top: int, k: int)
    requires Run(a, s, i, top) && (top < |s| ==> !Accepts(a, s[top]))
    ensures Run(a, s, i, k) <==> i <= k <= top
  {
    if i <= top < k <= |s| {
      assert !Accepts(a, s[top]);
    }
  }

  /** Sound items, laid out from `e` on. */
  ghost predicate Ready(buf: seq<int>, e: int, items: seq<Item>) {
    Laid(buf, e, items) && Sound(items)
  }

  /** Code at `e` begins with the first item's opcode, and goes on with the rest after it. */
  lemma ReadyHead(buf: seq<int>, e: nat, items: seq<Item>)
    requires Ready(buf, e, items)
    ensures e < |buf| && buf[e] != 0
    ensures items == [] <==> buf[e] == CEOF
    ensures items != [] ==> CodeAt(buf, e, items[0]) && SoundItem(items[0]) && buf[e] == Opcode(items[0])
    ensures items != [] ==> Ready(buf, e + 1 + |Operands(items[0])|, items[1..])
  {
    if items != [] {
      CodeBytes(buf, e, items[0]);
    }
  }

  /** What the operands of a class decide. */
  lemma ClassDecides(buf: seq<int>, e: nat, x: Item, c: int)
    requires x.One? && x.atom.Class? && CodeAt(buf, e, x) && c != 0
    ensures buf[e + 1] == |Members(x.atom.els)| + 1 && e + 1 + buf[e + 1] == e + |Code(x)| <= |buf|
    ensures (c in buf[e + 2..e + 1 + buf[e + 1]]) <==> (Accepts(x.atom, c) != x.atom.negated)
  {
    hide Members, InElement;
    CodeBytes(buf, e, x);
    assert Operands(x)[0] == |Members(x.atom.els)| + 1;
    var n := |Members(x.atom.els)|;
    forall k | 0 <= k < n
      ensures buf[e + 2..e + 2 + n][k] == Members(x.atom.els)[k]
    {
      assert buf[e + 1 + (k + 1)] == Operands(x)[k + 1];
    }
    assert buf[e + 2..e + 2 + n] == Members(x.atom.els);
    MembersDecide(x.atom.els, c);
  }
}

/** How the compiler's steps follow the parse of the pattern. */
module RegexProgress {
  import opened RegexSyntax
  import opened RegexCode
  import opened RegexSteps

  /** The items emitted so far, the last one starred if a star comes next that means it. */
  function Pending(done: seq<Item>, p: seq<int>, sp: nat, quoted: bool): seq<Item> {
    if !quoted && StarAt(p, sp) && done != [] && done[|done| - 1].One? then StarLast(done) else done
  }

  function Prepend(items: seq<Item>, r: Parsed): Parsed {
    r.(items := items + r.items)
  }

  /** The items emitted so far and the rest of the pattern make up the whole parse. */
  ghost predicate Progress(whole: Parsed, done: seq<Item>, p: seq<int>, sp: nat, quoted: bool, n: nat, open: seq<int>) {
    && sp <= |p| && (!quoted ==> done != [] && done[|done| - 1].One?)
    && whole == Prepend(Pending(done, p, sp, quoted), Parse(p, sp, quoted, n, open))
  }

  /** The code and what is stored of a broken class fit the buffer, and every class count fits a char. */
  ghost predicate Fits(r: Parsed) {
    && |Encode(r.items)| + |Members(r.cut)| + 4 <= ESIZE
    && forall k {:trigger r.items[k]} :: 0 <= k < |r.items| && r.items[k].One? && r.items[k].atom.Class? ==>
         |Members(r.items[k].atom.els)| < 127
  }

  /** No more is stored than the whole code takes. */
  lemma Bounded(whole: Parsed, done: seq<Item>, p: seq<int>, sp: nat, quoted: bool, n: nat, open: seq<int>)
    requires Progress(whole, done, p, sp, quoted, n, open)
    ensures |Encode(done)| <= |Encode(whole.items)|
  {
    var front := Pending(done, p, sp, quoted);
    if front != done {
      StarCode(done);
    }
    EncodePrefix(whole.items, |front|);
    assert whole.items[..|front|] == front;
  }

  /** An item that a star may follow. */
  lemma StepAtom(whole: Parsed, done: seq<Item>, p: seq<int>, sp: nat, quoted: bool, n: nat, open: seq<int>,
                 a: Atom, next: nat)
    requires Progress(whole, done, p, sp, quoted, n, open) && next <= |p| && !StarAt(p, sp)
    requires Parse(p, sp, quoted, n, open) == Then(One(a, StarAt(p, next)), Parse(p, next, false, n, open))
    ensures Progress(whole, done + [One(a, false)], p, next, false, n, open)
    ensures |Encode(done + [One(a, false)])| <= |Encode(whole.items)|
  {
    hide Parse, Encode;
    var done' := done + [One(a, false)];
    assert done'[..|done|] == done;
    assert Pending(done', p, next, false) == done + [One(a, StarAt(p, next))];
    assert whole.items == Pending(done', p, next, false) + Parse(p, next, false, n, open).items;
    Bounded(whole, done', p, next, false, n, open);
  }

  /** An item after which a star stands for itself. */
  lemma StepQuoting(whole: Parsed, done: seq<Item>, p: seq<int>, sp: nat, quoted: bool, n: nat, open: seq<int>,
                    x: Item, next: nat, n': nat, open': seq<int>)
    requires Progress(whole, done, p, sp, quoted, n, open) && next <= |p| && (quoted || !StarAt(p, sp))
    requires Parse(p, sp, quoted, n, open) == Then(x, Parse(p, next, true, n', open'))
    ensures Progress(whole, done + [x], p, next, true, n', open')
    ensures |Encode(done + [x])| <= |Encode(whole.items)|
  {
    hide Parse, Encode;
    assert whole.items == done + [x] + Parse(p, next, true, n', open').items;
    Bounded(whole, done + [x], p, next, true, n', open');
  }

  /** What comes next is neither the end nor of a kind with a case of its own. */
  predicate Ordinary(p: seq<int>, sp: nat) {
    sp < |p| && p[sp] !in {'.' as int, '*' as int, '[' as int, '\\' as int} && (p[sp] == '$' as int ==> sp + 1 < |p|)
  }

  lemma StepChr(whole: Parsed, done: seq<Item>, p: seq<int>, sp: nat, quoted: bool, n: nat, open: seq<int>)
    requires Progress(whole, done, p, sp, quoted, n, open) && Ordinary(p, sp)
    ensures Progress(whole, done + [One(Chr(p[sp]), false)], p, sp + 1, false, n, open)
    ensures |Encode(done + [One(Chr(p[sp]), false)])| <= |Encode(whole.items)|
  {
    StepAtom(whole, done, p, sp, quoted, n, open, Chr(p[sp]), sp + 1);
  }

  lemma StepDot(whole: Parsed, done: seq<Item>, p: seq<int>, sp: nat, quoted: bool, n: nat, open: seq<int>)
    requires Progress(whole, done, p, sp, quoted, n, open) && Get(p, sp) == '.' as int
    ensures Progress(whole, done + [One(Dot, false)], p, sp + 1, false, n, open)
    ensures |Encode(done + [One(Dot, false)])| <= |Encode(whole.items)|
  {
    StepAtom(whole, done, p, sp, quoted, n, open, Dot, sp + 1);
  }

  lemma StepDollar(whole: Parsed, done: seq<Item>, p: seq<int>, sp: nat, quoted: bool, n: nat, open: seq<int>)
    requires Progress(whole, done, p, sp, quoted, n, open) && Get(p, sp) == '$' as int && sp + 1 == |p|
    ensures Progress(whole, done + [Dollar], p, sp + 1, true, n, open)
    ensures |Encode(done + [Dollar])| <= |Encode(whole.items)|
  {
    StepQuoting(whole, done, p, sp, quoted, n, open, Dollar, sp + 1, n, open);
  }

  lemma StepQuotedStar(whole: Parsed, done: seq<Item>, p: seq<int>, sp: nat, n: nat, open: seq<int>)
    requires Progress(whole, done, p, sp, true, n, open) && StarAt(p, sp)
    ensures Progress(whole, done + [One(Chr(p[sp]), false)], p, sp + 1, true, n, open)
    ensures |Encode(done + [One(Chr(p[sp]), false)])| <= |Encode(whole.items)|
  {
    StepQuoting(whole, done, p, sp, true, n, open, One(Chr(p[sp]), false), sp + 1, n, open);
  }

  /** The bracket's text behind `sp`, past a circumflex. */
  function ClassText(p: seq<int>, sp: nat): BracketBody
    requires sp <= |p|
  {
    Bracket(p, if Get(p, sp) == '^' as int then sp + 1 else sp, 0)
  }

  lemma StepClass(whole: Parsed, done: seq<Item>, p: seq<int>, sp: nat, quoted: bool, n: nat, open: seq<int>)
    requires Progress(whole, done, p, sp, quoted, n, open) && Get(p, sp) == '[' as int && whole.outcome != Outside
    ensures sp < |p| && ClassText(p, sp + 1).status != Undefined
    ensures var b, negated := ClassText(p, sp + 1), Get(p, sp + 1) == '^' as int;
            if b.status == Missing then whole == Parsed(done, b.els, MissingBracket)
            else var done' := done + [One(Class(negated, b.els), false)];
                 Progress(whole, done', p, b.next, false, n, open) && |Encode(done')| <= |Encode(whole.items)|
  {
    var b, negated := ClassText(p, sp + 1), Get(p, sp + 1) == '^' as int;
    if b.status == Closed {
      StepAtom(whole, done, p, sp, quoted, n, open, Class(negated, b.els), b.next);
    }
  }

  /** The whole class still fits the buffer. */
  lemma ClassRoom(whole: Parsed, done: seq<Item>, els: seq<Element>, negated: bool)
    requires Fits(whole)
    requires whole == Parsed(done, els, MissingBracket) ||
             |Encode(done + [One(Class(negated, els), false)])| <= |Encode(whole.items)|
    ensures |Encode(done)| + |Members(els)| + 4 <= ESIZE
  {
    EncodeAppend(done, One(Class(negated, els), false));
  }

  /** What stands behind a backslash. */
  lemma Escaped(whole: Parsed, done: seq<Item>, p: seq<int>, sp: nat, quoted: bool, n: nat, open: seq<int>)
    requires Progress(whole, done, p, sp, quoted, n, open) && Get(p, sp) == '\\' as int && whole.outcome != Outside
    ensures sp + 1 < |p| && !('1' as int <= p[sp + 1] < '1' as int + NBRA)
    ensures Parse(p, sp, quoted, n, open) == Escape(p, sp + 1, n, open)
  {
    assert Parse(p, sp, quoted, n, open) == Escape(p, sp + 1, n, open);
  }

  lemma StepBra(whole: Parsed, done: seq<Item>, p: seq<int>, sp: nat, quoted: bool, n: nat, open: seq<int>)
    requires Progress(whole, done, p, sp, quoted, n, open) && Get(p, sp) == '\\' as int && Get(p, sp + 1) == '(' as int
    requires Parse(p, sp, quoted, n, open) == Escape(p, sp + 1, n, open)
    ensures n >= NBRA ==> whole == Parsed(done, [], TooManyPairs)
    ensures n < NBRA ==> Progress(whole, done + [Bra(n)], p, sp + 2, true, n + 1, open + [n])
    ensures n < NBRA ==> |Encode(done + [Bra(n)])| <= |Encode(whole.items)|
  {
    hide Parse, Encode;
    if n < NBRA {
      StepQuoting(whole, done, p, sp, quoted, n, open, Bra(n), sp + 2, n + 1, open + [n]);
    }
  }

  lemma StepKet(whole: Parsed, done: seq<Item>, p: seq<int>, sp: nat, quoted: bool, n: nat, open: seq<int>)
    requires Progress(whole, done, p, sp, quoted, n, open) && Get(p, sp) == '\\' as int && Get(p, sp + 1) == ')' as int
    requires Parse(p, sp, quoted, n, open) == Escape(p, sp + 1, n, open)
    ensures open == [] ==> whole == Parsed(done, [], UnmatchedKet)
    ensures open != [] ==>
              Progress(whole, done + [Ket(open[|open| - 1])], p, sp + 2, true, n, open[..|open| - 1])
    ensures open != [] ==> |Encode(done + [Ket(open[|open| - 1])])| <= |Encode(whole.items)|
  {
    hide Parse, Encode;
    if open != [] {
      StepQuoting(whole, done, p, sp, quoted, n, open, Ket(open[|open| - 1]), sp + 2, n, open[..|open| - 1]);
    }
  }

  lemma StepEscapedChr(whole: Parsed, done: seq<Item>, p: seq<int>, sp: nat, quoted: bool, n: nat, open: seq<int>)
    requires Progress(whole, done, p, sp, quoted, n, open) && Get(p, sp) == '\\' as int && sp + 1 < |p|
    requires p[sp + 1] != '(' as int && p[sp + 1] != ')' as int && !('1' as int <= p[sp + 1] < '1' as int + NBRA)
    requires Parse(p, sp, quoted, n, open) == Escape(p, sp + 1, n, open)
    ensures Progress(whole, done + [One(Chr(p[sp + 1]), false)], p, sp + 2, false, n, open)
    ensures |Encode(done + [One(Chr(p[sp + 1]), false)])| <= |Encode(whole.items)|
  {
    hide Parse, Encode;
    StepAtom(whole, done, p, sp, quoted, n, open, Chr(p[sp + 1]), sp + 2);
  }

  /** A star that repeats the last item. */
  lemma StepRepeat(whole: Parsed, done: seq<Item>, p: seq<int>, sp: nat, n: nat, open: seq<int>)
    requires Progress(whole, done, p, sp, false, n, open) && StarAt(p, sp)
    ensures sp < |p| && Progress(whole, StarLast(done), p, sp + 1, false, n, open)
  {
    assert StarLast(StarLast(done)) == StarLast(done);
  }

  lemma StepLast(whole: Parsed, done: seq<Item>, p: seq<int>, quoted: bool, n: nat, open: seq<int>)
    requires Progress(whole, done, p, |p|, quoted, n, open)
    ensures whole == Parsed(done, [], if open == [] then Compiled else UnmatchedBra)
  {
  }

  lemma StepFirst(whole: Parsed, p: seq<int>, start: nat)
    requires start <= |p| && whole == Parse(p, start, true, 0, [])
    ensures Progress(whole, [], p, start, true, 0, [])
    ensures Encode([]) == [] && |Encode([])| + 4 <= ESIZE
  {
  }

  lemma ReadyNow(buf: seq<int>, items: seq<Item>)
    requires Sound(items) && |Encode(items)| < |buf|
    requires buf[..|Encode(items)|] == Encode(items) && buf[|Encode(items)|] == CEOF
    ensures Ready(buf, 0, items)
  {
    EncodeLaid(buf, items, 0);
    assert items[0..] == items && Encode(items[..0]) == [];
  }

  /** Code that begins with CCHR matches only where its character stands. */
  lemma FirstChr(buf: seq<int>, items: seq<Item>, s: seq<int>)
    requires Ready(buf, 0, items) && buf != [] && buf[0] == CCHR
    ensures |buf| >= 2 && buf[1] != 0
    ensures forall i :: 0 <= i <= |s| && MatchesAt(items, s, i) ==> i < |s| && s[i] == buf[1]
  {
    ReadyHead(buf, 0, items);
    CodeBytes(buf, 0, items[0]);
    assert Operands(items[0])[0] == items[0].atom.c;
    forall i | 0 <= i <= |s| && MatchesAt(items, s, i)
      ensures i < |s| && s[i] == buf[1]
    {
      StepOne(items, s, i);
    }
  }

  /** The opcode of the last item is no bracket's when a star may follow. */
  lemma LastOpcode(code: seq<int>, done: seq<Item>, at: int)
    requires done != [] && done[|done| - 1].One? && code == Encode(done) && at == |Encode(done[..|done| - 1])|
    ensures at < |code| && code[at] != CBRA && code[at] != CKET
  {
    assert code[at] == Opcode(done[|done| - 1]);
  }

  /** The elements stored so far and the rest of the bracket's text make up the whole class. */
  ghost predicate ClassProgress(b: BracketBody, els: seq<Element>, p: seq<int>, at: nat, prev: int) {
    at <= |p| && b == Bracket(p, at, prev).(els := els + Bracket(p, at, prev).els)
  }

  lemma StepElement(b: BracketBody, els: seq<Element>, p: seq<int>, at: nat, prev: int)
    requires ClassProgress(b, els, p, at, prev) && b.status != Undefined && at < |p|
    ensures Dash(p, at, prev) ==> at + 1 < |p|
    ensures var x, els' := FirstPiece(p, at, prev), els + [FirstPiece(p, at, prev).e];
            && |Members(els')| <= |Members(b.els)|
            && if x.closed then b == BracketBody(els', x.next, Closed) else ClassProgress(b, els', p, x.next, x.last)
  {
    var x, els' := FirstPiece(p, at, prev), els + [FirstPiece(p, at, prev).e];
    if !x.closed {
      assert b.els == els' + Bracket(p, x.next, x.last).els;
    }
    assert b.els[..|els'|] == els';
    MembersPrefix(b.els, |els'|);
  }

  lemma BracketMissing(b: BracketBody, els: seq<Element>, p: seq<int>, at: nat, prev: int)
    requires ClassProgress(b, els, p, at, prev) && Get(p, at) == 0 && 0 !in p
    ensures b.status == Missing
  {
  }

  lemma {:induction false} MembersPrefix(els: seq<Element>, k: nat)
    requires k <= |els|
    ensures |Members(els[..k])| <= |Members(els)|
  {
    if k == |els| {
      assert els[..k] == els;
    } else {
      MembersPrefix(els[..|els| - 1], k);
      assert els[..|els| - 1][..k] == els[..k];
    }
  }

  lemma MembersAppend(els: seq<Element>, e: Element)
    ensures Members(els + [e]) == Members(els) + ElementMembers(e)
  {
    assert (els + [e])[..|els|] == els;
  }

  /** The items compiled from a string without zeros contain no zero. */
  lemma {:induction false} ParseNonzero(p: seq<int>, at: nat, quoted: bool, n: nat, open: seq<int>, k: nat)
    requires 0 !in p && at <= |p| && k < |Parse(p, at, quoted, n, open).items|
    ensures Parse(p, at, quoted, n, open).items[k] != One(Chr(0), false)
    ensures Parse(p, at, quoted, n, open).items[k] != One(Chr(0), true)
    decreases |p| - at
  {
    hide Bracket;
    if at < |p| {
      if p[at] == '[' as int {
        if k > 0 {
          var b := Bracket(p, if Get(p, at + 1) == '^' as int then at + 2 else at + 1, 0);
          ParseNonzero(p, b.next, false, n, open, k - 1);
        }
      } else if p[at] == '\\' as int {
        if k > 0 {
          if p[at + 1] == '(' as int {
            ParseNonzero(p, at + 2, true, n + 1, open + [n], k - 1);
          } else if p[at + 1] == ')' as int {
            ParseNonzero(p, at + 2, true, n, open[..|open| - 1], k - 1);
          } else {
            ParseNonzero(p, at + 2, false, n, open, k - 1);
          }
        }
      } else if p[at] == '*' as int && !quoted {
        ParseNonzero(p, at + 1, false, n, open, k);
      } else if k > 0 {
        ParseNonzero(p, at + 1, p[at] == '*' as int || (p[at] == '$' as int && at + 1 == |p|), n, open, k - 1);
      }
    }
  }

  lemma ParseSound(p: seq<int>, at: nat, quoted: bool, n: nat, open: seq<int>)
    requires 0 !in p && at <= |p| && Fits(Parse(p, at, quoted, n, open))
    ensures Sound(Parse(p, at, quoted, n, open).items)
  {
    var items := Parse(p, at, quoted, n, open).items;
    forall k | 0 <= k < |items|
      ensures SoundItem(items[k])
    {
      ParseNonzero(p, at, quoted, n, open, k);
    }
  }
}

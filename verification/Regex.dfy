/** re_comp and re_exec of bsdlibc/gen/regex.c, on the static buffer expbuf. */
module Regex {
  import opened RegexSyntax
  import opened RegexCode
  import opened RegexProgress
  import opened RegexSteps

  class Matcher {
    const expbuf: array<int>
    var circf: bool
    ghost var items: seq<Item>   // what expbuf holds the code of
    ghost var good: bool         // a pattern has been compiled without error

    ghost predicate Valid()
      reads this, expbuf
    {
      && expbuf.Length == ESIZE
      && (good ==> Ready(expbuf[..], 0, items) && DollarLast(items))
      && (!good ==> expbuf[0] == 0)
    }

    constructor ()
      ensures Valid() && !good && fresh(expbuf)
    {
      expbuf := new int[ESIZE](_ => 0);
      circf, items, good := false, [], false;
    }

    // ----- matching -----

    /** Is `c` in the class whose count stands at `at` (af true), or outside it (af false)? */
    method CClass(at: nat, c: int, af: bool) returns (r: bool)
      requires at < expbuf.Length && expbuf[at] >= 1 && at + expbuf[at] <= expbuf.Length
      ensures r <==> c != 0 && ((c in expbuf[at + 1..at + expbuf[at]]) <==> af)
    {
      if c == 0 {
        return false;
      }
      var n, k := expbuf[at], at + 1;
      n := n - 1;
      while n != 0
        invariant 0 <= n && k + n == at + expbuf[at] && k > at
        invariant c !in expbuf[at + 1..k]
        decreases n
      {
        k := k + 1;
        assert expbuf[at + 1..k] == expbuf[at + 1..k - 1] + [expbuf[k - 1]];
        if expbuf[k - 1] == c {
          assert expbuf[k - 1] == expbuf[at + 1..at + expbuf[at]][k - at - 2];
          return af;
        }
        n := n - 1;
      }
      return !af;
    }

    /** Does the single-character item whose operands start at `e` accept the character at `l`? */
    method Accept(s: seq<int>, l: nat, e: nat, op: int, ghost x: Item) returns (r: bool)
      requires 0 !in s && l <= |s| && e >= 1 && x.One? && SoundItem(x)
      requires CodeAt(expbuf[..], e - 1, x) && op == Opcode(x)
      ensures r <==> l < |s| && Accepts(x.atom, s[l])
    {
      hide Members, InElement;
      ghost var buf := expbuf[..];
      CodeBytes(buf, e - 1, x);
      var c := Get(s, l);
      if op == CDOT || op == CDOT + CSTAR {
        r := c != 0;
      } else if op == CCHR || op == CCHR + CSTAR {
        assert expbuf[e] == Operands(x)[0];
        r := expbuf[e] == c;
      } else {
        if l < |s| {
          ClassDecides(buf, e - 1, x, c);
        } else {
          ClassDecides(buf, e - 1, x, 1);
        }
        r := CClass(e, c, op == CCL || op == CCL + CSTAR);
        assert expbuf[e + 1..e + expbuf[e]] == buf[e + 1..e + buf[e]];
      }
    }

    /** The length of the operands of a single-character item. */
    method Skip(e: nat, op: int, ghost x: Item) returns (n: nat)
      requires e >= 1 && x.One? && CodeAt(expbuf[..], e - 1, x) && op == Opcode(x)
      ensures n == |Operands(x)|
    {
      CodeBytes(expbuf[..], e - 1, x);
      if op == CDOT || op == CDOT + CSTAR {
        n := 0;
      } else if op == CCHR || op == CCHR + CSTAR {
        n := 1;
      } else {
        assert expbuf[e] == Operands(x)[0];
        n := expbuf[e];
      }
    }

    /** advance: 1 if the code at `ep` matches from `lp` on, 0 if not, -1 on a byte that is no code. */
    method Advance(s: seq<int>, lp: nat, ep: nat, ghost its: seq<Item>) returns (rv: int)
      requires expbuf.Length == ESIZE && 0 !in s && lp <= |s| && ep < ESIZE
      requires expbuf[ep] != 0 ==> Ready(expbuf[..], ep, its)
      ensures expbuf[ep] == 0 ==> rv == -1
      ensures expbuf[ep] != 0 ==> rv == if MatchesAt(its, s, lp) then 1 else 0
      decreases |its|, 1
    {
      hide Accepts, Run, MatchesAt, Ready, Code, CodeAt, SoundItem;
      if expbuf[ep] == 0 {
        return -1;
      }
      var l: nat, e: nat := lp, ep;
      ghost var rest := its;
      while true
        invariant l <= |s| && |rest| <= |its| && Ready(expbuf[..], e, rest)
        invariant MatchesAt(its, s, lp) <==> MatchesAt(rest, s, l)
        decreases |rest|
      {
        ReadyHead(expbuf[..], e, rest);
        var op := expbuf[e];
        e := e + 1;
        if op == CEOF {
          StepEnd(s, l);
          return 1;
        }
        if op % 2 == 1 && op != CBRA {
          rv := Star(s, l, e, op, rest);
          return;
        }
        var go;
        go, l, e := Turn(s, l, e, op, rest);
        if !go {
          return 0;
        }
        rest := rest[1..];
      }
    }

    /** One turn of the switch in advance, for an opcode without star. */
    method Turn(s: seq<int>, l: nat, e: nat, op: int, ghost its: seq<Item>) returns (go: bool, l': nat, e': nat)
      requires 0 !in s && l <= |s| && e >= 1 && its != [] && SoundItem(its[0])
      requires CodeAt(expbuf[..], e - 1, its[0]) && op == Opcode(its[0]) && (op % 2 == 0 || op == CBRA)
      ensures !go ==> !MatchesAt(its, s, l)
      ensures go ==> l' <= |s| && e' == e + |Operands(its[0])|
      ensures go ==> (MatchesAt(its, s, l) <==> MatchesAt(its[1..], s, l'))
    {
      hide Accepts, MatchesAt, CodeAt, SoundItem;
      if op == CDOL {
        StepEmpty(its, s, l);
        return Get(s, l) == 0, l, e;
      }
      if op == CBRA || op == CKET {
        StepEmpty(its, s, l);
        return true, l, e + 1;
      }
      StepOne(its, s, l);
      go := Accept(s, l, e, op, its[0]);
      var n := Skip(e, op, its[0]);
      return go, l + 1, e + n;
    }

    /** The loop that takes as many characters as possible. */
    method LongRun(s: seq<int>, curlp: nat, e: nat, op: int, ghost x: Item) returns (l: nat)
      requires 0 !in s && curlp <= |s| && e >= 1 && x.One? && SoundItem(x)
      requires CodeAt(expbuf[..], e - 1, x) && op == Opcode(x)
      ensures curlp <= l <= |s| && forall k :: Run(x.atom, s, curlp, k) <==> curlp <= k <= l
    {
      hide Accepts, CodeAt, Opcode, SoundItem;
      l := curlp;
      var ok := Accept(s, l, e, op, x);
      while ok
        invariant l <= |s| && Run(x.atom, s, curlp, l) && (ok <==> l < |s| && Accepts(x.atom, s[l]))
        decreases |s| - l, ok
      {
        l := l + 1;
        ok := Accept(s, l, e, op, x);
      }
      forall k
        ensures Run(x.atom, s, curlp, k) <==> curlp <= k <= l
      {
        LongestRun(x.atom, s, curlp, l, k);
      }
    }

    /** A starred item: take as many characters as possible, then give them back one by one. */
    method Star(s: seq<int>, curlp: nat, e: nat, op: int, ghost its: seq<Item>) returns (rv: int)
      requires expbuf.Length == ESIZE && 0 !in s && curlp <= |s| && e >= 1
      requires its != [] && its[0].One? && its[0].star
      requires Ready(expbuf[..], e - 1, its) && op == Opcode(its[0])
      ensures rv == if MatchesAt(its, s, curlp) then 1 else 0
      decreases |its|, 0
    {
      hide Accepts, Run, MatchesAt, Ready, CodeAt, SoundItem;
      ghost var a := its[0].atom;
      ReadyHead(expbuf[..], e - 1, its);
      var l := LongRun(s, curlp, e, op, its[0]);
      l := l + 1;
      ghost var top := l;
      var n := Skip(e, op, its[0]);
      ReadyHead(expbuf[..], e + n, its[1..]);
      StepStar(its, s, curlp);
      while true
        invariant curlp < l <= top
        invariant forall k :: l <= k < top ==> !MatchesAt(its[1..], s, k)
        decreases l
      {
        l := l - 1;
        rv := Advance(s, l, e + n, its[1..]);
        if rv != 0 {
          assert Run(a, s, curlp, l);
          return;
        }
        if l <= curlp {
          return 0;
        }
      }
    }

    // ----- compiling -----

    /** Stores one more byte of code. */
    method Store(ep: nat, b: int) returns (ep': nat)
      requires ep < expbuf.Length
      modifies expbuf
      ensures ep' == ep + 1 && expbuf[..ep'] == old(expbuf[..ep]) + [b]
    {
      expbuf[ep] := b;
      ep' := ep + 1;
    }

    /** Stores the code of an item of one or two bytes. */
    method Emit(ep: nat, ghost done: seq<Item>, ghost x: Item, op: int, two: bool, c: int) returns (ep': nat)
      requires ep + 2 <= expbuf.Length && expbuf[..ep] == Encode(done)
      requires Code(x) == if two then [op, c] else [op]
      modifies expbuf
      ensures ep' == |Encode(done + [x])| <= expbuf.Length && expbuf[..ep'] == Encode(done + [x])
      ensures ep' > ep && expbuf[ep] == op && expbuf[..ep] == old(expbuf[..ep])
    {
      hide Encode, Code;
      EncodeAppend(done, x);
      ep' := Store(ep, op);
      if two {
        ep' := Store(ep', c);
      }
    }

    /** The star's effect on the code of the last item, which stands at `lastep`. */
    method MarkStar(lastep: nat, ep: nat, ghost done: seq<Item>)
      requires done != [] && done[|done| - 1].One? && lastep == |Encode(done[..|done| - 1])|
      requires ep <= expbuf.Length && expbuf[..ep] == Encode(done)
      modifies expbuf
      ensures expbuf[..ep] == Encode(StarLast(done))
    {
      StarCode(done);
      assert expbuf[..ep][lastep] == expbuf[lastep];
      expbuf[lastep] := OrStar(expbuf[lastep]);
    }

    /** The loop that fills in a range up to `c`. */
    method StoreSpan(ep: nat, c: int, cnt: int) returns (ep': nat, cnt': int)
      requires 1 <= ep <= expbuf.Length && ep + |Span(expbuf[ep - 1], c)| < expbuf.Length
      modifies expbuf
      ensures ep' == ep + |Span(old(expbuf[ep - 1]), c)| && cnt' == cnt + ep' - ep
      ensures expbuf[..ep'] == old(expbuf[..ep]) + Span(old(expbuf[ep - 1]), c)
    {
      ep', cnt' := ep, cnt;
      ghost var lo, was := expbuf[ep - 1], expbuf[..ep];
      while expbuf[ep' - 1] < c
        invariant ep <= ep' && cnt' == cnt + ep' - ep && ep' - ep <= |Span(lo, c)|
        invariant ep' > ep ==> expbuf[ep' - 1] == lo + ep' - ep
        invariant expbuf[..ep] == was && expbuf[ep - 1] == lo
        invariant forall k :: ep <= k < ep' ==> expbuf[k] == lo + 1 + k - ep
        decreases c - expbuf[ep' - 1]
      {
        expbuf[ep'] := expbuf[ep' - 1] + 1;
        assert expbuf[..ep] == was;
        ep', cnt' := ep' + 1, cnt' + 1;
      }
      assert expbuf[..ep'] == was + Span(lo, c);
    }

    /** One turn of the loop over a class's text: stores an element, reads on, and sees whether the class closes. */
    method CompileElement(p: seq<int>, sp: nat, ep: nat, cnt: int)
      returns (closed: bool, sp': nat, ep': nat, cnt': int)
      requires 0 !in p && 1 <= ep <= expbuf.Length && sp < |p| && (Dash(p, sp, expbuf[ep - 1]) ==> sp + 1 < |p|)
      requires ep + |ElementMembers(FirstPiece(p, sp, expbuf[ep - 1]).e)| <= expbuf.Length
      modifies expbuf
      ensures var x := old(FirstPiece(p, sp, expbuf[ep - 1]));
              && closed == x.closed && sp' == x.next && ep' == ep + |ElementMembers(x.e)| && cnt' == cnt + ep' - ep
              && expbuf[..ep'] == old(expbuf[..ep]) + ElementMembers(x.e) && expbuf[ep' - 1] == x.last
    {
      var c := p[sp];
      sp', ep', cnt' := sp + 1, ep, cnt;
      if c == '-' as int && expbuf[ep - 1] != 0 {
        c := Get(p, sp');
        sp' := sp' + 1;
        if c == ']' as int {
          ep' := Store(ep', '-' as int);
          return true, sp', ep', cnt' + 1;
        }
        ep', cnt' := StoreSpan(ep', c, cnt');
      }
      ep' := Store(ep', c);
      cnt' := cnt' + 1;
      closed := Get(p, sp') == ']' as int;
      if closed {
        sp' := sp' + 1;
      }
    }

    lemma Joined(a: seq<int>, b: seq<int>, c: seq<int>)
      ensures (a + b) + c == a + (b + c)
    {
    }

    lemma NoMembers(b: BracketBody, p: seq<int>, sp: nat, pre: seq<int>)
      requires sp <= |p| && b == Bracket(p, sp, 0)
      ensures Members([]) == [] && pre + Members([]) == pre && ClassProgress(b, [], p, sp, 0)
    {
      assert [] + b.els == b.els;
    }

    /** The loop over a class's text. */
    method CompileElements(p: seq<int>, sp: nat, ep: nat, ghost b: BracketBody)
      returns (ok: bool, sp': nat, ep': nat, cclcnt: int)
      requires 0 !in p && 1 <= ep && sp <= |p| && ep + |Members(b.els)| <= expbuf.Length && expbuf[ep - 1] == 0
      requires b == Bracket(p, sp, 0) && b.status != Undefined
      modifies expbuf
      ensures ok <==> b.status == Closed
      ensures ok ==> sp' == b.next && cclcnt == 1 + |Members(b.els)|
      ensures ok ==> ep' == ep + |Members(b.els)| && expbuf[..ep'] == old(expbuf[..ep]) + Members(b.els)
    {
      hide Bracket, FirstPiece, ElementMembers, Span, Members, ClassProgress;
      sp', ep', cclcnt, ok := sp, ep, 1, false;
      ghost var els: seq<Element> := [];
      ghost var pre := expbuf[..ep];
      NoMembers(b, p, sp, pre);
      while !ok
        invariant ep' == ep + |Members(els)| && cclcnt == 1 + |Members(els)| && |Members(els)| <= |Members(b.els)|
        invariant expbuf[..ep'] == pre + Members(els)
        invariant if ok then b == BracketBody(els, sp', Closed) else ClassProgress(b, els, p, sp', expbuf[ep' - 1])
        decreases if ok then 0 else 1, |p| - sp'
      {
        if Get(p, sp') == 0 {
          BracketMissing(b, els, p, sp', expbuf[ep' - 1]);
          return;
        }
        StepElement(b, els, p, sp', expbuf[ep' - 1]);
        ghost var e := FirstPiece(p, sp', expbuf[ep' - 1]).e;
        MembersAppend(els, e);
        Joined(pre, Members(els), ElementMembers(e));
        ok, sp', ep', cclcnt := CompileElement(p, sp', ep', cclcnt);
        els := els + [e];
      }
    }

    /** The case of a class: `sp` stands behind the opening bracket. */
    method CompileClass(p: seq<int>, sp: nat, ep: nat, ghost b: BracketBody) returns (ok: bool, sp': nat, ep': nat)
      requires 0 !in p && sp <= |p| && ep + 4 + |Members(b.els)| <= expbuf.Length
      requires b == ClassText(p, sp) && b.status != Undefined
      modifies expbuf
      ensures ok <==> b.status == Closed
      ensures ok ==> sp' == b.next && ep' == ep + 2 + |Members(b.els)|
      ensures ok ==> expbuf[..ep'] == old(expbuf[..ep]) + ClassCode(Get(p, sp) == '^' as int, b.els)
    {
      hide Bracket, Members;
      sp' := sp;
      ep' := Store(ep, CCL);
      ep' := Store(ep', 0);
      if Get(p, sp') == '^' as int {
        sp' := sp' + 1;
        expbuf[ep' - 2] := NCCL;
      }
      var cclcnt;
      ok, sp', ep', cclcnt := CompileElements(p, sp', ep', b);
      if ok {
        expbuf[ep + 1] := cclcnt;
      }
    }

    /** What a switch case of re_comp leaves: the code so far, and the place a star would change. */
    ghost predicate Emitted(done: seq<Item>, ep: nat, lastep: int, quoted: bool)
      reads expbuf
    {
      && expbuf.Length == ESIZE && ep == |Encode(done)| && ep + 4 <= ESIZE
      && expbuf[..ep] == Encode(done) && lastep < ep
      && (!quoted ==> done != [] && done[|done| - 1].One? && lastep == |Encode(done[..|done| - 1])|)
    }

    /** A star at the beginning or behind a bracket is an ordinary character. */
    ghost predicate QuoteKnown(p: seq<int>, sp: nat, ep: nat, lastep: int, quoted: bool)
      reads expbuf
    {
      quoted && lastep != -1 && sp != |p| ==>
        0 <= lastep < ep <= expbuf.Length && (expbuf[lastep] == CBRA || expbuf[lastep] == CKET)
    }

    /** The cases with an operand of their own or none: everything but a star, a class and a backslash. */
    method CompileSimple(p: seq<int>, sp: nat, ep: nat, ghost whole: Parsed, ghost done: seq<Item>, ghost quoted: bool,
                         ghost n: nat, ghost open: seq<int>)
      returns (ep': nat, ghost done': seq<Item>, ghost quoted': bool)
      requires Progress(whole, done, p, sp, quoted, n, open) && Fits(whole) && Emitted(done, ep, ep - 1, true)
      requires sp < |p| && p[sp] !in {'*' as int, '[' as int, '\\' as int}
      modifies expbuf
      ensures Progress(whole, done', p, sp + 1, quoted', n, open) && Emitted(done', ep', ep, quoted')
      ensures quoted' ==> sp + 1 == |p|
    {
      hide Progress, Encode, Parse;
      if p[sp] == '.' as int {
        StepDot(whole, done, p, sp, quoted, n, open);
        done', quoted' := done + [Item.One(Dot, false)], false;
        ep' := Emit(ep, done, Item.One(Dot, false), CDOT, false, 0);
      } else if p[sp] == '$' as int && sp + 1 == |p| {
        StepDollar(whole, done, p, sp, quoted, n, open);
        done', quoted' := done + [Dollar], true;
        ep' := Emit(ep, done, Dollar, CDOL, false, 0);
      } else {
        StepChr(whole, done, p, sp, quoted, n, open);
        done', quoted' := done + [Item.One(Chr(p[sp]), false)], false;
        ep' := Emit(ep, done, Item.One(Chr(p[sp]), false), CCHR, true, p[sp]);
      }
    }

    /** The case of a class, or the error that it does not end. */
    method CompileBracket(p: seq<int>, sp: nat, ep: nat, ghost whole: Parsed, ghost done: seq<Item>, ghost quoted: bool,
                          ghost n: nat, ghost open: seq<int>)
      returns (ok: bool, sp': nat, ep': nat, ghost done': seq<Item>)
      requires Progress(whole, done, p, sp, quoted, n, open) && Fits(whole) && Emitted(done, ep, ep - 1, true)
      requires 0 !in p && whole.outcome != Outside && sp < |p| && p[sp] == '[' as int
      modifies expbuf
      ensures !ok ==> whole.outcome == MissingBracket
      ensures ok ==> sp < sp' <= |p| && Progress(whole, done', p, sp', false, n, open) && Emitted(done', ep', ep, false)
    {
      hide Progress, Encode, Parse, Members, Bracket, ClassCode, Code;
      StepClass(whole, done, p, sp, quoted, n, open);
      ghost var b, negated := ClassText(p, sp + 1), Get(p, sp + 1) == '^' as int;
      ghost var x := Item.One(Class(negated, b.els), false);
      ClassRoom(whole, done, b.els, negated);
      ok, sp', ep' := CompileClass(p, sp + 1, ep, b);
      done' := done + [x];
      ClassCodeIs(negated, b.els);
      EncodeAppend(done, x);
    }

    /** The cases behind a backslash, which stands before `sp`, or an error. */
    method CompileEscape(p: seq<int>, sp: nat, ep: nat, numbra: nat, bracket: array<int>, bracketp: nat,
                         ghost whole: Parsed, ghost done: seq<Item>, ghost quoted: bool)
      returns (r: Outcome, ep': nat, numbra': nat, bracketp': nat, ghost done': seq<Item>, ghost quoted': bool)
      requires bracket != expbuf && bracket.Length == NBRA && bracketp <= numbra <= NBRA && sp < |p|
      requires p[sp] == '\\' as int
      requires Progress(whole, done, p, sp, quoted, numbra, bracket[..bracketp]) && whole.outcome != Outside
      requires Fits(whole) && Emitted(done, ep, ep - 1, true)
      modifies expbuf, bracket
      ensures r != Compiled ==> r == whole.outcome
      ensures r == Compiled ==> sp + 2 <= |p| && bracketp' <= numbra' <= NBRA
      ensures r == Compiled ==> Progress(whole, done', p, sp + 2, quoted', numbra', bracket[..bracketp'])
      ensures r == Compiled ==> Emitted(done', ep', ep, quoted')
      ensures r == Compiled && quoted' ==> expbuf[ep] == CBRA || expbuf[ep] == CKET
    {
      hide Progress, Encode, Parse;
      Escaped(whole, done, p, sp, quoted, numbra, bracket[..bracketp]);
      numbra', bracketp', quoted' := numbra, bracketp, true;
      var c := p[sp + 1];
      if c == '(' as int {
        StepBra(whole, done, p, sp, quoted, numbra, bracket[..bracketp]);
        if numbra >= NBRA {
          return TooManyPairs, ep, numbra, bracketp, done, quoted;
        }
        bracket[bracketp] := numbra;
        bracketp' := bracketp + 1;
        assert bracket[..bracketp'] == old(bracket[..bracketp]) + [numbra];
        ep' := Emit(ep, done, Bra(numbra), CBRA, true, numbra);
        done' := done + [Bra(numbra)];
        numbra' := numbra + 1;
      } else if c == ')' as int {
        StepKet(whole, done, p, sp, quoted, numbra, bracket[..bracketp]);
        if bracketp == 0 {
          return UnmatchedKet, ep, numbra, bracketp, done, quoted;
        }
        bracketp' := bracketp - 1;
        assert bracket[..bracketp'] == bracket[..bracketp][..bracketp'];
        ep' := Emit(ep, done, Ket(bracket[bracketp']), CKET, true, bracket[bracketp']);
        done' := done + [Ket(bracket[bracketp'])];
      } else {
        StepEscapedChr(whole, done, p, sp, quoted, numbra, bracket[..bracketp]);
        ep' := Emit(ep, done, Item.One(Chr(c), false), CCHR, true, c);
        done', quoted' := done + [Item.One(Chr(c), false)], false;
      }
      r := Compiled;
    }

    /** The case of a star: a repetition, or behind a bracket and at the beginning a character. */
    method CompileStar(p: seq<int>, sp: nat, ep: nat, lastep: int, ghost whole: Parsed, ghost done: seq<Item>,
                       ghost quoted: bool, ghost n: nat, ghost open: seq<int>)
      returns (ep': nat, ghost done': seq<Item>)
      requires Progress(whole, done, p, sp, quoted, n, open) && Fits(whole) && sp < |p| && p[sp] == '*' as int
      requires lastep >= -1 && Emitted(done, ep, lastep, quoted) && QuoteKnown(p, sp, ep, lastep, quoted)
      modifies expbuf
      ensures Progress(whole, done', p, sp + 1, quoted, n, open) && Emitted(done', ep', lastep, quoted)
      ensures QuoteKnown(p, sp + 1, ep', lastep, quoted)
    {
      hide Progress, Encode, Parse;
      if !quoted {
        LastOpcode(expbuf[..ep], done, lastep);
      }
      if lastep == -1 || expbuf[lastep] == CBRA || expbuf[lastep] == CKET {
        StepQuotedStar(whole, done, p, sp, n, open);
        ep' := Emit(ep, done, Item.One(Chr(p[sp]), false), CCHR, true, p[sp]);
        done' := done + [Item.One(Chr(p[sp]), false)];
        assert lastep >= 0 ==> expbuf[..ep][lastep] == old(expbuf[..ep])[lastep];
      } else {
        StepRepeat(whole, done, p, sp, n, open);
        MarkStar(lastep, ep, done);
        StarCode(done);
        ep', done' := ep, StarLast(done);
      }
    }

    /** The loop of re_comp over the pattern from `start` on. */
    method CompileFrom(p: seq<int>, start: nat, ghost whole: Parsed) returns (r: Outcome)
      requires expbuf.Length == ESIZE && 0 !in p && start <= |p|
      requires whole == Parse(p, start, true, 0, []) && Fits(whole) && whole.outcome != Outside
      modifies expbuf
      ensures r == whole.outcome
      ensures r == Compiled ==> Ready(expbuf[..], 0, whole.items)
    {
      hide Progress, Encode, Parse, Ready, Fits;
      var sp, ep, lastep: int, numbra: nat, bracketp: nat := start, 0, -1, 0, 0;
      var bracket := new int[NBRA];
      ghost var done: seq<Item>, quoted := [], true;
      StepFirst(whole, p, start);
      while sp < |p|
        invariant sp <= |p| && lastep >= -1 && bracketp <= numbra <= NBRA
        invariant Progress(whole, done, p, sp, quoted, numbra, bracket[..bracketp])
        invariant Emitted(done, ep, lastep, quoted) && QuoteKnown(p, sp, ep, lastep, quoted)
        decreases |p| - sp
      {
        if p[sp] == '*' as int {
          ep, done := CompileStar(p, sp, ep, lastep, whole, done, quoted, numbra, bracket[..bracketp]);
          sp := sp + 1;
        } else if p[sp] == '[' as int {
          lastep := ep;
          var ok;
          ok, sp, ep, done := CompileBracket(p, sp, ep, whole, done, quoted, numbra, bracket[..bracketp]);
          quoted := false;
          if !ok {
            return MissingBracket;
          }
        } else if p[sp] == '\\' as int {
          lastep := ep;
          r, ep, numbra, bracketp, done, quoted :=
            CompileEscape(p, sp, ep, numbra, bracket, bracketp, whole, done, quoted);
          if r != Compiled {
            return;
          }
          sp := sp + 2;
        } else {
          lastep := ep;
          ep, done, quoted := CompileSimple(p, sp, ep, whole, done, quoted, numbra, bracket[..bracketp]);
          sp := sp + 1;
        }
      }
      StepLast(whole, done, p, quoted, numbra, bracket[..bracketp]);
      if bracketp != 0 {
        return UnmatchedBra;
      }
      Finish(ep, done);
      ParseSound(p, start, true, 0, []);
      ReadyNow(expbuf[..], whole.items);
      r := Compiled;
    }

    /** The two bytes behind the code. */
    method Finish(ep: nat, ghost done: seq<Item>)
      requires ep + 2 <= expbuf.Length && expbuf[..ep] == Encode(done) && ep == |Encode(done)|
      modifies expbuf
      ensures expbuf[..ep] == Encode(done) && expbuf[ep] == CEOF && expbuf[ep + 1] == 0
    {
      expbuf[ep], expbuf[ep + 1] := CEOF, 0;
    }

    /** re_comp */
    method Compile(p: seq<int>) returns (r: Outcome)
      requires Valid() && 0 !in p
      requires p != [] ==> Fits(Pattern(p)) && Pattern(p).outcome != Outside
      modifies this, expbuf
      ensures Valid()
      ensures p == [] ==> r == if good then Compiled else NoPrevious
      ensures p == [] ==> items == old(items) && good == old(good) && circf == old(circf)
      ensures p != [] ==> r == Pattern(p).outcome && (good <==> r == Compiled)
      ensures p != [] ==> (circf <==> p[0] == '^' as int) && (good ==> items == Pattern(p).items)
    {
      hide Parse, Ready, Fits;
      if p == [] {
        if good {
          ReadyHead(expbuf[..], 0, items);
        }
        return if expbuf[0] == 0 then NoPrevious else Compiled;
      }
      circf := p[0] == '^' as int;
      r := CompileFrom(p, if circf then 1 else 0, Pattern(p));
      good, items := r == Compiled, Pattern(p).items;
      if r != Compiled {
        expbuf[0] := 0;
      } else {
        ParseDollarLast(p, if circf then 1 else 0, true, 0, []);
      }
    }

    /** The loops of re_exec: the plain scan, and the scan that looks for the first character. */
    method Exec(s: seq<int>) returns (rv: int)
      requires Valid() && 0 !in s
      ensures rv == if !good then -1 else if Found(items, s, circf) then 1 else 0
    {
      hide Ready, MatchesAt, DollarLast;
      if good {
        ReadyHead(expbuf[..], 0, items);
      }
      if circf {
        rv := Advance(s, 0, 0, items);
        return;
      }
      var p1 := 0;
      if expbuf[0] == CCHR {
        FirstChr(expbuf[..], items, s);
        var c := expbuf[1];
        while true
          invariant 0 <= p1 <= |s| && forall i :: 0 <= i < p1 ==> !MatchesAt(items, s, i)
          decreases |s| - p1
        {
          if Get(s, p1) == c {
            rv := Advance(s, p1, 0, items);
            if rv != 0 {
              return;
            }
          }
          if Get(s, p1) == 0 {
            return 0;
          }
          p1 := p1 + 1;
        }
      }
      while true
        invariant 0 <= p1 <= |s| && forall i :: 0 <= i < p1 ==> good && !MatchesAt(items, s, i)
        decreases |s| - p1
      {
        rv := Advance(s, p1, 0, items);
        if rv != 0 {
          return;
        }
        if Get(s, p1) == 0 {
          return 0;
        }
        p1 := p1 + 1;
      }
    }
  }
}

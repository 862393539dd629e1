/**
 What the text of a pattern means, in the words of the rules at the head of bsdlibc/gen/regex.c: a pattern is written
 as a list of units, each one a character, a dot, a character behind a backslash or a bracketed list, starred or not.
 It is found exactly in the strings with consecutive pieces that its units stand for.
 */
module RegexText {
  import opened RegexSyntax

  // ----- units and their text -----

  /** A part of a bracketed list: a character, or the characters from one to another. */
  datatype Part = Char(c: int) | From(lo: int, hi: int)

  datatype Sign = Itself(c: int) | Any | Escaped(c: int) | Listed(negated: bool, parts: seq<Part>, dash: bool)

  datatype Unit = Unit(sign: Sign, starred: bool)

  function PartText(x: Part): seq<int> {
    match x
    case Char(c) => [c]
    case From(lo, hi) => [lo, '-' as int, hi]
  }

  function PartsText(parts: seq<Part>): seq<int> {
    if parts == [] then [] else PartText(parts[0]) + PartsText(parts[1..])
  }

  /** The text of a list up to its closing bracket, with a dash at the end if that is listed last. */
  function ListText(parts: seq<Part>, dash: bool): seq<int> {
    PartsText(parts) + (if dash then ['-' as int] else []) + [']' as int]
  }

  function SignText(g: Sign): (t: seq<int>)
    ensures t != []
  {
    match g
    case Itself(c) => [c]
    case Any => ['.' as int]
    case Escaped(c) => ['\\' as int, c]
    case Listed(negated, parts, dash) =>
      ['[' as int] + (if negated then ['^' as int] else []) + ListText(parts, dash)
  }

  function UnitText(u: Unit): (t: seq<int>)
    ensures t != []
  {
    SignText(u.sign) + if u.starred then ['*' as int] else []
  }

  function Text(us: seq<Unit>): (t: seq<int>)
    ensures us != [] ==> t != []
  {
    if us == [] then [] else UnitText(us[0]) + Text(us[1..])
  }

  // ----- what they stand for -----

  /** A range with its ends in the wrong order takes in the ends only. */
  predicate PartHas(x: Part, c: int) {
    match x
    case Char(d) => c == d
    case From(lo, hi) => lo <= c <= hi || c == lo || c == hi
  }

  predicate InParts(parts: seq<Part>, c: int) {
    exists k :: 0 <= k < |parts| && PartHas(parts[k], c)
  }

  /** The sign stands for the character `c`. */
  predicate Takes(g: Sign, c: int) {
    c != 0 && match g
    case Itself(d) => c == d
    case Any => true
    case Escaped(d) => c == d
    case Listed(negated, parts, dash) => (InParts(parts, c) || (dash && c == '-' as int)) != negated
  }

  /** The unit stands for the characters of `s` from `i` up to `j`: any number of them if starred, else one. */
  predicate Piece(u: Unit, s: seq<int>, i: int, j: int) {
    0 <= i <= j <= |s| && (u.starred || j == i + 1) && forall t :: i <= t < j ==> Takes(u.sign, s[t])
  }

  /** `cut` divides a substring of `s` into pieces for the units. */
  predicate Cuts(us: seq<Unit>, s: seq<int>, cut: seq<int>) {
    && |cut| == |us| + 1 && 0 <= cut[0] <= |s|
    && forall k :: 0 <= k < |us| ==> Piece(us[k], s, cut[k], cut[k + 1])
  }

  // ----- which lists of units are written so -----

  predicate Plain(c: int) {
    c != 0 && c !in {'.' as int, '*' as int, '$' as int, '[' as int, '\\' as int}
  }

  /** A character that a backslash does not give another meaning. */
  predicate Escapable(c: int) {
    c != 0 && c !in {'(' as int, ')' as int} && !('1' as int <= c < '1' as int + NBRA)
  }

  /** A dash and a closing bracket stand for themselves at the beginning of a list only. */
  predicate PartWritten(x: Part, first: bool) {
    match x
    case Char(c) => c != 0 && (first || c !in {'-' as int, ']' as int})
    case From(lo, hi) => lo != 0 && (first || lo !in {'-' as int, ']' as int}) && hi !in {0, ']' as int}
  }

  function FirstChar(x: Part): int {
    match x
    case Char(c) => c
    case From(lo, _) => lo
  }

  predicate PartsWritten(parts: seq<Part>, first: bool) {
    && (parts != [] ==> PartWritten(parts[0], first))
    && forall k :: 0 < k < |parts| ==> PartWritten(parts[k], false)
  }

  predicate SignWritten(g: Sign) {
    match g
    case Itself(c) => Plain(c)
    case Any => true
    case Escaped(c) => Escapable(c)
    case Listed(negated, parts, dash) =>
      parts != [] && PartsWritten(parts, true) && (!negated ==> FirstChar(parts[0]) != '^' as int)
  }

  predicate Written(us: seq<Unit>) {
    forall k :: 0 <= k < |us| ==> SignWritten(us[k].sign)
  }

  // ----- the items of a list of units -----

  function PartElements(x: Part): seq<Element> {
    match x
    case Char(c) => [Single(c)]
    case From(lo, hi) => [Single(lo), Range(lo, hi)]
  }

  function Elements(parts: seq<Part>, dash: bool): seq<Element> {
    if parts == [] then if dash then [Single('-' as int)] else []
    else PartElements(parts[0]) + Elements(parts[1..], dash)
  }

  function SignAtom(g: Sign): Atom {
    match g
    case Itself(c) => Chr(c)
    case Any => Dot
    case Escaped(c) => Chr(c)
    case Listed(negated, parts, dash) => Class(negated, Elements(parts, dash))
  }

  function UnitItem(u: Unit): Item {
    Item.One(SignAtom(u.sign), u.starred)
  }

  function Items(us: seq<Unit>): seq<Item> {
    if us == [] then [] else [UnitItem(us[0])] + Items(us[1..])
  }

  predicate HasElement(els: seq<Element>, c: int) {
    exists k :: 0 <= k < |els| && InElement(els[k], c)
  }

  lemma HasAppend(a: seq<Element>, b: seq<Element>, c: int)
    ensures HasElement(a + b, c) <==> HasElement(a, c) || HasElement(b, c)
  {
    if k :| 0 <= k < |a| && InElement(a[k], c) {
      assert (a + b)[k] == a[k];
    }
    if k :| 0 <= k < |b| && InElement(b[k], c) {
      assert (a + b)[|a| + k] == b[k];
    }
  }

  lemma PartDecides(x: Part, c: int)
    ensures HasElement(PartElements(x), c) <==> PartHas(x, c)
  {
    var els := PartElements(x);
    assert InElement(els[0], c) || (x.From? && InElement(els[1], c)) <==> PartHas(x, c);
  }

  lemma InPartsFirst(parts: seq<Part>, c: int)
    requires parts != []
    ensures InParts(parts, c) <==> PartHas(parts[0], c) || InParts(parts[1..], c)
  {
    if k :| 0 <= k < |parts| && PartHas(parts[k], c) {
      assert k > 0 ==> PartHas(parts[1..][k - 1], c);
    }
    if k :| 0 <= k < |parts[1..]| && PartHas(parts[1..][k], c) {
      assert PartHas(parts[k + 1], c);
    }
  }

  lemma {:induction false} ElementsDecide(parts: seq<Part>, dash: bool, c: int)
    ensures HasElement(Elements(parts, dash), c) <==> InParts(parts, c) || (dash && c == '-' as int)
  {
    if parts == [] {
      assert dash ==> InElement(Elements(parts, dash)[0], '-' as int);
    } else {
      hide HasElement, InParts, PartHas, PartElements;
      ElementsDecide(parts[1..], dash, c);
      PartDecides(parts[0], c);
      HasAppend(PartElements(parts[0]), Elements(parts[1..], dash), c);
      InPartsFirst(parts, c);
    }
  }

  /** What a sign stands for is what its atom accepts. */
  lemma SignDecides(g: Sign, c: int)
    ensures Accepts(SignAtom(g), c) <==> Takes(g, c)
  {
    if g.Listed? {
      ElementsDecide(g.parts, g.dash, c);
      assert HasElement(Elements(g.parts, g.dash), c) <==>
             exists k :: 0 <= k < |Elements(g.parts, g.dash)| && InElement(Elements(g.parts, g.dash)[k], c);
    }
  }

  // ----- reading the text of a unit -----

  /** The text `t` stands at `at` in `p`. */
  predicate StandsAt(t: seq<int>, p: seq<int>, at: nat) {
    at + |t| <= |p| && p[at..at + |t|] == t
  }

  lemma StandsParts(t: seq<int>, u: seq<int>, p: seq<int>, at: nat)
    requires StandsAt(t + u, p, at)
    ensures StandsAt(t, p, at) && StandsAt(u, p, at + |t|)
    ensures forall k :: 0 <= k < |t| ==> p[at + k] == t[k]
    ensures u != [] ==> p[at + |t|] == u[0]
  {
    var w := p[at..at + |t| + |u|];
    assert w[..|t|] == t && w[|t|..] == u;
    assert p[at..at + |t|] == w[..|t|] && p[at + |t|..at + |t| + |u|] == w[|t|..];
    forall k | 0 <= k < |t|
      ensures p[at + k] == t[k]
    {
      assert w[k] == t[k];
    }
    assert u != [] ==> w[|t|] == u[0];
  }

  lemma ListTextStep(parts: seq<Part>, dash: bool)
    requires parts != []
    ensures ListText(parts, dash) == PartText(parts[0]) + ListText(parts[1..], dash)
  {
    var end := (if dash then ['-' as int] else []) + [']' as int];
    assert PartText(parts[0]) + PartsText(parts[1..]) + end == PartText(parts[0]) + (PartsText(parts[1..]) + end);
    Joined(PartsText(parts), if dash then ['-' as int] else [], [']' as int]);
    Joined(PartsText(parts[1..]), if dash then ['-' as int] else [], [']' as int]);
  }

  lemma Joined(a: seq<int>, b: seq<int>, c: seq<int>)
    ensures a + b + c == a + (b + c)
  {
  }

  /** The first character of what follows in a list. */
  lemma ListStart(parts: seq<Part>, dash: bool)
    requires PartsWritten(parts, false)
    ensures var t := ListText(parts, dash);
            && t != [] && (t[0] == ']' as int <==> parts == [] && !dash)
            && (parts == [] && !dash ==> t == [']' as int])
            && (parts == [] && dash ==> t == ['-' as int, ']' as int])
            && (parts != [] ==> t[0] == FirstChar(parts[0]))
  {
    if parts != [] {
      ListTextStep(parts, dash);
      assert PartText(parts[0])[0] == FirstChar(parts[0]);
    } else {
      assert [] + ['-' as int] + [']' as int] == ['-' as int, ']' as int];
    }
  }

  lemma BracketStep(p: seq<int>, at: nat, prev: int)
    requires at < |p| && (Dash(p, at, prev) ==> at + 1 < |p|)
    ensures var x := FirstPiece(p, at, prev);
            Bracket(p, at, prev) ==
              if x.closed then BracketBody([x.e], x.next, Closed)
              else var rest := Bracket(p, x.next, x.last); rest.(els := [x.e] + rest.els)
  {
  }

  /** The dash at the end of a list. */
  lemma ReadDash(p: seq<int>, at: nat, prev: int)
    requires StandsAt(ListText([], true), p, at) && prev != 0
    ensures Bracket(p, at, prev) == BracketBody([Single('-' as int)], at + 2, Closed)
  {
    ListStart([], true);
    assert ListText([], true) == ['-' as int] + [']' as int];
    StandsParts(['-' as int], [']' as int], p, at);
    hide Bracket;
    BracketStep(p, at, prev);
  }

  function LastChar(x: Part): int {
    match x
    case Char(c) => c
    case From(_, hi) => hi
  }

  lemma StandAt(t: seq<int>, p: seq<int>, at: nat, k: nat)
    requires StandsAt(t, p, at) && k < |t|
    ensures p[at + k] == t[k]
  {
    assert p[at..at + |t|][k] == p[at + k];
  }

  lemma ReadChar(p: seq<int>, at: nat, prev: int, c: int)
    requires at + 1 < |p| && p[at] == c && PartWritten(Char(c), prev == 0)
    ensures Bracket(p, at, prev) ==
              if p[at + 1] == ']' as int then BracketBody([Single(c)], at + 2, Closed)
              else var rest := Bracket(p, at + 1, c); rest.(els := [Single(c)] + rest.els)
  {
    hide Bracket;
    BracketStep(p, at, prev);
  }

  lemma ReadRange(p: seq<int>, at: nat, lo: int, hi: int)
    requires at + 2 < |p| && p[at] == '-' as int && p[at + 1] == hi && hi != ']' as int && lo != 0
    ensures Bracket(p, at, lo) ==
              if p[at + 2] == ']' as int then BracketBody([Range(lo, hi)], at + 3, Closed)
              else var rest := Bracket(p, at + 2, hi); rest.(els := [Range(lo, hi)] + rest.els)
  {
    hide Bracket;
    BracketStep(p, at, lo);
  }

  /** One part of a list, and what follows it. */
  lemma ReadPart(p: seq<int>, at: nat, prev: int, x: Part)
    requires StandsAt(PartText(x), p, at) && at + |PartText(x)| < |p| && PartWritten(x, prev == 0)
    ensures var next := at + |PartText(x)|;
            Bracket(p, at, prev) ==
              if p[next] == ']' as int then BracketBody(PartElements(x), next + 1, Closed)
              else var rest := Bracket(p, next, LastChar(x)); rest.(els := PartElements(x) + rest.els)
  {
    hide Bracket, StandsAt;
    match x
    case Char(c) =>
      StandAt(PartText(x), p, at, 0);
      ReadChar(p, at, prev, c);
    case From(lo, hi) =>
      StandAt(PartText(x), p, at, 0);
      StandAt(PartText(x), p, at, 1);
      StandAt(PartText(x), p, at, 2);
      ReadChar(p, at, prev, lo);
      ReadRange(p, at + 1, lo, hi);
      Seconds(Single(lo), Range(lo, hi), Bracket(p, at + 3, hi).els);
  }

  lemma Seconds(a: Element, b: Element, els: seq<Element>)
    ensures [a] + ([b] + els) == [a, b] + els && [a] + [b] == [a, b]
  {
  }

  /** The text of a list is read as its elements. */
  lemma {:induction false} ReadParts(p: seq<int>, at: nat, prev: int, parts: seq<Part>, dash: bool)
    requires StandsAt(ListText(parts, dash), p, at) && PartsWritten(parts, prev == 0)
    requires parts == [] ==> dash && prev != 0
    ensures Bracket(p, at, prev) == BracketBody(Elements(parts, dash), at + |ListText(parts, dash)|, Closed)
    decreases |parts|
  {
    hide Bracket, ListText, StandsAt, PartText, PartElements;
    if parts == [] {
      ListStart([], true);
      ReadDash(p, at, prev);
    } else {
      var x, rest := parts[0], parts[1..];
      ListTextStep(parts, dash);
      StandsParts(PartText(x), ListText(rest, dash), p, at);
      assert PartsWritten(rest, false);
      ListStart(rest, dash);
      StandsBefore(ListText(parts, dash), p, at);
      ReadPart(p, at, prev, x);
      if rest != [] || dash {
        ReadParts(p, at + |PartText(x)|, LastChar(x), rest, dash);
      }
    }
  }

  lemma StandsBefore(t: seq<int>, p: seq<int>, at: nat)
    requires StandsAt(t, p, at)
    ensures at + |t| <= |p|
  {
  }

  // ----- reading the text of units -----

  lemma OpenBracket(p: seq<int>, at: nat, quoted: bool, n: nat, open: seq<int>, b: BracketBody, negated: bool)
    requires at < |p| && p[at] == '[' as int && (negated <==> Get(p, at + 1) == '^' as int)
    requires b == Bracket(p, if negated then at + 2 else at + 1, 0) && b.status == Closed
    ensures Parse(p, at, quoted, n, open) ==
              Then(Item.One(Class(negated, b.els), StarAt(p, b.next)), Parse(p, b.next, false, n, open))
  {
  }

  lemma ReadList(p: seq<int>, at: nat, quoted: bool, n: nat, open: seq<int>, g: Sign)
    requires g.Listed? && StandsAt(SignText(g), p, at) && SignWritten(g)
    ensures var next := at + |SignText(g)|;
            Parse(p, at, quoted, n, open) ==
              Then(Item.One(SignAtom(g), StarAt(p, next)), Parse(p, next, false, n, open))
  {
    hide Bracket, ListText, Elements, Parse, StandsAt;
    var head := ['[' as int] + if g.negated then ['^' as int] else [];
    StandsParts(head, ListText(g.parts, g.dash), p, at);
    StandsBefore(SignText(g), p, at);
    ListFirst(g.parts, g.dash);
    assert p[at] == head[0];
    assert g.negated ==> p[at + 1] == head[1];
    ReadParts(p, at + |head|, 0, g.parts, g.dash);
    OpenBracket(p, at, quoted, n, open, Bracket(p, at + |head|, 0), g.negated);
  }

  lemma ReadChr(p: seq<int>, at: nat, quoted: bool, n: nat, open: seq<int>)
    requires at < |p| && (Plain(p[at]) || p[at] == '.' as int)
    ensures Parse(p, at, quoted, n, open) ==
              Then(Item.One(if p[at] == '.' as int then Dot else Chr(p[at]), StarAt(p, at + 1)),
                   Parse(p, at + 1, false, n, open))
  {
  }

  lemma ReadEscape(p: seq<int>, at: nat, quoted: bool, n: nat, open: seq<int>)
    requires at + 1 < |p| && p[at] == '\\' as int && Escapable(p[at + 1])
    ensures Parse(p, at, quoted, n, open) ==
              Then(Item.One(Chr(p[at + 1]), StarAt(p, at + 2)), Parse(p, at + 2, false, n, open))
  {
  }

  lemma ReadSign(p: seq<int>, at: nat, quoted: bool, n: nat, open: seq<int>, g: Sign)
    requires StandsAt(SignText(g), p, at) && SignWritten(g)
    ensures var next := at + |SignText(g)|;
            Parse(p, at, quoted, n, open) ==
              Then(Item.One(SignAtom(g), StarAt(p, next)), Parse(p, next, false, n, open))
  {
    hide Parse, StandsAt, ListText;
    if g.Listed? {
      ReadList(p, at, quoted, n, open, g);
    } else {
      StandsBefore(SignText(g), p, at);
      StandAt(SignText(g), p, at, 0);
      if g.Escaped? {
        StandAt(SignText(g), p, at, 1);
        ReadEscape(p, at, quoted, n, open);
      } else {
        ReadChr(p, at, quoted, n, open);
      }
    }
  }

  lemma ListFirst(parts: seq<Part>, dash: bool)
    requires parts != []
    ensures ListText(parts, dash) != [] && ListText(parts, dash)[0] == FirstChar(parts[0])
  {
    ListTextStep(parts, dash);
    assert PartText(parts[0])[0] == FirstChar(parts[0]);
  }

  /** A unit is read as its item; a star behind it is part of it. */
  lemma ReadUnit(p: seq<int>, at: nat, quoted: bool, n: nat, open: seq<int>, u: Unit)
    requires StandsAt(UnitText(u), p, at) && SignWritten(u.sign)
    requires !u.starred ==> !StarAt(p, at + |UnitText(u)|)
    ensures Parse(p, at, quoted, n, open) == Then(UnitItem(u), Parse(p, at + |UnitText(u)|, false, n, open))
  {
    hide SignText, SignAtom, SignWritten;
    StandsParts(SignText(u.sign), if u.starred then ['*' as int] else [], p, at);
    StarStep(p, at + |SignText(u.sign)|, n, open);
    hide Parse;
    ReadSign(p, at, quoted, n, open, u.sign);
  }

  lemma StarStep(p: seq<int>, at: nat, n: nat, open: seq<int>)
    requires at <= |p|
    ensures StarAt(p, at) ==> Parse(p, at, false, n, open) == Parse(p, at + 1, false, n, open)
  {
  }

  lemma TextStart(us: seq<Unit>)
    requires Written(us) && us != []
    ensures Text(us)[0] != '*' as int
  {
    assert SignWritten(us[0].sign);
  }

  lemma WrittenStep(us: seq<Unit>)
    requires Written(us) && us != []
    ensures SignWritten(us[0].sign) && Written(us[1..])
  {
  }

  lemma ItemsStep(us: seq<Unit>, its: seq<Item>)
    requires us != []
    ensures Items(us) + its == [UnitItem(us[0])] + (Items(us[1..]) + its)
  {
  }

  lemma NoStar(p: seq<int>, at: nat, rest: seq<Unit>)
    requires StandsAt(Text(rest), p, at) && Written(rest) && !StarAt(p, at + |Text(rest)|)
    ensures !StarAt(p, at)
  {
    hide UnitText;
    if rest != [] {
      TextStart(rest);
      assert p[at..at + |Text(rest)|][0] == p[at];
    }
  }

  /** The text of units is read as their items, and the pattern goes on behind it. */
  lemma {:induction false} ReadUnits(p: seq<int>, at: nat, quoted: bool, n: nat, open: seq<int>, us: seq<Unit>)
    requires StandsAt(Text(us), p, at) && Written(us) && !StarAt(p, at + |Text(us)|)
    ensures var r := Parse(p, at + |Text(us)|, quoted && us == [], n, open);
            Parse(p, at, quoted, n, open) == r.(items := Items(us) + r.items)
    decreases |us|
  {
    hide Parse, UnitText, SignWritten, StandsAt, StarAt, Written, UnitItem;
    StandsBefore(Text(us), p, at);
    if us == [] {
      var r := Parse(p, at, quoted, n, open);
      assert [] + r.items == r.items;
    } else {
      var u, rest := us[0], us[1..];
      WrittenStep(us);
      StandsParts(UnitText(u), Text(rest), p, at);
      NoStar(p, at + |UnitText(u)|, rest);
      ReadUnit(p, at, quoted, n, open, u);
      ReadUnits(p, at + |UnitText(u)|, false, n, open, rest);
      ItemsStep(us, Parse(p, at + |Text(us)|, false, n, open).items);
    }
  }

  // ----- matching the items of units -----

  lemma RunPiece(u: Unit, s: seq<int>, i: int, k: int)
    requires u.starred
    ensures Run(SignAtom(u.sign), s, i, k) <==> Piece(u, s, i, k)
  {
    hide Accepts, Takes, SignAtom;
    forall t | 0 <= i <= t < k <= |s|
      ensures Accepts(SignAtom(u.sign), s[t]) <==> Takes(u.sign, s[t])
    {
      SignDecides(u.sign, s[t]);
    }
  }

  lemma OnePiece(u: Unit, s: seq<int>, i: int, k: int)
    requires !u.starred
    ensures Piece(u, s, i, k) <==> 0 <= i < |s| && k == i + 1 && Accepts(SignAtom(u.sign), s[i])
  {
    hide Accepts, Takes, SignAtom;
    if 0 <= i < |s| {
      SignDecides(u.sign, s[i]);
    }
  }

  /** The item of a unit matches a piece for it, and the rest goes on behind. */
  lemma ItemMatches(u: Unit, its: seq<Item>, s: seq<int>, i: int, j: int)
    ensures Matches([UnitItem(u)] + its, s, i, j) <==> exists k :: Piece(u, s, i, k) && Matches(its, s, k, j)
  {
    hide Run, Piece, Accepts, SignAtom;
    var all := [UnitItem(u)] + its;
    assert all[0] == UnitItem(u) && all[1..] == its;
    forall k
      ensures u.starred ==> (Run(SignAtom(u.sign), s, i, k) <==> Piece(u, s, i, k))
      ensures !u.starred ==> (Piece(u, s, i, k) <==> 0 <= i < |s| && k == i + 1 && Accepts(SignAtom(u.sign), s[i]))
    {
      if u.starred {
        RunPiece(u, s, i, k);
      } else {
        OnePiece(u, s, i, k);
      }
    }
    if !u.starred && Matches(all, s, i, j) {
      assert Piece(u, s, i, i + 1);
    }
  }

  /** `cut` divides the characters of `s` from `i` up to `j` into pieces for the units. */
  predicate CutsFrom(us: seq<Unit>, s: seq<int>, cut: seq<int>, i: int, j: int) {
    Cuts(us, s, cut) && cut[0] == i && cut[|us|] == j
  }

  lemma CutsFront(us: seq<Unit>, s: seq<int>, cut: seq<int>, i: int, k: int, j: int)
    requires us != [] && Piece(us[0], s, i, k) && CutsFrom(us[1..], s, cut, k, j)
    ensures CutsFrom(us, s, [i] + cut, i, j)
  {
    var all := [i] + cut;
    forall n | 0 <= n < |us|
      ensures Piece(us[n], s, all[n], all[n + 1])
    {
      if n > 0 {
        assert Piece(us[1..][n - 1], s, cut[n - 1], cut[n]);
      }
    }
  }

  lemma CutsRest(us: seq<Unit>, s: seq<int>, cut: seq<int>, i: int, j: int)
    requires us != [] && CutsFrom(us, s, cut, i, j)
    ensures Piece(us[0], s, i, cut[1]) && CutsFrom(us[1..], s, cut[1..], cut[1], j)
  {
    assert Piece(us[0], s, cut[0], cut[1]);
    forall n | 0 <= n < |us| - 1
      ensures Piece(us[1..][n], s, cut[1..][n], cut[1..][n + 1])
    {
      assert Piece(us[n + 1], s, cut[n + 1], cut[n + 2]);
    }
  }

  /** The items of units match consecutive pieces, and what follows goes on behind them. */
  lemma {:induction false} UnitsMatch(us: seq<Unit>, its: seq<Item>, s: seq<int>, i: int, j: int)
    requires 0 <= i <= |s|
    ensures Matches(Items(us) + its, s, i, j) <==>
            exists cut, k :: CutsFrom(us, s, cut, i, k) && Matches(its, s, k, j)
    decreases |us|
  {
    hide Matches, Piece, UnitItem;
    if us == [] {
      assert [] + its == its;
      NoCuts(s);
      if Matches(its, s, i, j) {
        assert CutsFrom([], s, [i], i, i);
      }
    } else {
      var rest := us[1..];
      ItemsStep(us, its);
      ItemMatches(us[0], Items(rest) + its, s, i, j);
      if Matches(Items(us) + its, s, i, j) {
        var n :| Piece(us[0], s, i, n) && Matches(Items(rest) + its, s, n, j);
        PieceEnds(us[0], s, i, n);
        UnitsMatch(rest, its, s, n, j);
        var cut, k :| CutsFrom(rest, s, cut, n, k) && Matches(its, s, k, j);
        CutsFront(us, s, cut, i, n, k);
      }
      if cut, k :| CutsFrom(us, s, cut, i, k) && Matches(its, s, k, j) {
        CutsRest(us, s, cut, i, k);
        PieceEnds(us[0], s, i, cut[1]);
        UnitsMatch(rest, its, s, cut[1], j);
      }
    }
  }

  lemma NoCuts(s: seq<int>)
    ensures forall cut, i, k :: CutsFrom([], s, cut, i, k) ==> i == k
    ensures forall i :: 0 <= i <= |s| ==> CutsFrom([], s, [i], i, i)
  {
  }

  lemma PieceEnds(u: Unit, s: seq<int>, i: int, k: int)
    requires Piece(u, s, i, k)
    ensures 0 <= k <= |s|
  {
  }

  // ----- the whole pattern -----

  /** A pattern: units, with a circumflex in front or a dollar behind. */
  function PatternText(us: seq<Unit>, bol: bool, eol: bool): seq<int> {
    (if bol then ['^' as int] else []) + Text(us) + if eol then ['$' as int] else []
  }

  lemma ReadEnd(p: seq<int>, at: nat, quoted: bool)
    requires at <= |p| <= at + 1 && (at < |p| ==> p[at] == '$' as int)
    ensures Parse(p, at, quoted, 0, []) == Parsed(if at < |p| then [Dollar] else [], [], Compiled)
  {
    assert [Dollar] + [] == [Dollar];
  }

  /** Where the units stand in a pattern. */
  lemma PatternParts(us: seq<Unit>, bol: bool, eol: bool)
    ensures var p, at := PatternText(us, bol, eol), if bol then 1 else 0;
            var end := at + |Text(us)|;
            && StandsAt(Text(us), p, at) && |p| == end + (if eol then 1 else 0) && (bol ==> p[0] == '^' as int)
            && (eol ==> p[end] == '$' as int)
            && (!bol && us != [] ==> p[0] == Text(us)[0])
  {
    var head, end := if bol then ['^' as int] else [], if eol then ['$' as int] else [];
    var p := head + Text(us) + end;
    assert p[|head|..|head| + |Text(us)|] == Text(us);
  }

  lemma ReadWhole(p: seq<int>, us: seq<Unit>, at: nat)
    requires StandsAt(Text(us), p, at) && Written(us) && at + |Text(us)| <= |p| <= at + |Text(us)| + 1
    requires at + |Text(us)| < |p| ==> p[|p| - 1] == '$' as int
    ensures Parse(p, at, true, 0, [])
         == Parsed(Items(us) + (if at + |Text(us)| < |p| then [Dollar] else []), [], Compiled)
  {
    hide Parse, StandsAt, Written, Items, Text;
    ReadUnits(p, at, true, 0, [], us);
    ReadEnd(p, at + |Text(us)|, us == []);
  }

  /** The text is read as the items of the units, then a dollar if there is one. */
  lemma ReadPattern(us: seq<Unit>, bol: bool, eol: bool)
    requires Written(us) && (bol || us != [] || eol)
    requires !bol && us != [] ==> us[0].sign != Itself('^' as int)
    ensures var p := PatternText(us, bol, eol);
            && p != [] && (bol <==> p[0] == '^' as int)
            && Pattern(p) == Parsed(Items(us) + if eol then [Dollar] else [], [], Compiled)
  {
    hide Parse, StandsAt, Written, Text, PatternText, Items;
    PatternParts(us, bol, eol);
    if us != [] {
      TextHead(us);
    } else {
      NoText();
    }
    ReadWhole(PatternText(us, bol, eol), us, if bol then 1 else 0);
  }

  lemma NoText()
    ensures Text([]) == []
  {
  }

  lemma TextHead(us: seq<Unit>)
    requires us != [] && Written(us)
    ensures Text(us)[0] == '^' as int <==> us[0].sign == Itself('^' as int)
  {
    assert SignWritten(us[0].sign);
  }

  /**
   A pattern is found exactly in the strings with consecutive pieces that its units stand for, from the beginning of the
   string on if it starts with a circumflex, and up to its end if it ends in a dollar.
   */
  lemma TextFound(us: seq<Unit>, bol: bool, eol: bool, s: seq<int>)
    requires Written(us) && (bol || us != [] || eol)
    requires !bol && us != [] ==> us[0].sign != Itself('^' as int)
    ensures var p := PatternText(us, bol, eol);
            && p != [] && (bol <==> p[0] == '^' as int) && Pattern(p).outcome == Compiled
            && (Found(Pattern(p).items, s, bol) <==>
                  exists cut :: Cuts(us, s, cut) && (bol ==> cut[0] == 0) && (eol ==> cut[|us|] == |s|))
  {
    hide Parse, Piece, Items, Written, PatternText;
    var its := if eol then [Dollar] else [];
    ReadPattern(us, bol, eol);
    assert forall k, j :: Matches(its, s, k, j) <==> k == j && (eol ==> k == |s|);
    var all := Items(us) + its;
    if Found(all, s, bol) {
      var i :| 0 <= i <= |s| && (bol ==> i == 0) && MatchesAt(all, s, i);
      var j :| Matches(all, s, i, j);
      UnitsMatch(us, its, s, i, j);
      var cut, k :| CutsFrom(us, s, cut, i, k) && Matches(its, s, k, j);
      assert Cuts(us, s, cut);
    }
    if cut :| Cuts(us, s, cut) && (bol ==> cut[0] == 0) && (eol ==> cut[|us|] == |s|) {
      var i, j := cut[0], cut[|us|];
      assert CutsFrom(us, s, cut, i, j);
      UnitsMatch(us, its, s, i, j);
      assert MatchesAt(all, s, i);
    }
  }

  // ----- patterns of one character after the other -----

  /** A dot agrees with every character; no string has a zero in it. */
  predicate AgreesAt(p: seq<int>, s: seq<int>, i: int) {
    0 <= i <= |s| - |p| && forall k :: 0 <= k < |p| ==> if p[k] == '.' as int then s[i + k] != 0 else s[i + k] == p[k]
  }

  predicate OccursAt(p: seq<int>, s: seq<int>, i: int) {
    0 <= i <= |s| - |p| && s[i..i + |p|] == p
  }

  predicate Dotted(p: seq<int>) {
    forall k :: 0 <= k < |p| ==> Plain(p[k]) || p[k] == '.' as int
  }

  /** The units of a text of plain characters and dots. */
  function Word(p: seq<int>): (us: seq<Unit>)
    ensures |us| == |p|
    ensures forall k :: 0 <= k < |p| ==> us[k] == Unit(if p[k] == '.' as int then Any else Itself(p[k]), false)
  {
    seq(|p|, k requires 0 <= k < |p| => Unit(if p[k] == '.' as int then Any else Itself(p[k]), false))
  }

  lemma {:induction false} WordText(p: seq<int>)
    requires Dotted(p)
    ensures Text(Word(p)) == p && Written(Word(p))
  {
    if p != [] {
      WordText(p[1..]);
      assert Word(p)[1..] == Word(p[1..]);
      assert UnitText(Word(p)[0]) == [p[0]];
      assert p == [p[0]] + p[1..];
    }
  }

  lemma {:induction false} TextAppend(us: seq<Unit>, vs: seq<Unit>)
    ensures Text(us + vs) == Text(us) + Text(vs)
  {
    hide UnitText;
    if us == [] {
      assert [] + vs == vs;
    } else {
      TextAppend(us[1..], vs);
      assert (us + vs)[1..] == us[1..] + vs;
      Joined(UnitText(us[0]), Text(us[1..]), Text(vs));
    }
  }

  /** Cuts for one list after the other. */
  lemma CutsJoin(us: seq<Unit>, vs: seq<Unit>, s: seq<int>, c: seq<int>, d: seq<int>, i: int, k: int, j: int)
    requires CutsFrom(us, s, c, i, k) && CutsFrom(vs, s, d, k, j)
    ensures CutsFrom(us + vs, s, c + d[1..], i, j)
  {
    var all := c + d[1..];
    forall n | 0 <= n < |us + vs|
      ensures Piece((us + vs)[n], s, all[n], all[n + 1])
    {
      if n < |us| {
        assert Piece(us[n], s, c[n], c[n + 1]);
      } else {
        assert Piece(vs[n - |us|], s, d[n - |us|], d[n - |us| + 1]);
        assert all[n] == d[n - |us|];
      }
    }
  }

  lemma CutsPart(us: seq<Unit>, vs: seq<Unit>, s: seq<int>, cut: seq<int>)
    requires Cuts(us + vs, s, cut)
    ensures CutsFrom(us, s, cut[..|us| + 1], cut[0], cut[|us|])
    ensures CutsFrom(vs, s, cut[|us|..], cut[|us|], cut[|us + vs|])
  {
    var c, d := cut[..|us| + 1], cut[|us|..];
    forall n | 0 <= n < |us|
      ensures Piece(us[n], s, c[n], c[n + 1])
    {
      assert Piece((us + vs)[n], s, cut[n], cut[n + 1]);
    }
    forall n | 0 <= n < |vs|
      ensures Piece(vs[n], s, d[n], d[n + 1])
    {
      assert Piece((us + vs)[n + |us|], s, cut[n + |us|], cut[n + |us| + 1]);
    }
    assert |us| > 0 ==> Piece((us + vs)[|us| - 1], s, cut[|us| - 1], cut[|us|]);
  }

  lemma WordAt(p: seq<int>, s: seq<int>, i: int, k: int)
    requires Dotted(p) && 0 <= k < |p|
    ensures Piece(Word(p)[k], s, i + k, i + k + 1) <==>
            0 <= i + k < |s| && if p[k] == '.' as int then s[i + k] != 0 else s[i + k] == p[k]
  {
    assert Plain(p[k]) || p[k] == '.' as int;
  }

  lemma WordAgrees(p: seq<int>, s: seq<int>, i: int) returns (cut: seq<int>)
    requires Dotted(p) && AgreesAt(p, s, i)
    ensures CutsFrom(Word(p), s, cut, i, i + |p|)
  {
    hide Piece, Word;
    cut := seq(|p| + 1, k requires 0 <= k => i + k);
    forall k | 0 <= k < |p|
      ensures Piece(Word(p)[k], s, cut[k], cut[k + 1])
    {
      WordAt(p, s, i, k);
    }
  }

  lemma {:induction false} WordSteps(p: seq<int>, s: seq<int>, cut: seq<int>, k: nat)
    requires Cuts(Word(p), s, cut) && k <= |p|
    ensures cut[k] == cut[0] + k
  {
    if k > 0 {
      WordSteps(p, s, cut, k - 1);
      assert Piece(Word(p)[k - 1], s, cut[k - 1], cut[k]);
    }
  }

  lemma WordCuts(p: seq<int>, s: seq<int>, cut: seq<int>, i: int, j: int)
    requires Dotted(p) && CutsFrom(Word(p), s, cut, i, j)
    ensures AgreesAt(p, s, i) && j == i + |p|
  {
    hide Piece, Word;
    WordSteps(p, s, cut, |p|);
    forall k | 0 <= k < |p|
      ensures 0 <= i + k < |s| && if p[k] == '.' as int then s[i + k] != 0 else s[i + k] == p[k]
    {
      WordSteps(p, s, cut, k);
      WordSteps(p, s, cut, k + 1);
      assert Piece(Word(p)[k], s, cut[k], cut[k + 1]);
      WordAt(p, s, i, k);
    }
    if p != [] {
      assert Piece(Word(p)[|p| - 1], s, cut[|p| - 1], cut[|p|]);
      PieceEnds(Word(p)[|p| - 1], s, cut[|p| - 1], cut[|p|]);
    }
  }

  /**
   A pattern of plain characters and dots, with no circumflex in front, is found exactly in the strings with a
   substring of its length that agrees with it everywhere but at the dots.
   */
  lemma DotsFound(p: seq<int>, s: seq<int>)
    requires p != [] && p[0] != '^' as int && Dotted(p)
    ensures Pattern(p).outcome == Compiled
    ensures Found(Pattern(p).items, s, false) <==> exists i :: AgreesAt(p, s, i)
  {
    hide Cuts, AgreesAt, Found, Parse, Text, Word;
    var us := Word(p);
    WordText(p);
    WordFirst(p);
    assert [] + p + [] == p;
    TextFound(us, false, false, s);
    if cut :| Cuts(us, s, cut) {
      CutsAre(us, s, cut);
      WordCuts(p, s, cut, cut[0], cut[|us|]);
    }
    if i :| AgreesAt(p, s, i) {
      var cut := WordAgrees(p, s, i);
      assert Cuts(us, s, cut);
    }
  }

  lemma WordFirst(p: seq<int>)
    requires p != [] && p[0] != '^' as int
    ensures Word(p) != [] && Word(p)[0].sign != Itself('^' as int)
  {
  }

  lemma CutsAre(us: seq<Unit>, s: seq<int>, cut: seq<int>)
    requires Cuts(us, s, cut)
    ensures |cut| == |us| + 1 && CutsFrom(us, s, cut, cut[0], cut[|us|])
  {
  }

  lemma PlainAgrees(p: seq<int>, s: seq<int>, i: int)
    requires forall k :: 0 <= k < |p| ==> Plain(p[k])
    ensures AgreesAt(p, s, i) <==> OccursAt(p, s, i)
  {
    if OccursAt(p, s, i) {
      forall k | 0 <= k < |p|
        ensures s[i + k] == p[k]
      {
        assert s[i..i + |p|][k] == s[i + k];
      }
    }
  }

  /** Such a pattern without dots is found exactly in the strings that contain it. */
  lemma PlainFound(p: seq<int>, s: seq<int>)
    requires p != [] && p[0] != '^' as int && forall k :: 0 <= k < |p| ==> Plain(p[k])
    ensures Pattern(p).outcome == Compiled
    ensures Found(Pattern(p).items, s, false) <==> exists i :: OccursAt(p, s, i)
  {
    hide AgreesAt, OccursAt, Found, Parse, Plain;
    DotsFound(p, s);
    forall i
      ensures AgreesAt(p, s, i) <==> OccursAt(p, s, i)
    {
      PlainAgrees(p, s, i);
    }
  }

  // ----- a starred dot -----

  lemma GapText(a: seq<int>, b: seq<int>)
    requires Dotted(a) && Dotted(b)
    ensures var us := Word(a) + ([Unit(Any, true)] + Word(b));
            Text(us) == a + ['.' as int, '*' as int] + b && Written(us)
  {
    hide Text, Word;
    var gap := [Unit(Any, true)];
    WordText(a);
    WordText(b);
    GapOnly();
    TextAppend(Word(a), gap + Word(b));
    TextAppend(gap, Word(b));
    Joined(a, ['.' as int, '*' as int], b);
  }

  lemma GapOnly()
    ensures Text([Unit(Any, true)]) == ['.' as int, '*' as int]
  {
    assert [Unit(Any, true)][1..] == [];
    assert UnitText(Unit(Any, true)) == ['.' as int, '*' as int];
  }

  lemma GapPiece(s: seq<int>, i: int, j: int)
    requires 0 !in s
    ensures Piece(Unit(Any, true), s, i, j) <==> 0 <= i <= j <= |s|
  {
  }

  /**
   A starred dot between two plain words: found exactly in the strings in which the second occurs somewhere behind an
   occurrence of the first.
   */
  lemma StarredDotFound(a: seq<int>, b: seq<int>, s: seq<int>)
    requires (forall k :: 0 <= k < |a| ==> Plain(a[k])) && (forall k :: 0 <= k < |b| ==> Plain(b[k])) && 0 !in s
    requires a != [] ==> a[0] != '^' as int
    ensures var p := a + ['.' as int, '*' as int] + b;
            && Pattern(p).outcome == Compiled
            && (Found(Pattern(p).items, s, false) <==>
                  exists i, j :: OccursAt(a, s, i) && OccursAt(b, s, j) && i + |a| <= j)
  {
    hide Cuts, AgreesAt, OccursAt, Found, Parse, Text, Word, Piece, Plain, Written;
    var gap, p := [Unit(Any, true)], a + ['.' as int, '*' as int] + b;
    var us := Word(a) + (gap + Word(b));
    GapText(a, b);
    GapFirst(a, b);
    assert [] + p + [] == p;
    TextFound(us, false, false, s);
    if cut :| Cuts(us, s, cut) {
      var i, j := GapCut(a, b, s, cut);
      PlainAgrees(a, s, i);
      PlainAgrees(b, s, j);
    }
    if i, j :| OccursAt(a, s, i) && OccursAt(b, s, j) && i + |a| <= j {
      PlainAgrees(a, s, i);
      PlainAgrees(b, s, j);
      var cut := GapFill(a, b, s, i, j);
      assert Cuts(us, s, cut);
    }
  }

  lemma GapFirst(a: seq<int>, b: seq<int>)
    requires a != [] ==> a[0] != '^' as int
    ensures (Word(a) + ([Unit(Any, true)] + Word(b)))[0].sign != Itself('^' as int)
  {
    assert a != [] ==> (Word(a) + ([Unit(Any, true)] + Word(b)))[0] == Word(a)[0];
  }

  lemma GapCut(a: seq<int>, b: seq<int>, s: seq<int>, cut: seq<int>) returns (i: int, j: int)
    requires Dotted(a) && Dotted(b) && Cuts(Word(a) + ([Unit(Any, true)] + Word(b)), s, cut)
    ensures AgreesAt(a, s, i) && AgreesAt(b, s, j) && i + |a| <= j
  {
    hide AgreesAt, Word, Piece;
    var gap := [Unit(Any, true)];
    var us := gap + Word(b);
    CutsPart(Word(a), us, s, cut);
    var c := cut[|Word(a)|..];
    CutsPart(gap, Word(b), s, c);
    i, j := cut[0], c[1];
    WordCuts(a, s, cut[..|Word(a)| + 1], i, c[0]);
    WordCuts(b, s, c[1..], j, c[|us|]);
    assert Piece(gap[0], s, c[0], c[1]);
    PieceGoesOn(gap[0], s, c[0], c[1]);
  }

  lemma PieceGoesOn(u: Unit, s: seq<int>, i: int, k: int)
    requires Piece(u, s, i, k)
    ensures i <= k
  {
  }

  lemma GapFill(a: seq<int>, b: seq<int>, s: seq<int>, i: int, j: int) returns (cut: seq<int>)
    requires Dotted(a) && Dotted(b) && 0 !in s && AgreesAt(a, s, i) && AgreesAt(b, s, j) && i + |a| <= j
    ensures Cuts(Word(a) + ([Unit(Any, true)] + Word(b)), s, cut)
  {
    hide Word, Piece;
    var gap := [Unit(Any, true)];
    var c := WordAgrees(a, s, i);
    var d := WordAgrees(b, s, j);
    GapPiece(s, i + |a|, j);
    var e := [i + |a|, j];
    assert CutsFrom(gap, s, e, i + |a|, j);
    CutsJoin(gap, Word(b), s, e, d, i + |a|, j, j + |b|);
    CutsJoin(Word(a), gap + Word(b), s, c, e + d[1..], i, i + |a|, j + |b|);
    cut := c + (e + d[1..])[1..];
  }

  // ----- one sign -----

  /** A pattern of one sign is found exactly in the strings with a character that it stands for. */
  lemma SignFound(g: Sign, s: seq<int>)
    requires SignWritten(g) && g != Itself('^' as int)
    ensures var p := SignText(g);
            && Pattern(p).outcome == Compiled
            && (Found(Pattern(p).items, s, false) <==> exists i :: 0 <= i < |s| && Takes(g, s[i]))
  {
    hide Found, Parse, Takes, SignWritten;
    var us := [Unit(g, false)];
    assert us[1..] == [] && Text(us) == SignText(g) + [] + [];
    assert [] + Text(us) + [] == SignText(g);
    TextFound(us, false, false, s);
    if cut :| Cuts(us, s, cut) {
      assert Piece(us[0], s, cut[0], cut[1]);
      assert Takes(g, s[cut[0]]);
    }
    if i :| 0 <= i < |s| && Takes(g, s[i]) {
      var cut := [i, i + 1];
      assert Piece(us[0], s, cut[0], cut[1]);
      assert Cuts(us, s, cut);
    }
  }

  /** A character behind a backslash is found exactly where it stands. */
  lemma EscapedFound(c: int, s: seq<int>)
    requires Escapable(c)
    ensures var p := ['\\' as int, c];
            Pattern(p).outcome == Compiled && (Found(Pattern(p).items, s, false) <==> c in s)
  {
    hide Found, Parse;
    SignFound(Escaped(c), s);
    if c in s {
      var i :| 0 <= i < |s| && s[i] == c;
      assert Takes(Escaped(c), s[i]);
    }
  }

  function Chars(cs: seq<int>): (parts: seq<Part>)
    ensures |parts| == |cs| && forall k :: 0 <= k < |cs| ==> parts[k] == Char(cs[k])
  {
    seq(|cs|, k requires 0 <= k < |cs| => Char(cs[k]))
  }

  lemma {:induction false} CharsText(cs: seq<int>)
    ensures PartsText(Chars(cs)) == cs
  {
    if cs != [] {
      CharsText(cs[1..]);
      assert Chars(cs)[1..] == Chars(cs[1..]);
      assert cs == [cs[0]] + cs[1..];
    }
  }

  lemma CharsHave(cs: seq<int>, c: int)
    ensures InParts(Chars(cs), c) <==> c in cs
  {
    if c in cs {
      var k :| 0 <= k < |cs| && cs[k] == c;
      assert PartHas(Chars(cs)[k], c);
    }
  }

  /**
   A bracketed list of characters, in which a dash or a closing bracket comes first if at all, is found exactly in the
   strings with a character that is listed, or with a circumflex in front one that is not.
   */
  lemma ListFound(cs: seq<int>, negated: bool, s: seq<int>)
    requires cs != [] && 0 !in cs && 0 !in s && (!negated ==> cs[0] != '^' as int)
    requires forall k :: 0 < k < |cs| ==> cs[k] !in {'-' as int, ']' as int}
    ensures var p := ['[' as int] + (if negated then ['^' as int] else []) + (cs + [']' as int]);
            && Pattern(p).outcome == Compiled
            && (Found(Pattern(p).items, s, false) <==> exists i :: 0 <= i < |s| && (s[i] in cs) != negated)
  {
    hide Found, Parse;
    var g := Listed(negated, Chars(cs), false);
    CharsText(cs);
    assert cs + [] == cs;
    assert SignWritten(g);
    SignFound(g, s);
    forall i | 0 <= i < |s|
      ensures Takes(g, s[i]) <==> (s[i] in cs) != negated
    {
      CharsHave(cs, s[i]);
    }
  }

  /** A range in brackets is found exactly in the strings with a character between its ends. */
  lemma RangeFound(lo: int, hi: int, s: seq<int>)
    requires 0 < lo <= hi && lo != '^' as int && hi != ']' as int && 0 !in s
    ensures var p := ['[' as int, lo, '-' as int, hi, ']' as int];
            && Pattern(p).outcome == Compiled
            && (Found(Pattern(p).items, s, false) <==> exists i :: 0 <= i < |s| && lo <= s[i] <= hi)
  {
    hide Found, Parse;
    var g := Listed(false, [From(lo, hi)], false);
    assert g.parts[1..] == [];
    assert PartsText(g.parts) == [lo, '-' as int, hi];
    assert SignText(g) == ['[' as int, lo, '-' as int, hi, ']' as int];
    SignFound(g, s);
    forall i | 0 <= i < |s|
      ensures Takes(g, s[i]) <==> lo <= s[i] <= hi
    {
      assert PartHas(g.parts[0], s[i]) <==> lo <= s[i] <= hi;
    }
  }

  // ----- brackets for a part of the pattern -----

  /** A mark that takes no character changes no match. */
  lemma {:induction false} MarkMatches(xs: seq<Item>, x: Item, ys: seq<Item>, s: seq<int>, i: int, j: int)
    requires x.Bra? || x.Ket?
    ensures Matches(xs + ([x] + ys), s, i, j) <==> Matches(xs + ys, s, i, j)
    decreases |xs|
  {
    if xs == [] {
      assert [] + ([x] + ys) == [x] + ys && [] + ys == ys && ([x] + ys)[1..] == ys;
    } else {
      var rest := xs[1..];
      assert (xs + ([x] + ys))[1..] == rest + ([x] + ys) && (xs + ys)[1..] == rest + ys;
      forall k
        ensures Matches(rest + ([x] + ys), s, k, j) <==> Matches(rest + ys, s, k, j)
      {
        MarkMatches(rest, x, ys, s, k, j);
      }
    }
  }

  const OPEN := ['\\' as int, '(' as int]
  const CLOSE := ['\\' as int, ')' as int]

  /** The text of three lists of units, the one in the middle in brackets. */
  function GroupText(us: seq<Unit>, vs: seq<Unit>, ws: seq<Unit>): (p: seq<int>)
    ensures p != []
  {
    Text(us) + (OPEN + (Text(vs) + (CLOSE + Text(ws))))
  }

  lemma TwoParts(a: seq<int>, b: seq<int>, p: seq<int>, at: nat)
    requires StandsAt(a + b, p, at)
    ensures StandsAt(a, p, at) && StandsAt(b, p, at + |a|)
  {
    hide StandsAt;
    StandsParts(a, b, p, at);
  }

  lemma GroupParts(us: seq<Unit>, vs: seq<Unit>, ws: seq<Unit>)
    ensures var p, a := GroupText(us, vs, ws), |Text(us)|;
            && StandsAt(Text(us), p, 0) && StandsAt(OPEN, p, a) && StandsAt(Text(vs), p, a + 2)
            && StandsAt(CLOSE, p, a + 2 + |Text(vs)|) && StandsAt(Text(ws), p, a + 2 + |Text(vs)| + 2)
            && |p| == a + 2 + |Text(vs)| + 2 + |Text(ws)|
  {
    hide StandsAt, Text;
    var p, a := GroupText(us, vs, ws), |Text(us)|;
    WholeStands(p);
    TwoParts(Text(us), OPEN + (Text(vs) + (CLOSE + Text(ws))), p, 0);
    TwoParts(OPEN, Text(vs) + (CLOSE + Text(ws)), p, a);
    TwoParts(Text(vs), CLOSE + Text(ws), p, a + 2);
    TwoParts(CLOSE, Text(ws), p, a + 2 + |Text(vs)|);
  }

  lemma WholeStands(p: seq<int>)
    ensures StandsAt(p, p, 0)
  {
  }

  lemma ReadOpen(p: seq<int>, at: nat, quoted: bool)
    requires StandsAt(OPEN, p, at)
    ensures Parse(p, at, quoted, 0, []) == Then(Bra(0), Parse(p, at + 2, true, 1, [0])) && !StarAt(p, at)
  {
    StandAt(OPEN, p, at, 0);
    StandAt(OPEN, p, at, 1);
    assert [] + [0] == [0];
  }

  lemma ReadClose(p: seq<int>, at: nat, quoted: bool)
    requires StandsAt(CLOSE, p, at)
    ensures Parse(p, at, quoted, 1, [0]) == Then(Ket(0), Parse(p, at + 2, true, 1, [])) && !StarAt(p, at)
  {
    StandAt(CLOSE, p, at, 0);
    StandAt(CLOSE, p, at, 1);
  }

  lemma ReadLast(p: seq<int>, at: nat, ws: seq<Unit>, n: nat)
    requires Written(ws) && StandsAt(Text(ws), p, at) && |p| == at + |Text(ws)|
    ensures Parse(p, at, true, n, []) == Parsed(Items(ws), [], Compiled)
  {
    assert Parse(p, |p|, ws == [], n, []) == Parsed([], [], Compiled);
    hide Parse, Written, Items, Text, StandsAt, StarAt;
    NoStarAtEnd(p);
    ReadUnits(p, at, true, n, [], ws);
    assert Items(ws) + [] == Items(ws);
  }

  lemma ReadInside(p: seq<int>, at: nat, vs: seq<Unit>, ws: seq<Unit>)
    requires Written(vs) && Written(ws) && StandsAt(Text(vs), p, at)
    requires var b := at + |Text(vs)|;
             StandsAt(CLOSE, p, b) && StandsAt(Text(ws), p, b + 2) && |p| == b + 2 + |Text(ws)|
    ensures Parse(p, at, true, 1, [0]) == Parsed(Items(vs) + ([Ket(0)] + Items(ws)), [], Compiled)
  {
    hide Parse, Written, Items, Text, StandsAt, StarAt;
    ReadLast(p, at + |Text(vs)| + 2, ws, 1);
    ReadClose(p, at + |Text(vs)|, vs == []);
    ReadUnits(p, at, true, 1, [0], vs);
  }

  lemma ReadGroup(us: seq<Unit>, vs: seq<Unit>, ws: seq<Unit>)
    requires Written(us) && Written(vs) && Written(ws)
    ensures Parse(GroupText(us, vs, ws), 0, true, 0, [])
         == Parsed(Items(us) + ([Bra(0)] + (Items(vs) + ([Ket(0)] + Items(ws)))), [], Compiled)
  {
    hide Parse, Written, Items, Text, StandsAt, GroupText, StarAt;
    var p, a := GroupText(us, vs, ws), |Text(us)|;
    GroupParts(us, vs, ws);
    ReadInside(p, a + 2, vs, ws);
    ReadOpen(p, a, us == []);
    ReadUnits(p, 0, true, 0, [], us);
  }

  lemma NoStarAtEnd(p: seq<int>)
    ensures !StarAt(p, |p|)
  {
  }

  /** Brackets around a part of a pattern do not change which strings it is found in. */
  lemma GroupFound(us: seq<Unit>, vs: seq<Unit>, ws: seq<Unit>, s: seq<int>)
    requires Written(us) && Written(vs) && Written(ws) && (us != [] ==> us[0].sign != Itself('^' as int))
    ensures var p := GroupText(us, vs, ws);
            && Pattern(p).outcome == Compiled
            && (Found(Pattern(p).items, s, false) <==> exists cut :: Cuts(us + (vs + ws), s, cut))
  {
    hide Parse, Items, Written, GroupText, Cuts;
    var p, all := GroupText(us, vs, ws), us + (vs + ws);
    GroupStart(us, vs, ws);
    ReadGroup(us, vs, ws);
    var its := Items(us) + ([Bra(0)] + (Items(vs) + ([Ket(0)] + Items(ws))));
    forall i, j
      ensures Matches(its, s, i, j) <==> Matches(Items(all), s, i, j)
    {
      GroupMatches(us, vs, ws, s, i, j);
    }
    if Found(its, s, false) {
      var i :| 0 <= i <= |s| && MatchesAt(its, s, i);
      var j :| Matches(its, s, i, j);
      UnitsOnly(all, s, i, j);
    }
    if cut :| Cuts(all, s, cut) {
      CutsAre(all, s, cut);
      CutBegins(all, s, cut);
      UnitsOnly(all, s, cut[0], cut[|all|]);
      assert MatchesAt(its, s, cut[0]);
    }
  }

  lemma CutBegins(us: seq<Unit>, s: seq<int>, cut: seq<int>)
    requires Cuts(us, s, cut)
    ensures 0 <= cut[0] <= |s|
  {
  }

  lemma GroupStart(us: seq<Unit>, vs: seq<Unit>, ws: seq<Unit>)
    requires Written(us) && (us != [] ==> us[0].sign != Itself('^' as int))
    ensures GroupText(us, vs, ws)[0] != '^' as int
  {
    hide Written;
    if us != [] {
      TextHead(us);
      assert GroupText(us, vs, ws)[0] == Text(us)[0];
    } else {
      NoText();
      assert GroupText(us, vs, ws)[0] == OPEN[0];
    }
  }

  lemma {:induction false} ItemsAppend(us: seq<Unit>, vs: seq<Unit>)
    ensures Items(us + vs) == Items(us) + Items(vs)
  {
    if us == [] {
      assert [] + vs == vs;
    } else {
      ItemsAppend(us[1..], vs);
      assert (us + vs)[1..] == us[1..] + vs;
    }
  }

  lemma GroupMatches(us: seq<Unit>, vs: seq<Unit>, ws: seq<Unit>, s: seq<int>, i: int, j: int)
    ensures Matches(Items(us) + ([Bra(0)] + (Items(vs) + ([Ket(0)] + Items(ws)))), s, i, j)
       <==> Matches(Items(us + (vs + ws)), s, i, j)
  {
    hide Matches, Items;
    var tail := [Ket(0)] + Items(ws);
    MarkMatches(Items(us), Bra(0), Items(vs) + tail, s, i, j);
    MarkMatches(Items(us) + Items(vs), Ket(0), Items(ws), s, i, j);
    assert Items(us) + (Items(vs) + tail) == Items(us) + Items(vs) + tail;
    ItemsAppend(vs, ws);
    ItemsAppend(us, vs + ws);
    assert Items(us) + (Items(vs) + Items(ws)) == Items(us) + Items(vs) + Items(ws);
  }

  lemma UnitsOnly(us: seq<Unit>, s: seq<int>, i: int, j: int)
    requires 0 <= i <= |s|
    ensures Matches(Items(us), s, i, j) <==> exists cut :: CutsFrom(us, s, cut, i, j)
  {
    hide Items, Cuts;
    assert Items(us) + [] == Items(us);
    UnitsMatch(us, [], s, i, j);
    assert forall k :: Matches([], s, k, j) <==> k == j;
  }
}

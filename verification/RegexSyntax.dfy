/**
 The patterns of bsdlibc/gen/regex.c: what a pattern string says, and which strings it matches.
 Characters are the values of a signed char; a string ends where a zero would be read.
 */
module RegexSyntax {
  const NBRA: int := 9

  datatype Element = Single(c: int) | Range(lo: int, hi: int)

  datatype Atom = Chr(c: int) | Dot | Class(negated: bool, els: seq<Element>)

  datatype Item = One(atom: Atom, star: bool) | Dollar | Bra(n: int) | Ket(n: int)

  /** The character at `i`, zero at the end. */
  function Get(s: seq<int>, i: nat): int {
    if i < |s| then s[i] else 0
  }

  // ----- which strings an item list matches -----

  /** A range takes in the characters between its ends, and the upper end even when it is the smaller. */
  predicate InElement(e: Element, x: int) {
    match e
    case Single(c) => x == c
    case Range(lo, hi) => lo < x <= hi || x == hi
  }

  predicate Accepts(a: Atom, x: int) {
    x != 0 && match a
    case Chr(c) => x == c
    case Dot => true
    case Class(negated, els) => (exists k :: 0 <= k < |els| && InElement(els[k], x)) != negated
  }

  /** The atom accepts every character of `s` from `i` up to `k`. */
  predicate Run(a: Atom, s: seq<int>, i: int, k: int) {
    0 <= i <= k <= |s| && forall t :: i <= t < k ==> Accepts(a, s[t])
  }

  /** The items match exactly the characters of `s` from `i` up to `j`. */
  ghost predicate Matches(items: seq<Item>, s: seq<int>, i: int, j: int)
    decreases |items|
  {
    if items == [] then i == j
    else if items[0].One? && items[0].star then
      exists k :: Run(items[0].atom, s, i, k) && Matches(items[1..], s, k, j)
    else if items[0].One? then
      0 <= i < |s| && Accepts(items[0].atom, s[i]) && Matches(items[1..], s, i + 1, j)
    else if items[0].Dollar? then i == |s| && Matches(items[1..], s, i, j)
    else Matches(items[1..], s, i, j)
  }

  /** The items match somewhere from `i` on. */
  ghost predicate MatchesAt(items: seq<Item>, s: seq<int>, i: int) {
    exists j :: Matches(items, s, i, j)
  }

  /** The words of the pattern's language, anchors and brackets aside. */
  ghost predicate InLanguage(items: seq<Item>, w: seq<int>)
    decreases |items|
  {
    if items == [] then w == []
    else if !items[0].One? then InLanguage(items[1..], w)
    else if items[0].star then
      exists k :: Run(items[0].atom, w, 0, k) && InLanguage(items[1..], w[k..])
    else w != [] && Accepts(items[0].atom, w[0]) && InLanguage(items[1..], w[1..])
  }

  /** The items match from some place on, the beginning of the string if anchored. */
  ghost predicate Found(items: seq<Item>, s: seq<int>, anchored: bool) {
    exists i :: 0 <= i <= |s| && (anchored ==> i == 0) && MatchesAt(items, s, i)
  }

  /** A dollar stands at the end, if anywhere. */
  predicate DollarLast(items: seq<Item>) {
    forall k :: 0 <= k < |items| - 1 ==> !items[k].Dollar?
  }

  predicate AtEnd(items: seq<Item>) {
    items != [] && items[|items| - 1].Dollar?
  }

  /** A match is a substring in the language, one that ends the string when a dollar is asked for. */
  lemma {:induction false} MatchesInLanguage(items: seq<Item>, s: seq<int>, i: int, j: int)
    requires DollarLast(items) && 0 <= i <= |s|
    ensures Matches(items, s, i, j) <==>
            i <= j <= |s| && InLanguage(items, s[i..j]) && (AtEnd(items) ==> j == |s|)
    decreases |items|
  {
    if items != [] {
      assert AtEnd(items) <==> if |items| == 1 then items[0].Dollar? else AtEnd(items[1..]);
      var rest := items[1..];
      if items[0].One? && items[0].star {
        var a := items[0].atom;
        forall k | Run(a, s, i, k)
          ensures i <= k <= j <= |s| ==> Run(a, s[i..j], 0, k - i) && s[i..j][k - i..] == s[k..j]
          ensures Matches(rest, s, k, j) <==>
                  k <= j <= |s| && InLanguage(rest, s[k..j]) && (AtEnd(rest) ==> j == |s|)
        {
          MatchesInLanguage(rest, s, k, j);
        }
        if i <= j <= |s| {
          forall k | Run(a, s[i..j], 0, k)
            ensures Run(a, s, i, i + k) && s[i..j][k..] == s[i + k..j]
          {
            RunWithin(a, s, i, j, k);
          }
        }
      } else if items[0].One? {
        if i < |s| {
          MatchesInLanguage(rest, s, i + 1, j);
          assert i < j <= |s| ==> s[i..j][0] == s[i] && s[i..j][1..] == s[i + 1..j];
        }
      } else {
        MatchesInLanguage(rest, s, i, j);
      }
    }
  }

  /**
   A string is found to match exactly when it has a substring in the pattern's language: a prefix if
   anchored, one that ends the string if a dollar is asked for.
   */
  lemma FoundInLanguage(items: seq<Item>, s: seq<int>, anchored: bool)
    requires DollarLast(items)
    ensures Found(items, s, anchored) <==>
            exists i, j :: 0 <= i <= j <= |s| && InLanguage(items, s[i..j]) &&
                           (anchored ==> i == 0) && (AtEnd(items) ==> j == |s|)
  {
    if Found(items, s, anchored) {
      var i :| 0 <= i <= |s| && (anchored ==> i == 0) && MatchesAt(items, s, i);
      var j :| Matches(items, s, i, j);
      MatchesInLanguage(items, s, i, j);
    }
    if i, j :| 0 <= i <= j <= |s| && InLanguage(items, s[i..j])
               && (anchored ==> i == 0) && (AtEnd(items) ==> j == |s|) {
      MatchesInLanguage(items, s, i, j);
      assert MatchesAt(items, s, i);
    }
  }

  lemma RunWithin(a: Atom, s: seq<int>, i: int, j: int, k: int)
    requires 0 <= i <= j <= |s| && Run(a, s[i..j], 0, k)
    ensures Run(a, s, i, i + k)
  {
    forall t | i <= t < i + k
      ensures Accepts(a, s[t])
    {
      assert s[i..j][t - i] == s[t];
    }
  }

  // ----- what a pattern string says -----

  datatype Status = Closed | Missing | Undefined

  datatype BracketBody = BracketBody(els: seq<Element>, next: nat, status: Status)

  /** One element of a bracket's text, where the text goes on, and whether the bracket closes there. */
  datatype Piece = Piece(e: Element, next: nat, last: int, closed: bool)

  /** A dash after a character and before one other than the closing bracket makes a range. */
  predicate Dash(p: seq<int>, at: nat, prev: int) {
    Get(p, at) == '-' as int && prev != 0
  }

  /** The element at `at`, after the character `prev` or zero at the beginning of the text. */
  function FirstPiece(p: seq<int>, at: nat, prev: int): (x: Piece)
    requires at < |p| && (Dash(p, at, prev) ==> at + 1 < |p|)
    ensures at < x.next <= |p|
  {
    if Dash(p, at, prev) && p[at + 1] == ']' as int then Piece(Single(p[at]), at + 2, p[at], true)
    else if Dash(p, at, prev) then PieceUpTo(p, at + 2, Range(prev, p[at + 1]), p[at + 1])
    else PieceUpTo(p, at + 1, Single(p[at]), p[at])
  }

  function PieceUpTo(p: seq<int>, at: nat, e: Element, last: int): Piece {
    if Get(p, at) == ']' as int then Piece(e, at + 1, last, true) else Piece(e, at, last, false)
  }

  /** The elements from index `at` to the closing bracket.  A pattern that ends in a dash is not defined. */
  function Bracket(p: seq<int>, at: nat, prev: int): (b: BracketBody)
    requires at <= |p|
    ensures b.status == Closed ==> at < b.next <= |p|
    decreases |p| - at
  {
    if at == |p| then BracketBody([], at, Missing)
    else if Dash(p, at, prev) && at + 1 == |p| then BracketBody([], at, Undefined)
    else
      var x := FirstPiece(p, at, prev);
      if x.closed then BracketBody([x.e], x.next, Closed)
      else var rest := Bracket(p, x.next, x.last); rest.(els := [x.e] + rest.els)
  }

  datatype Outcome =
    Compiled | NoPrevious | UnmatchedBra | UnmatchedKet | TooManyPairs | MissingBracket | Outside

  /** The items of a pattern up to its end or first error, and the elements of a class cut short. */
  datatype Parsed = Parsed(items: seq<Item>, cut: seq<Element>, outcome: Outcome)

  predicate StarAt(p: seq<int>, at: nat) {
    Get(p, at) == '*' as int
  }

  function Then(x: Item, r: Parsed): Parsed {
    r.(items := [x] + r.items)
  }

  /**
   The pattern from index `at` on.  `quoted`: a star here stands for itself, as there is nothing to
   repeat.  `n` brackets were opened before, those in `open` are still open.
   */
  function Parse(p: seq<int>, at: nat, quoted: bool, n: nat, open: seq<int>): Parsed
    requires at <= |p|
    decreases |p| - at
  {
    if at == |p| then Parsed([], [], if open == [] then Compiled else UnmatchedBra)
    else if p[at] == '.' as int then
      Then(One(Dot, StarAt(p, at + 1)), Parse(p, at + 1, false, n, open))
    else if p[at] == '*' as int then
      if quoted then Then(One(Chr(p[at]), false), Parse(p, at + 1, true, n, open))
      else Parse(p, at + 1, false, n, open)
    else if p[at] == '$' as int && at + 1 == |p| then
      Then(Dollar, Parse(p, at + 1, true, n, open))
    else if p[at] == '[' as int then
      var negated := Get(p, at + 1) == '^' as int;
      var b := Bracket(p, if negated then at + 2 else at + 1, 0);
      if b.status == Missing then Parsed([], b.els, MissingBracket)
      else if b.status == Undefined then Parsed([], [], Outside)
      else Then(One(Class(negated, b.els), StarAt(p, b.next)), Parse(p, b.next, false, n, open))
    else if p[at] == '\\' as int then
      Escape(p, at + 1, n, open)
    else
      Then(One(Chr(p[at]), StarAt(p, at + 1)), Parse(p, at + 1, false, n, open))
  }

  function Escape(p: seq<int>, at: nat, n: nat, open: seq<int>): Parsed
    requires at <= |p|
    decreases |p| - at, 1
  {
    if at == |p| then Parsed([], [], Outside)
    else if p[at] == '(' as int then
      if n >= NBRA then Parsed([], [], TooManyPairs)
      else Then(Bra(n), Parse(p, at + 1, true, n + 1, open + [n]))
    else if p[at] == ')' as int then
      if open == [] then Parsed([], [], UnmatchedKet)
      else Then(Ket(open[|open| - 1]), Parse(p, at + 1, true, n, open[..|open| - 1]))
    else if '1' as int <= p[at] < '1' as int + NBRA then Parsed([], [], Outside)
    else Then(One(Chr(p[at]), StarAt(p, at + 1)), Parse(p, at + 1, false, n, open))
  }

  /** What a nonempty pattern says, past a circumflex. */
  function Pattern(p: seq<int>): Parsed
    requires p != []
  {
    Parse(p, if p[0] == '^' as int then 1 else 0, true, 0, [])
  }

  /** Compiled patterns have a dollar at the end only. */
  lemma {:induction false} ParseDollarLast(p: seq<int>, at: nat, quoted: bool, n: nat, open: seq<int>)
    requires at <= |p|
    ensures DollarLast(Parse(p, at, quoted, n, open).items)
    ensures at == |p| ==> Parse(p, at, quoted, n, open).items == []
    decreases |p| - at
  {
    if at == |p| {
    } else if p[at] == '[' as int {
      var b := Bracket(p, if Get(p, at + 1) == '^' as int then at + 2 else at + 1, 0);
      if b.status == Closed {
        ParseDollarLast(p, b.next, false, n, open);
      }
    } else if p[at] == '\\' as int {
      if at + 1 < |p| {
        ParseDollarLast(p, at + 2, true, n + 1, open + [n]);
        ParseDollarLast(p, at + 2, false, n, open);
        if open != [] {
          ParseDollarLast(p, at + 2, true, n, open[..|open| - 1]);
        }
      }
    } else {
      ParseDollarLast(p, at + 1, true, n, open);
      ParseDollarLast(p, at + 1, false, n, open);
    }
  }
}

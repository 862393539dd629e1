/** The text that dn_comp takes, without escapes. */
module DnsText {
  import opened DnsName

  function Get(t: seq<int>, i: nat): int {
    if i < |t| then t[i] else 0
  }

  predicate PlainText(t: seq<int>) {
    forall k :: 0 <= k < |t| ==> 0 < t[k] < 256 && t[k] != BACKSLASH
  }

  /** The first dot at or behind `i`, or the end. */
  function LabelEnd(t: seq<int>, i: nat): (e: nat)
    requires i <= |t|
    ensures i <= e <= |t| && DOT !in t[i..e] && (e < |t| ==> t[e] == DOT)
    decreases |t| - i
  {
    if i == |t| || t[i] == DOT then i
    else var e := LabelEnd(t, i + 1); assert t[i..e] == [t[i]] + t[i + 1..e]; e
  }

  function NextLabel(t: seq<int>, i: nat): (n: nat)
    requires i <= |t|
    ensures i <= n <= |t| && (i < |t| ==> i < n)
  {
    var e := LabelEnd(t, i);
    if e < |t| then e + 1 else e
  }

  /** The labels of the text from `i` on: None for an empty label, one at the very end aside, or a long one. */
  function Split(t: seq<int>, i: nat): Option<seq<Label>>
    requires i <= |t|
    decreases |t| - i
  {
    if i == |t| then Some([])
    else
      var e, next := LabelEnd(t, i), NextLabel(t, i);
      if e == i then (if next == |t| then Some([]) else None)
      else if e - i > MAXLABEL then None
      else Prepend([t[i..e]], Split(t, next))
  }

  /** The text from `i` on spells these labels, with or without a dot at the end. */
  predicate Spells(t: seq<int>, i: nat, ls: seq<Label>)
    decreases |ls|
  {
    && i <= |t|
    && if ls == [] then i == |t|
       else
         var e := i + |ls[0]|;
         e <= |t| && t[i..e] == ls[0] && if e == |t| then |ls| == 1 else t[e] == DOT && Spells(t, e + 1, ls[1..])
  }

  lemma LabelEndIs(t: seq<int>, i: nat, e: nat)
    requires i <= e <= |t| && DOT !in t[i..e] && (e < |t| ==> t[e] == DOT)
    ensures LabelEnd(t, i) == e
  {
    var f := LabelEnd(t, i);
    forall k | i <= k < e
      ensures t[k] != DOT
    {
      assert t[i..e][k - i] == t[k];
    }
    forall k | i <= k < f
      ensures t[k] != DOT
    {
      assert t[i..f][k - i] == t[k];
    }
  }

  /** Text that spells good labels is split into them. */
  lemma {:induction false} SpellsSplit(t: seq<int>, i: nat, ls: seq<Label>)
    requires Spells(t, i, ls) && PlainName(ls)
    ensures Split(t, i) == Some(ls)
    decreases |ls|
  {
    if ls != [] {
      var e := i + |ls[0]|;
      LabelEndIs(t, i, e);
      if e < |t| {
        SpellsSplit(t, e + 1, ls[1..]);
      }
      assert [ls[0]] + ls[1..] == ls;
    }
  }

  /** What a text is split into is good labels. */
  lemma {:induction false} SplitPlain(t: seq<int>, i: nat)
    requires PlainText(t) && i <= |t| && Split(t, i).Some?
    ensures PlainName(Split(t, i).value)
    decreases |t| - i
  {
    if i < |t| && LabelEnd(t, i) != i {
      SplitPlain(t, NextLabel(t, i));
    }
  }

  /** Labels with dots between them. */
  function Join(ls: seq<Label>): seq<int> {
    if ls == [] then [] else if |ls| == 1 then ls[0] else ls[0] + [DOT] + Join(ls[1..])
  }

  lemma {:induction false} JoinAppend(ls: seq<Label>, l: Label)
    requires ls != []
    ensures Join(ls + [l]) == Join(ls) + [DOT] + l
  {
    assert (ls + [l])[1..] == ls[1..] + [l];
    if |ls| > 1 {
      JoinAppend(ls[1..], l);
    }
  }

  /** The text that dn_expand puts out for good labels has no escapes. */
  lemma {:induction false} TextIsJoin(ls: seq<Label>)
    requires PlainName(ls)
    ensures Text(ls) == Join(ls)
  {
    if ls != [] {
      var front, l := ls[..|ls| - 1], ls[|ls| - 1];
      EscapedPlain(l);
      assert front + [l] == ls;
      if |ls| > 1 {
        TextIsJoin(front);
        JoinAppend(front, l);
      }
    }
  }

  /** Text spells labels exactly when it is the labels with dots between them, and maybe one more dot. */
  lemma {:induction false} SpellsJoin(t: seq<int>, i: nat, ls: seq<Label>)
    requires i <= |t| && ls != []
    ensures Spells(t, i, ls) <==> t[i..] == Join(ls) || t[i..] == Join(ls) + [DOT]
    decreases |ls|
  {
    hide Join;
    var n := |ls[0]|;
    if i + n > |t| || (i + n == |t| && |ls| > 1) {
      JoinLonger(ls);
    } else if |ls| == 1 {
      SpellsLast(t, i, ls);
    } else {
      SpellsJoin(t, i + n + 1, ls[1..]);
      SpellsMore(t, i, ls);
      SpellsStep(t, i, ls);
    }
  }

  lemma JoinLonger(ls: seq<Label>)
    requires ls != []
    ensures |Join(ls)| >= |ls[0]| && (|ls| > 1 ==> |Join(ls)| > |ls[0]|)
  {
  }

  lemma SpellsStep(t: seq<int>, i: nat, ls: seq<Label>)
    requires |ls| > 1 && i + |ls[0]| < |t|
    ensures var e := i + |ls[0]|;
            Spells(t, i, ls) <==> t[i..e] == ls[0] && t[e] == DOT && Spells(t, e + 1, ls[1..])
  {
  }

  lemma SpellsLast(t: seq<int>, i: nat, ls: seq<Label>)
    requires |ls| == 1 && i + |ls[0]| <= |t|
    ensures Join(ls) == ls[0]
    ensures Spells(t, i, ls) <==> t[i..] == ls[0] || t[i..] == ls[0] + [DOT]
  {
    var e := i + |ls[0]|;
    assert t[i..] == t[i..e] + t[e..];
    if e < |t| {
      assert t[e..] == [t[e]] + t[e + 1..];
    }
  }

  lemma SpellsMore(t: seq<int>, i: nat, ls: seq<Label>)
    requires |ls| > 1 && i + |ls[0]| < |t|
    ensures var e, rest := i + |ls[0]|, Join(ls[1..]);
            && (t[i..] == Join(ls) <==> t[i..e] == ls[0] && t[e] == DOT && t[e + 1..] == rest)
            && (t[i..] == Join(ls) + [DOT] <==> t[i..e] == ls[0] && t[e] == DOT && t[e + 1..] == rest + [DOT])
  {
    var e, rest := i + |ls[0]|, Join(ls[1..]);
    assert t[i..] == t[i..e] + [t[e]] + t[e + 1..];
    assert Join(ls) + [DOT] == ls[0] + [DOT] + (rest + [DOT]);
    ThreeParts(t[i..e], t[e], t[e + 1..], ls[0], DOT, rest);
    ThreeParts(t[i..e], t[e], t[e + 1..], ls[0], DOT, rest + [DOT]);
  }

  lemma ThreeParts(a: seq<int>, x: int, c: seq<int>, a': seq<int>, x': int, c': seq<int>)
    requires |a| == |a'|
    ensures a + [x] + c == a' + [x'] + c' <==> a == a' && x == x' && c == c'
  {
    var s, s', n := a + [x] + c, a' + [x'] + c', |a|;
    assert s[..n] == a && s[n] == x && s[n + 1..] == c;
    assert s'[..n] == a' && s'[n] == x' && s'[n + 1..] == c';
  }

  function Dots(d: nat): (s: seq<int>)
    ensures |s| == d
  {
    seq(d, _ => DOT)
  }

  /** What a text is split into, it has with dots between, and up to two dots behind. */
  lemma {:induction false} SplitJoin(t: seq<int>, i: nat) returns (d: nat)
    requires i <= |t| && Split(t, i).Some?
    ensures d <= 2 && (Split(t, i).value == [] ==> d <= 1)
    ensures t[i..] == Join(Split(t, i).value) + Dots(d)
    decreases |t| - i
  {
    var e, next := LabelEnd(t, i), NextLabel(t, i);
    if i == |t| {
      d := 0;
    } else if e == i {
      d := 1;
      assert t[i..] == [DOT];
    } else {
      var k := SplitJoin(t, next);
      var rest := Split(t, next).value;
      assert Split(t, i).value == [t[i..e]] + rest;
      if e == |t| {
        d := 0;
      } else {
        assert t[i..] == t[i..e] + [DOT] + t[next..];
        d := if rest == [] then k + 1 else k;
        JoinDots(t[i..e], rest, k);
      }
    }
  }

  lemma JoinDots(l: Label, rest: seq<Label>, k: nat)
    ensures l + [DOT] + (Join(rest) + Dots(k)) == Join([l] + rest) + Dots(if rest == [] then k + 1 else k)
  {
    assert ([l] + rest)[1..] == rest;
  }

  lemma Cut(t: seq<int>, i: nat, l: seq<int>, x: seq<int>)
    requires i <= |t| && t[i..] == l + x
    ensures i + |l| <= |t| && t[i..i + |l|] == l && t[i + |l|..] == x
  {
    assert t[i..][..|l|] == l && t[i..][|l|..] == x;
    assert t[i..i + |l|] == t[i..][..|l|] && t[i + |l|..] == t[i..][|l|..];
  }

  lemma CutDot(t: seq<int>, i: nat, l: seq<int>, x: seq<int>)
    requires i <= |t| && t[i..] == l + [DOT] + x
    ensures var e := i + |l|; e < |t| && t[i..e] == l && t[e] == DOT && t[e + 1..] == x
  {
    var e := i + |l|;
    assert l + [DOT] + x == l + ([DOT] + x);
    Cut(t, i, l, [DOT] + x);
    Cut(t, e, [DOT], x);
    assert t[e] == t[e..e + 1][0];
  }

  /** Labels with dots between them, and up to two dots behind, are split into those labels. */
  lemma {:induction false} JoinSplit(t: seq<int>, i: nat, ls: seq<Label>, d: nat)
    requires i <= |t| && PlainName(ls) && d <= 2 && (ls == [] ==> d <= 1) && t[i..] == Join(ls) + Dots(d)
    ensures Split(t, i) == Some(ls)
    decreases |ls|
  {
    hide Join, Split, PlainLabel, Dots;
    if ls == [] {
      JoinNone();
      assert t[i..] == Dots(d);
      SplitTail(t, i, d);
    } else {
      var l, rest, e := ls[0], ls[1..], i + |ls[0]|;
      assert [l] + rest == ls && PlainLabel(l);
      if rest == [] && d == 0 {
        JoinOne(ls);
        assert Join(ls) + Dots(d) == l + [];
        Cut(t, i, l, []);
        SplitTail(t, e, 0);
        SplitFirst(t, i, e, l);
      } else {
        var k := if rest == [] then d - 1 else d;
        JoinDots(l, rest, k);
        CutDot(t, i, l, Join(rest) + Dots(k));
        JoinSplit(t, e + 1, rest, k);
        SplitFirst(t, i, e, l);
      }
    }
  }

  lemma SplitTail(t: seq<int>, i: nat, d: nat)
    requires i <= |t| && d <= 1 && t[i..] == Dots(d)
    ensures Split(t, i) == Some([])
  {
    if d == 1 {
      assert t[i] == t[i..][0];
      LabelEndIs(t, i, i);
    }
  }

  lemma SplitFirst(t: seq<int>, i: nat, e: nat, l: Label)
    requires i <= e <= |t| && t[i..e] == l && PlainLabel(l) && (e < |t| ==> t[e] == DOT)
    ensures Split(t, i) == Prepend([l], Split(t, if e < |t| then e + 1 else e))
  {
    LabelEndIs(t, i, e);
  }

  lemma JoinNone()
    ensures Join([]) == []
  {
  }

  lemma JoinOne(ls: seq<Label>)
    requires ls != [] && ls[1..] == []
    ensures Join(ls) == ls[0]
  {
  }

  /**
   The texts that dn_comp takes: labels with dots between them, bare or with one dot behind, and also
   with two dots behind, which the comment in dn_comp means to exclude.
   */
  lemma SplitExact(t: seq<int>, ls: seq<Label>)
    requires PlainText(t)
    ensures Split(t, 0) == Some(ls) <==>
            PlainName(ls) && exists d :: 0 <= d <= (if ls == [] then 1 else 2) && t == Join(ls) + Dots(d)
  {
    assert t[0..] == t;
    if Split(t, 0) == Some(ls) {
      SplitPlain(t, 0);
      var d := SplitJoin(t, 0);
    }
    if PlainName(ls) && exists d :: 0 <= d <= (if ls == [] then 1 else 2) && t == Join(ls) + Dots(d) {
      var d :| 0 <= d <= (if ls == [] then 1 else 2) && t == Join(ls) + Dots(d);
      JoinSplit(t, 0, ls, d);
    }
  }

  /** A label and two dots is taken for that label alone. */
  lemma TwoDots()
    ensures Split(['a' as int, DOT, DOT], 0) == Some([['a' as int]])
  {
    var t, ls := ['a' as int, DOT, DOT], [['a' as int]];
    assert PlainName(ls) && t == Join(ls) + Dots(2);
    SplitExact(t, ls);
  }

  /** A text without the dots at its end. */
  function Undotted(t: seq<int>): seq<int> {
    if t != [] && t[|t| - 1] == DOT then Undotted(t[..|t| - 1]) else t
  }

  lemma {:induction false} UndottedDots(t: seq<int>, d: nat)
    requires t == [] || t[|t| - 1] != DOT
    ensures Undotted(t + Dots(d)) == t
  {
    if d == 0 {
      assert t + Dots(d) == t;
    } else {
      UndottedDots(t, d - 1);
      assert (t + Dots(d))[..|t| + d - 1] == t + Dots(d - 1);
    }
  }

  lemma {:induction false} JoinEnd(ls: seq<Label>)
    requires PlainName(ls) && ls != []
    ensures Join(ls) != [] && Join(ls)[|Join(ls)| - 1] != DOT
  {
    assert PlainLabel(ls[0]);
    if |ls| > 1 {
      JoinEnd(ls[1..]);
    } else {
      assert ls[0][|ls[0]| - 1] in ls[0];
    }
  }

  /** The labels of a text, joined with dots, are the text without the dots at its end. */
  lemma SplitUndotted(t: seq<int>, ls: seq<Label>)
    requires PlainText(t) && Split(t, 0) == Some(ls)
    ensures Join(ls) == Undotted(t)
  {
    SplitExact(t, ls);
    var d :| 0 <= d <= (if ls == [] then 1 else 2) && t == Join(ls) + Dots(d);
    if ls != [] {
      JoinEnd(ls);
    }
    UndottedDots(Join(ls), d);
  }

  // ----- the labels of a text -----

  /** The last label goes on with `c`. */
  function Extend(ls: seq<Label>, c: int): (r: seq<Label>)
    requires ls != []
    ensures |r| == |ls|
  {
    ls[..|ls| - 1] + [ls[|ls| - 1] + [c]]
  }

  /** The labels of a text in which a backslash takes its meaning from a dot behind it. */
  function Labels(t: seq<int>): (ls: seq<Label>)
    ensures ls != []
  {
    if t == [] then [[]]
    else
      var n := |t| - 1;
      if t[n] != DOT then Extend(Labels(t[..n]), t[n])
      else if n > 0 && t[n - 1] == BACKSLASH then Extend(Labels(t[..n - 1]), DOT)
      else Labels(t[..n]) + [[]]
  }

  predicate EndsIn(l: seq<int>, c: int) {
    l != [] && l[|l| - 1] == c
  }

  lemma LabelsChar(t: seq<int>, c: int)
    requires c != DOT
    ensures Labels(t + [c]) == Extend(Labels(t), c)
  {
    assert (t + [c])[..|t|] == t;
  }

  lemma LabelsEscapedDot(t: seq<int>)
    ensures Labels(t + [BACKSLASH, DOT]) == Extend(Labels(t), DOT)
  {
    assert (t + [BACKSLASH, DOT])[..|t|] == t;
  }

  lemma LabelsDot(t: seq<int>)
    ensures !EndsIn(t, BACKSLASH) ==> Labels(t + [DOT]) == Labels(t) + [[]]
    ensures EndsIn(t, BACKSLASH) ==> |Labels(t + [DOT])| == |Labels(t)|
  {
    var u := t + [DOT];
    assert u[..|t|] == t;
    if EndsIn(t, BACKSLASH) {
      assert u[..|t| - 1] == t[..|t| - 1];
    }
  }

  function Joins(ls: seq<Label>, l: Label): (r: seq<Label>)
    requires ls != []
    ensures |r| == |ls|
  {
    ls[..|ls| - 1] + [ls[|ls| - 1] + l]
  }

  /** An escaped label goes on with the last label. */
  lemma {:induction false} LabelsEscaped(t: seq<int>, l: Label)
    ensures Labels(t + Escaped(l)) == Joins(Labels(t), l)
  {
    hide Labels;
    if l == [] {
      assert t + [] == t;
      assert Labels(t)[|Labels(t)| - 1] + [] == Labels(t)[|Labels(t)| - 1];
    } else {
      var n := |l| - 1;
      var front, c := Escaped(l[..n]), l[n];
      LabelsEscaped(t, l[..n]);
      assert l == l[..n] + [c];
      if c == DOT {
        assert t + (front + [BACKSLASH, DOT]) == t + front + [BACKSLASH, DOT];
        LabelsEscapedDot(t + front);
      } else {
        assert t + (front + [c]) == t + front + [c];
        LabelsChar(t + front, c);
      }
      var last := Labels(t)[|Labels(t)| - 1];
      assert last + l[..n] + [c] == last + l;
    }
  }

  lemma {:induction false} EscapedEnd(l: Label)
    ensures EndsIn(Escaped(l), BACKSLASH) <==> EndsIn(l, BACKSLASH)
    ensures Escaped(l) == [] <==> l == []
  {
  }

  lemma TextEnd(ls: seq<Label>)
    requires ls != []
    ensures EndsIn(Text(ls), BACKSLASH) <==> EndsIn(ls[|ls| - 1], BACKSLASH)
  {
    EscapedEnd(ls[|ls| - 1]);
  }

  /** A label other than the last one ends in a backslash. */
  predicate Misleads(ls: seq<Label>) {
    exists k :: 0 <= k < |ls| - 1 && EndsIn(ls[k], BACKSLASH)
  }

  lemma MisleadsStep(ls: seq<Label>)
    requires |ls| > 1
    ensures var n := |ls| - 1; Misleads(ls) <==> Misleads(ls[..n]) || EndsIn(ls[n - 1], BACKSLASH)
  {
    var n := |ls| - 1;
    if Misleads(ls[..n]) {
      var k :| 0 <= k < n - 1 && EndsIn(ls[..n][k], BACKSLASH);
      assert EndsIn(ls[k], BACKSLASH);
    }
    if Misleads(ls) {
      var k :| 0 <= k < n && EndsIn(ls[k], BACKSLASH);
      assert k < n - 1 ==> EndsIn(ls[..n][k], BACKSLASH);
    }
  }

  /** One more label in the text. */
  lemma LabelsMore(ls: seq<Label>)
    requires |ls| > 1
    ensures var n := |ls| - 1;
            var front := Labels(Text(ls[..n]));
            && (!EndsIn(ls[n - 1], BACKSLASH) ==> Labels(Text(ls)) == front + [ls[n]])
            && (EndsIn(ls[n - 1], BACKSLASH) ==> |Labels(Text(ls))| == |front|)
  {
    hide Labels, Escaped;
    var n := |ls| - 1;
    TextEnd(ls[..n]);
    LabelsDot(Text(ls[..n]));
    LabelsEscaped(Text(ls[..n]) + [DOT], ls[n]);
    assert [] + ls[n] == ls[n];
  }

  lemma {:induction false} LabelsOf(ls: seq<Label>)
    requires ls != []
    ensures |Labels(Text(ls))| <= |ls|
    ensures Misleads(ls) ==> |Labels(Text(ls))| < |ls|
    ensures !Misleads(ls) ==> Labels(Text(ls)) == ls
  {
    hide Labels, Escaped, Misleads;
    var n := |ls| - 1;
    if n == 0 {
      NoneMislead(ls);
      LabelsEscaped([], ls[0]);
      EmptyLabels();
      assert [] + Escaped(ls[0]) == Text(ls) && [] + ls[0] == ls[0] && [[]][..0] + [ls[0]] == ls;
    } else {
      LabelsOf(ls[..n]);
      LabelsMore(ls);
      MisleadsStep(ls);
      assert ls[..n] + [ls[n]] == ls;
    }
  }

  lemma NoneMislead(ls: seq<Label>)
    requires |ls| == 1
    ensures !Misleads(ls)
  {
  }

  lemma EmptyLabels()
    ensures Labels([]) == [[]]
  {
  }

  /** The labels come back from their text exactly if none of them but the last ends in a backslash. */
  lemma LabelsBack(ls: seq<Label>)
    requires ls != []
    ensures Labels(Text(ls)) == ls <==> !Misleads(ls)
  {
    LabelsOf(ls);
  }

  /** The names "\\", "a" and ".a" have the same text. */
  lemma SameText()
    ensures Text([[BACKSLASH], ['a' as int]]) == Text([[DOT, 'a' as int]]) == [BACKSLASH, DOT, 'a' as int]
    ensures Misleads([[BACKSLASH], ['a' as int]])
  {
    var ls: seq<Label> := [[BACKSLASH], ['a' as int]];
    var a := ['a' as int];
    assert EndsIn(ls[0], BACKSLASH);
    assert a[..0] == [] && Escaped(a) == a;
    assert [BACKSLASH][..0] == [] && Escaped([BACKSLASH]) == [BACKSLASH];
    assert [DOT][..0] == [] && Escaped([DOT]) == [BACKSLASH, DOT];
    assert [DOT, 'a' as int][..1] == [DOT];
    assert ls[..1] == [[BACKSLASH]];
  }
}

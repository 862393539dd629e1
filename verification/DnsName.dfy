/** Domain names as label lists, as dotted text, and as they are read from a message. */
module DnsName {
  datatype Option<T> = None | Some(value: T)

  type Label = seq<int>

  const DOT: int := '.' as int
  const BACKSLASH: int := '\\' as int
  const MAXLABEL: int := 63

  // ----- dotted text -----

  /** A label's text: every dot in it is escaped. */
  function Escaped(l: Label): seq<int> {
    if l == [] then []
    else Escaped(l[..|l| - 1]) + if l[|l| - 1] == DOT then [BACKSLASH, DOT] else [l[|l| - 1]]
  }

  function Text(ls: seq<Label>): seq<int> {
    if ls == [] then []
    else if |ls| == 1 then Escaped(ls[0])
    else Text(ls[..|ls| - 1]) + [DOT] + Escaped(ls[|ls| - 1])
  }

  /** Labels that dn_comp accepts from text without escapes. */
  predicate PlainLabel(l: Label) {
    1 <= |l| <= MAXLABEL && DOT !in l && BACKSLASH !in l && 0 !in l
  }

  predicate PlainName(ls: seq<Label>) {
    forall k :: 0 <= k < |ls| ==> PlainLabel(ls[k])
  }

  lemma {:induction false} EscapedPlain(l: Label)
    requires DOT !in l
    ensures Escaped(l) == l
  {
    if l != [] {
      EscapedPlain(l[..|l| - 1]);
    }
  }

  lemma {:induction false} EscapedLength(l: Label, k: nat)
    requires k <= |l|
    ensures |Escaped(l[..k])| + |l| - k <= |Escaped(l)|
    decreases |l|
  {
    if k == |l| {
      assert l[..k] == l;
    } else {
      EscapedLength(l[..|l| - 1], k);
      assert l[..|l| - 1][..k] == l[..k];
    }
  }

  // ----- reading a name from a message -----

  /** The byte at `i`, the one behind the message included. */
  function Byte(m: seq<int>, past: int, i: nat): int
    requires i <= |m|
  {
    if i < |m| then m[i] else past
  }

  predicate Bytes(m: seq<int>) {
    forall k :: 0 <= k < |m| ==> 0 <= m[k] < 256
  }

  /** The offset that a pointer's two bytes give. */
  function Target(hi: int, lo: int): int {
    hi % 64 * 256 + lo
  }

  function Prepend(done: seq<Label>, r: Option<seq<Label>>): Option<seq<Label>> {
    if r.None? then None else Some(done + r.value)
  }

  /** The labels of the name at `at`, when `checked` bytes of the message have been looked at before. */
  function ReadName(m: seq<int>, past: int, at: int, checked: nat): Option<seq<Label>>
    requires Bytes(m) && 0 <= past < 256
    decreases if checked < |m| then |m| - checked else 0, |m| - at
  {
    if !(0 <= at < |m|) then None
    else
      var n := m[at];
      if n == 0 then Some([])
      else if n < 64 then
        if at + 1 + n >= |m| then None
        else Prepend([m[at + 1..at + 1 + n]], ReadName(m, past, at + 1 + n, checked + n + 1))
      else if n >= 192 then
        if checked + 2 >= |m| then None
        else ReadName(m, past, Target(n, Byte(m, past, at + 1)), checked + 2)
      else None
  }

  /** The labels that following `steps` labels and pointers from `at` on leads through, to the root. */
  predicate Follows(m: seq<int>, past: int, at: int, ls: seq<Label>, steps: nat)
    requires Bytes(m)
    decreases steps
  {
    && 0 <= at < |m|
    && var n := m[at];
       if n == 0 then ls == []
       else if n < 64 then
         && steps > 0 && at + 1 + n < |m| && ls != [] && ls[0] == m[at + 1..at + 1 + n]
         && Follows(m, past, at + 1 + n, ls[1..], steps - 1)
       else
         n >= 192 && steps > 0 && Follows(m, past, Target(n, Byte(m, past, at + 1)), ls, steps - 1)
  }

  /** What is read is what following the pointers gives. */
  lemma {:induction false} ReadFollows(m: seq<int>, past: int, at: int, checked: nat) returns (steps: nat)
    requires Bytes(m) && 0 <= past < 256 && ReadName(m, past, at, checked).Some?
    ensures Follows(m, past, at, ReadName(m, past, at, checked).value, steps)
    decreases if checked < |m| then |m| - checked else 0, |m| - at
  {
    var n := m[at];
    if n == 0 {
      steps := 0;
    } else if n < 64 {
      var k := ReadFollows(m, past, at + 1 + n, checked + n + 1);
      steps := k + 1;
    } else {
      var k := ReadFollows(m, past, Target(n, Byte(m, past, at + 1)), checked + 2);
      steps := k + 1;
    }
  }

  /** What the counter gains on the way to the last pointer of a name: its label bytes, and two for each pointer. */
  function Cost(m: seq<int>, past: int, at: int, steps: nat): nat
    requires Bytes(m)
    decreases steps
  {
    if steps == 0 || !(0 <= at < |m|) || m[at] == 0 then 0
    else if m[at] < 64 then
      var c := Cost(m, past, at + 1 + m[at], steps - 1);
      if c == 0 then 0 else m[at] + 1 + c
    else
      2 + Cost(m, past, Target(m[at], Byte(m, past, at + 1)), steps - 1)
  }

  /** A name that leads to the root is read, unless the counter reaches the message's size by its last pointer. */
  lemma {:induction false} CounterDecides(m: seq<int>, past: int, at: int, ls: seq<Label>, steps: nat, checked: nat)
    requires Bytes(m) && 0 <= past < 256 && Follows(m, past, at, ls, steps)
    ensures var c := Cost(m, past, at, steps);
            ReadName(m, past, at, checked) == if c == 0 || checked + c < |m| then Some(ls) else None
    decreases steps
  {
    var n := m[at];
    if 0 < n < 64 {
      CounterDecides(m, past, at + 1 + n, ls[1..], steps - 1, checked + n + 1);
      assert ls == [ls[0]] + ls[1..];
    } else if n >= 192 {
      CounterDecides(m, past, Target(n, Byte(m, past, at + 1)), ls, steps - 1, checked + 2);
    }
  }

  predicate Affordable(m: seq<int>, past: int, at: int, ls: seq<Label>, steps: nat)
    requires Bytes(m)
  {
    Follows(m, past, at, ls, steps) && (Cost(m, past, at, steps) == 0 || Cost(m, past, at, steps) < |m|)
  }

  /** The names that the counter admits, exactly: those that lead to the root at less cost than the message's size. */
  lemma ReadExactly(m: seq<int>, past: int, at: int, ls: seq<Label>)
    requires Bytes(m) && 0 <= past < 256
    ensures ReadName(m, past, at, 0) == Some(ls) <==> exists steps :: Affordable(m, past, at, ls, steps)
  {
    if ReadName(m, past, at, 0) == Some(ls) {
      var steps := ReadFollows(m, past, at, 0);
      CounterDecides(m, past, at, ls, steps, 0);
      assert Affordable(m, past, at, ls, steps);
    }
    if steps :| Affordable(m, past, at, ls, steps) {
      CounterDecides(m, past, at, ls, steps, 0);
    }
  }

  /**
   The counter is not exact: here the bytes of a label are read again as a label's length and a
   pointer, no place is visited twice, and still the name is refused.
   */
  lemma CounterRefusesWithoutLoop()
    ensures var m := [1, 1, 192, 1, 5, 192, 7, 0];
            Bytes(m) && ReadName(m, 0, 0, 0).None? && Follows(m, 0, 0, [[1], [192], [5]], 5)
  {
    RefusedAt([1, 1, 192, 1, 5, 192, 7, 0]);
    assert [[1]] + ([[192]] + ([[5]] + [])) == [[1], [192], [5]];
  }

  lemma RefusedAt(m: seq<int>)
    requires |m| == 8 && m[0] == 1 && m[1] == 1 && m[2] == 192 && m[3] == 1
    requires m[4] == 5 && m[5] == 192 && m[6] == 7 && m[7] == 0
    ensures Bytes(m) && ReadName(m, 0, 0, 0).None?
    ensures Follows(m, 0, 0, [[m[1]]] + ([[m[2]]] + ([[m[4]]] + [])), 5)
  {
    var ls: seq<Label> := [];
    assert Follows(m, 0, 7, ls, 0) && Cost(m, 0, 7, 0) == 0;
    hide Follows, Cost, ReadName;
    ShortPointer(m, 5, ls, 0);
    ShortLabel(m, 3, ls, 1);
    var ls' := [[m[4]]] + ls;
    ShortLabel(m, 1, ls', 2);
    var ls'' := [[m[2]]] + ls';
    ShortPointer(m, 2, ls'', 3);
    ShortLabel(m, 0, ls'', 4);
    CounterDecides(m, 0, 0, [[m[1]]] + ls'', 5, 0);
  }

  /** One step over a label of one byte. */
  lemma ShortLabel(m: seq<int>, at: nat, ls: seq<Label>, steps: nat)
    requires Bytes(m) && at + 2 < |m| && m[at] == 1 && Follows(m, 0, at + 2, ls, steps)
    ensures Follows(m, 0, at, [[m[at + 1]]] + ls, steps + 1)
    ensures Cost(m, 0, at, steps + 1) == if Cost(m, 0, at + 2, steps) == 0 then 0 else 2 + Cost(m, 0, at + 2, steps)
  {
    assert m[at + 1..at + 2] == [m[at + 1]];
  }

  /** One step over a pointer to the first 256 bytes. */
  lemma ShortPointer(m: seq<int>, at: nat, ls: seq<Label>, steps: nat)
    requires Bytes(m) && at + 1 < |m| && m[at] == 192 && Follows(m, 0, m[at + 1], ls, steps)
    ensures Follows(m, 0, at, ls, steps + 1) && Cost(m, 0, at, steps + 1) == 2 + Cost(m, 0, m[at + 1], steps)
  {
  }

  /** Labels read from a message are not empty. */
  lemma {:induction false} ReadNonempty(m: seq<int>, past: int, at: int, checked: nat, k: nat)
    requires Bytes(m) && 0 <= past < 256 && ReadName(m, past, at, checked).Some?
    requires k < |ReadName(m, past, at, checked).value|
    ensures ReadName(m, past, at, checked).value[k] != []
    decreases if checked < |m| then |m| - checked else 0, |m| - at
  {
    var n := m[at];
    if 0 < n < 64 {
      if k > 0 {
        ReadNonempty(m, past, at + 1 + n, checked + n + 1, k - 1);
      }
    } else {
      ReadNonempty(m, past, Target(n, Byte(m, past, at + 1)), checked + 2, k);
    }
  }

  // ----- skipping a name -----

  /** Where a name's own bytes end: behind its first pointer or its root; -1 at a byte that is neither. */
  function SkipEnd(m: seq<int>, at: nat): int
    requires Bytes(m)
    decreases |m| - at
  {
    if at >= |m| then at
    else if m[at] == 0 then at + 1
    else if m[at] < 64 then SkipEnd(m, at + 1 + m[at])
    else if m[at] >= 192 then at + 2
    else -1
  }
}

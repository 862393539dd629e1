/** Names as dn_comp writes them: labels, then a root or a pointer to the start of an earlier name or label. */
module DnsWire {
  import opened DnsName

  /**
   The name `ls` stands at `at` within the first `hi` bytes, as part of a run of labels that begins at
   `start`; a pointer leads to bytes before `start` only, where a name that is not the root stands.
   */
  predicate Encoded(m: seq<int>, at: nat, start: nat, hi: nat, ls: seq<Label>)
    requires start <= at
    decreases hi, hi - at
  {
    && at < hi <= |m| && 0 <= m[at] < 256
    && if m[at] == 0 then ls == []
       else if m[at] < 64 then
         && at + 1 + m[at] < hi && ls != [] && ls[0] == m[at + 1..at + 1 + m[at]]
         && Encoded(m, at + 1 + m[at], start, hi, ls[1..])
       else
         && m[at] >= 192 && at + 1 < hi && ls != [] && 0 <= Target(m[at], m[at + 1]) < start
         && Encoded(m, Target(m[at], m[at + 1]), Target(m[at], m[at + 1]), start, ls)
  }

  /** What the byte at the name's place tells. */
  lemma EncodedIs(m: seq<int>, at: nat, start: nat, hi: nat, ls: seq<Label>)
    requires start <= at && Encoded(m, at, start, hi, ls)
    ensures at < hi <= |m| && 0 <= m[at] < 256 && (m[at] == 0 <==> ls == [])
    ensures 0 < m[at] < 64 ==> at + 1 + m[at] < hi && ls[0] == m[at + 1..at + 1 + m[at]]
    ensures 0 < m[at] < 64 ==> Encoded(m, at + 1 + m[at], start, hi, ls[1..])
    ensures m[at] >= 64 ==> m[at] >= 192 && at + 1 < hi && 0 <= Target(m[at], m[at + 1]) < start
    ensures m[at] >= 64 ==> Encoded(m, Target(m[at], m[at + 1]), Target(m[at], m[at + 1]), start, ls)
  {
  }

  /** Only the first `hi` bytes matter. */
  lemma {:induction false} EncodedFrame(m: seq<int>, m': seq<int>, at: nat, start: nat, hi: nat, ls: seq<Label>)
    requires start <= at && Encoded(m, at, start, hi, ls)
    requires hi <= |m'| && forall k :: 0 <= k < hi ==> m'[k] == m[k]
    ensures Encoded(m', at, start, hi, ls)
    decreases hi, hi - at
  {
    if m[at] == 0 {
    } else if m[at] < 64 {
      assert m'[at + 1..at + 1 + m[at]] == m[at + 1..at + 1 + m[at]];
      EncodedFrame(m, m', at + 1 + m[at], start, hi, ls[1..]);
    } else {
      var t := Target(m[at], m[at + 1]);
      EncodedFrame(m, m', t, t, start, ls);
    }
  }

  /** A run may be taken to begin later and to end later. */
  lemma {:induction false} EncodedWider(m: seq<int>, at: nat, start: nat, hi: nat, start': nat, hi': nat,
                                        ls: seq<Label>)
    requires start <= start' <= at && hi <= hi' <= |m| && Encoded(m, at, start, hi, ls)
    ensures Encoded(m, at, start', hi', ls)
    decreases hi, hi - at
  {
    if m[at] == 0 {
    } else if m[at] < 64 {
      EncodedWider(m, at + 1 + m[at], start, hi, start', hi', ls[1..]);
    } else {
      var t := Target(m[at], m[at + 1]);
      EncodedWider(m, t, t, start, t, start', ls);
    }
  }

  /** The loop counter of dn_expand never refuses such a name: every run it reads lies below the last one. */
  lemma {:induction false} EncodedReads(m: seq<int>, past: int, at: nat, start: nat, hi: nat, ls: seq<Label>,
                                        checked: nat)
    requires Bytes(m) && 0 <= past < 256 && start <= at && Encoded(m, at, start, hi, ls)
    requires checked <= |m| - hi + at - start
    ensures ReadName(m, past, at, checked) == Some(ls)
    decreases hi, hi - at
  {
    if m[at] == 0 {
    } else if m[at] < 64 {
      EncodedReads(m, past, at + 1 + m[at], start, hi, ls[1..], checked + m[at] + 1);
      assert [ls[0]] + ls[1..] == ls;
    } else {
      var t := Target(m[at], m[at + 1]);
      EncodedReads(m, past, t, t, start, ls, checked + 2);
    }
  }

  // ----- a run of labels without its end -----

  predicate LabelAt(m: seq<int>, at: nat, l: Label) {
    1 <= |l| <= MAXLABEL && at + 1 + |l| <= |m| && m[at] == |l| && m[at + 1..at + 1 + |l|] == l
  }

  function Offset(at: nat, ls: seq<Label>, k: nat): nat
    requires k <= |ls|
  {
    if k == 0 then at else Offset(at, ls, k - 1) + 1 + |ls[k - 1]|
  }

  /** The labels `ls` stand one behind the other from `at` on. */
  ghost predicate Run(m: seq<int>, at: nat, ls: seq<Label>) {
    forall k {:trigger Offset(at, ls, k)} :: 0 <= k < |ls| ==> LabelAt(m, Offset(at, ls, k), ls[k])
  }

  lemma {:induction false} OffsetPrefix(at: nat, ls: seq<Label>, more: seq<Label>, k: nat)
    requires k <= |ls|
    ensures Offset(at, ls + more, k) == Offset(at, ls, k)
  {
    if k > 0 {
      OffsetPrefix(at, ls, more, k - 1);
    }
  }

  lemma {:induction false} OffsetMonotone(at: nat, ls: seq<Label>, i: nat, k: nat)
    requires i <= k <= |ls|
    ensures Offset(at, ls, i) + k - i <= Offset(at, ls, k)
  {
    if i < k {
      OffsetMonotone(at, ls, i, k - 1);
    }
  }

  lemma RunAppend(m: seq<int>, at: nat, ls: seq<Label>, l: Label)
    requires Run(m, at, ls) && LabelAt(m, Offset(at, ls, |ls|), l)
    ensures Run(m, at, ls + [l]) && Offset(at, ls + [l], |ls| + 1) == Offset(at, ls, |ls|) + 1 + |l|
  {
    OffsetPrefix(at, ls, [l], |ls|);
    forall k | 0 <= k < |ls| + 1
      ensures LabelAt(m, Offset(at, ls + [l], k), (ls + [l])[k])
    {
      OffsetPrefix(at, ls, [l], if k < |ls| then k else 0);
    }
  }

  lemma RunFrame(m: seq<int>, m': seq<int>, at: nat, ls: seq<Label>)
    requires Run(m, at, ls) && Offset(at, ls, |ls|) <= |m'|
    requires forall k :: 0 <= k < Offset(at, ls, |ls|) && k < |m| ==> m'[k] == m[k]
    ensures Run(m', at, ls)
  {
    forall k | 0 <= k < |ls|
      ensures LabelAt(m', Offset(at, ls, k), ls[k])
    {
      hide LabelAt;
      OffsetMonotone(at, ls, k + 1, |ls|);
      var o := Offset(at, ls, k);
      assert LabelAt(m, o, ls[k]) && Offset(at, ls, k + 1) == o + 1 + |ls[k]|;
      LabelFrame(m, m', o, ls[k]);
    }
  }

  lemma LabelFrame(m: seq<int>, m': seq<int>, o: nat, l: Label)
    requires LabelAt(m, o, l) && o + 1 + |l| <= |m'|
    requires forall k :: 0 <= k < o + 1 + |l| && k < |m| ==> m'[k] == m[k]
    ensures LabelAt(m', o, l)
  {
    assert m'[o + 1..o + 1 + |l|] == m[o + 1..o + 1 + |l|];
  }

  /** Labels followed by an encoded name make an encoded name, from every one of the labels on. */
  lemma {:induction false} RunEncoded(m: seq<int>, at: nat, ls: seq<Label>, hi: nat, tail: seq<Label>, k: nat)
    requires Run(m, at, ls) && k <= |ls| && at <= Offset(at, ls, |ls|)
    requires Encoded(m, Offset(at, ls, |ls|), at, hi, tail)
    ensures at <= Offset(at, ls, k) && Encoded(m, Offset(at, ls, k), at, hi, ls[k..] + tail)
    decreases |ls| - k
  {
    hide Encoded;
    OffsetMonotone(at, ls, 0, k);
    if k == |ls| {
      assert ls[k..] + tail == tail;
    } else {
      RunEncoded(m, at, ls, hi, tail, k + 1);
      assert ls[k..] + tail == [ls[k]] + (ls[k + 1..] + tail);
      LabelEncoded(m, Offset(at, ls, k), at, hi, ls[k], ls[k + 1..] + tail);
    }
  }

  lemma LabelEncoded(m: seq<int>, o: nat, start: nat, hi: nat, l: Label, ls: seq<Label>)
    requires start <= o && LabelAt(m, o, l) && Encoded(m, o + 1 + |l|, start, hi, ls)
    ensures Encoded(m, o, start, hi, [l] + ls)
  {
    assert ([l] + ls)[1..] == ls;
  }

  // ----- the bytes that a name takes -----

  lemma {:induction false} SkipLabels(m: seq<int>, at: nat, ls: seq<Label>, k: nat)
    requires Bytes(m) && Run(m, at, ls) && k <= |ls|
    ensures SkipEnd(m, at) == SkipEnd(m, Offset(at, ls, k)) && Offset(at, ls, k) <= if k == 0 then at else |m|
  {
    if k > 0 {
      SkipLabels(m, at, ls, k - 1);
      assert LabelAt(m, Offset(at, ls, k - 1), ls[k - 1]);
    }
  }

  /**
   The size of a name: the bytes of the labels in front, and one for the root or two for the first pointer.  A byte
   that is neither a size nor a pointer is an error; a name cut off by the end of the message ends where its last
   label would.
   */
  lemma SkipSize(m: seq<int>, at: nat, ls: seq<Label>)
    requires Bytes(m) && Run(m, at, ls)
    ensures var o, end := Offset(at, ls, |ls|), SkipEnd(m, at);
            && (o >= |m| ==> end == o)
            && (o < |m| && m[o] == 0 ==> end == o + 1)
            && (o < |m| && 0 < m[o] < 64 && o + 1 + m[o] >= |m| ==> end == o + 1 + m[o])
            && (o < |m| && 64 <= m[o] < 192 ==> end == -1)
            && (o < |m| && m[o] >= 192 ==> end == o + 2)
  {
    SkipLabels(m, at, ls, |ls|);
  }

  /** The labels `ls` and the root or pointer behind them are all the bytes from `at` up to `end`. */
  ghost predicate OwnLabels(m: seq<int>, at: nat, ls: seq<Label>, end: nat) {
    && Run(m, at, ls) && end <= |m|
    && var o := Offset(at, ls, |ls|);
       o < end && ((m[o] == 0 && end == o + 1) || (m[o] >= 192 && end == o + 2))
  }

  ghost predicate OwnBytes(m: seq<int>, at: nat, end: nat) {
    exists ls :: OwnLabels(m, at, ls, end)
  }

  lemma OwnSize(m: seq<int>, at: nat, end: nat)
    requires Bytes(m) && OwnBytes(m, at, end)
    ensures SkipEnd(m, at) == end
  {
    var ls :| OwnLabels(m, at, ls, end);
    SkipSize(m, at, ls);
  }

  lemma OwnFrame(m: seq<int>, m': seq<int>, at: nat, end: nat)
    requires OwnBytes(m, at, end) && end <= |m'| && forall k :: 0 <= k < end ==> m'[k] == m[k]
    ensures OwnBytes(m', at, end)
  {
    var ls :| OwnLabels(m, at, ls, end);
    RunFrame(m, m', at, ls);
    assert OwnLabels(m', at, ls, end);
  }

  /** In the message "\001a\000" with a pointer to its beginning, the pointer is a name of two bytes and reads "a". */
  lemma PointerName(m: seq<int>, past: int)
    requires m == [1, 97, 0, 192, 0] && 0 <= past < 256
    ensures SkipEnd(m, 0) == 3 && SkipEnd(m, 3) == 5 && ReadName(m, past, 3, 0) == Some([[97]])
  {
    assert m[1..2] == [97] && [[97]][1..] == [];
    assert Encoded(m, 2, 0, 3, []);
    assert Encoded(m, 0, 0, 3, [[97]]);
    assert Encoded(m, 3, 3, 5, [[97]]);
    EncodedReads(m, past, 3, 3, 5, [[97]], 0);
    assert SkipEnd(m, 2) == 3;
  }
}

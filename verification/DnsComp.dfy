/** dn_comp and dn_find of bsdlibc/net/res_comp.c, on one message and its list of compressed names. */
module DnsComp {
  import opened DnsName
  import opened DnsWire
  import opened DnsText
  import opened DnsExpand

  /** A pointer to a name that stands, whole, before `used`. */
  predicate Known(m: seq<int>, p: nat, used: nat, ls: seq<Label>) {
    p < used && Encoded(m, p, p, used, ls) && PlainName(ls)
  }

  ghost predicate AllKnown(m: seq<int>, ptrs: seq<nat>, used: nat, named: seq<seq<Label>>) {
    |named| == |ptrs| && forall k {:trigger Known(m, ptrs[k], used, named[k])} :: 0 <= k < |ptrs| ==>
      Known(m, ptrs[k], used, named[k])
  }

  lemma KnownFrame(m: seq<int>, m': seq<int>, ptrs: seq<nat>, used: nat, used': nat, named: seq<seq<Label>>)
    requires AllKnown(m, ptrs, used, named) && used <= used' <= |m'|
    requires forall k :: 0 <= k < used && k < |m| ==> m'[k] == m[k]
    ensures AllKnown(m', ptrs, used', named)
  {
    forall k | 0 <= k < |ptrs|
      ensures Known(m', ptrs[k], used', named[k])
    {
      assert Known(m, ptrs[k], used, named[k]);
      EncodedFrame(m, m', ptrs[k], ptrs[k], used, named[k]);
      EncodedWider(m', ptrs[k], ptrs[k], used, ptrs[k], used', named[k]);
    }
  }

  /** Is some name of the list the one that the text from `i` on spells? */
  ghost predicate Listed(t: seq<int>, i: nat, named: seq<seq<Label>>) {
    exists k :: 0 <= k < |named| && Spells(t, i, named[k])
  }

  /** The bytes that the text from `i` on takes when the names of the list may be pointed to. */
  ghost function Needed(t: seq<int>, i: nat, named: seq<seq<Label>>): (n: nat)
    requires i <= |t|
    ensures n >= 1
    decreases |t| - i
  {
    if i == |t| then 1
    else if Listed(t, i, named) then 2
    else if LabelEnd(t, i) == i then 1
    else 1 + LabelEnd(t, i) - i + Needed(t, NextLabel(t, i), named)
  }

  /** A stored label and a label of the text, byte by byte. */
  lemma StepSpells(t: seq<int>, i: nat, ls: seq<Label>)
    requires i <= |t| && ls != []
    ensures Spells(t, i, ls) ==> i + |ls[0]| <= |t| && t[i..i + |ls[0]|] == ls[0]
    ensures i + |ls[0]| <= |t| && t[i..i + |ls[0]|] == ls[0] ==>
              var e := i + |ls[0]|;
              (Spells(t, i, ls) <==> if e == |t| then |ls| == 1 else t[e] == DOT && Spells(t, e + 1, ls[1..]))
  {
  }

  /** The labels `done` stand from `at` up to `cp`; the text from `i` on is still to be written. */
  ghost predicate Written(m: seq<int>, t: seq<int>, i: nat, at: nat, cp: nat, done: seq<Label>,
                          named: seq<seq<Label>>) {
    && i <= |t| && Run(m, at, done) && at <= cp == Offset(at, done, |done|) && PlainName(done)
    && Split(t, 0) == Prepend(done, Split(t, i))
    && Needed(t, 0, named) == cp - at + Needed(t, i, named)
  }

  lemma WrittenStart(m: seq<int>, t: seq<int>, at: nat, named: seq<seq<Label>>)
    ensures Written(m, t, 0, at, at, [], named)
  {
    var r := Split(t, 0);
    assert r.Some? ==> [] + r.value == r.value;
  }

  /** One more label has been written. */
  lemma WrittenLabel(m: seq<int>, m': seq<int>, t: seq<int>, i: nat, at: nat, cp: nat, done: seq<Label>,
                     named: seq<seq<Label>>)
    requires Written(m, t, i, at, cp, done, named) && PlainText(t) && i < |t| && !Listed(t, i, named) && |m'| == |m|
    requires forall k :: 0 <= k < cp && k < |m| ==> m'[k] == m[k]
    requires var n := LabelEnd(t, i) - i; cp + 1 + n <= |m| && LabelAt(m', cp, t[i..i + n])
    ensures var e := LabelEnd(t, i);
            Written(m', t, NextLabel(t, i), at, cp + 1 + e - i, done + [t[i..e]], named)
  {
    hide Split, Needed, Run, Listed, LabelAt, Offset, LabelEnd, NextLabel;
    var e := LabelEnd(t, i);
    var l, rest := t[i..e], Split(t, NextLabel(t, i));
    LabelSize(m', cp, l);
    SplitLabel(t, i, named);
    RunFrame(m, m', at, done);
    RunAppend(m', at, done, l);
    assert rest.Some? ==> done + ([l] + rest.value) == done + [l] + rest.value;
  }

  lemma LabelSize(m: seq<int>, at: nat, l: Label)
    requires LabelAt(m, at, l)
    ensures 1 <= |l| <= MAXLABEL
  {
  }

  /** A label of the text that is written out. */
  lemma SplitLabel(t: seq<int>, i: nat, named: seq<seq<Label>>)
    requires PlainText(t) && i < |t| && 1 <= LabelEnd(t, i) - i <= MAXLABEL && !Listed(t, i, named)
    ensures var l := t[i..LabelEnd(t, i)];
            && PlainLabel(l) && Split(t, i) == Prepend([l], Split(t, NextLabel(t, i)))
            && Needed(t, i, named) == 1 + |l| + Needed(t, NextLabel(t, i), named)
  {
    var l := t[i..LabelEnd(t, i)];
    assert forall k :: 0 <= k < |l| ==> l[k] == t[i + k];
  }

  /** The code that ends the name has been written: the whole name stands, and all its own beginnings. */
  lemma WrittenWhole(m: seq<int>, t: seq<int>, i: nat, at: nat, cp: nat, done: seq<Label>, named: seq<seq<Label>>,
                     hi: nat, tail: seq<Label>, news: seq<nat>)
    requires Written(m, t, i, at, cp, done, named) && Encoded(m, cp, at, hi, tail)
    requires Split(t, i) == Some(tail) && PlainName(tail)
    requires |news| <= |done| + 1 && forall k :: 0 <= k < |news| ==> news[k] == Offset(at, done, k)
    ensures Split(t, 0) == Some(done + tail) && Encoded(m, at, at, hi, done + tail) && PlainName(done + tail)
    ensures AllKnown(m, news, hi, Suffixes(done + tail, |news|))
  {
    hide Run, Encoded, Split, Needed, PlainLabel, Known;
    var ls := done + tail;
    RunEncoded(m, at, done, hi, tail, 0);
    assert done[0..] + tail == ls;
    forall k | 0 <= k < |news|
      ensures Known(m, news[k], hi, Suffixes(ls, |news|)[k])
    {
      SuffixKnown(m, at, done, hi, tail, k);
    }
  }

  lemma SuffixKnown(m: seq<int>, at: nat, done: seq<Label>, hi: nat, tail: seq<Label>, k: nat)
    requires Run(m, at, done) && k <= |done| && at <= Offset(at, done, |done|) && PlainName(done + tail)
    requires Encoded(m, Offset(at, done, |done|), at, hi, tail)
    ensures Known(m, Offset(at, done, k), hi, (done + tail)[k..])
  {
    hide Run, Encoded, Offset, PlainLabel;
    RunEncoded(m, at, done, hi, tail, k);
    var o, ls := Offset(at, done, k), (done + tail)[k..];
    assert done[k..] + tail == ls;
    EncodedIs(m, o, at, hi, ls);
    EncodedWider(m, o, at, hi, o, hi, ls);
  }

  /** The names that the first `n` labels of a name begin. */
  function Suffixes(ls: seq<Label>, n: nat): (r: seq<seq<Label>>)
    ensures |r| == n && forall k :: 0 <= k < n ==> r[k] == if k <= |ls| then ls[k..] else []
  {
    seq(n, k requires 0 <= k => if k <= |ls| then ls[k..] else [])
  }

  lemma KnownAppend(m: seq<int>, ptrs: seq<nat>, news: seq<nat>, used: nat, named: seq<seq<Label>>,
                    more: seq<seq<Label>>)
    requires AllKnown(m, ptrs, used, named) && AllKnown(m, news, used, more)
    ensures AllKnown(m, ptrs + news, used, named + more)
  {
    forall k | 0 <= k < |ptrs + news|
      ensures Known(m, (ptrs + news)[k], used, (named + more)[k])
    {
      if k < |ptrs| {
        assert Known(m, ptrs[k], used, named[k]);
      } else {
        assert Known(m, news[k - |ptrs|], used, more[k - |ptrs|]);
      }
    }
  }

  /** Each name takes the bytes from its beginning up to its end. */
  ghost predicate AllSized(m: seq<int>, starts: seq<nat>, ends: seq<nat>, used: nat) {
    |ends| == |starts| && forall k {:trigger ends[k]} :: 0 <= k < |ends| ==>
      starts[k] <= ends[k] <= used && OwnBytes(m, starts[k], ends[k])
  }

  lemma SizedFrame(m: seq<int>, m': seq<int>, starts: seq<nat>, ends: seq<nat>, used: nat, used': nat)
    requires AllSized(m, starts, ends, used) && used <= used' <= |m'|
    requires forall k :: 0 <= k < used && k < |m| ==> m'[k] == m[k]
    ensures AllSized(m', starts, ends, used')
  {
    hide OwnBytes;
    forall k | 0 <= k < |ends|
      ensures starts[k] <= ends[k] <= used' && OwnBytes(m', starts[k], ends[k])
    {
      OwnInside(m, starts[k], ends[k]);
      OwnFrame(m, m', starts[k], ends[k]);
    }
  }

  lemma OwnInside(m: seq<int>, at: nat, end: nat)
    requires OwnBytes(m, at, end)
    ensures end <= |m|
  {
  }

  lemma SizedAppend(m: seq<int>, starts: seq<nat>, ends: seq<nat>, used: nat, at: nat, end: nat)
    requires AllSized(m, starts, ends, used) && at <= end <= used && OwnBytes(m, at, end)
    ensures AllSized(m, starts + [at], ends + [end], used)
  {
    hide OwnBytes;
    forall k | 0 <= k < |ends + [end]|
      ensures (starts + [at])[k] <= (ends + [end])[k] <= used
      ensures OwnBytes(m, (starts + [at])[k], (ends + [end])[k])
    {
      assert k < |ends| ==> starts[k] <= ends[k];
    }
  }

  ghost predicate AllSpelled(texts: seq<seq<int>>, spelled: seq<seq<Label>>) {
    && |texts| == |spelled|
    && forall k :: 0 <= k < |texts| ==> PlainText(texts[k]) && Split(texts[k], 0) == Some(spelled[k])
  }

  /** How far the comparison of a name with the text has come. */
  datatype Verdict = Same | Different | Open

  /** What became of a label. */
  datatype Step = Fail | End | Go

  /** Which labels are taken, how far that goes on, and which bytes may change. */
  predicate LabelEffect(m0: seq<int>, m: seq<int>, t: seq<int>, i: nat, cp: nat, eob: nat, v: Step, i': nat, cp': nat) {
    && i <= |t| && |m| == |m0|
    && var n := LabelEnd(t, i) - i;
       && (v == Go <==> 1 <= n <= MAXLABEL && cp + 1 + n <= eob)
       && (v == Go ==> i' == NextLabel(t, i) && cp' == cp + 1 + n)
       && (v == End ==> n == 0 && NextLabel(t, i) == |t|)
       && forall k :: 0 <= k < |m| && !(v != End && n > 0 && cp <= k < cp + 1 + n) ==> m[k] == m0[k]
  }

  class Message {
    const buf: array<int>
    var ptrs: seq<nat>                  // dnptrs, without the message's own beginning
    ghost var named: seq<seq<Label>>    // the names they point to
    ghost var used: nat                 // where the last name ends
    ghost var starts: seq<nat>          // where the names written so far begin
    ghost var spelled: seq<seq<Label>>  // and what they are

    ghost var texts: seq<seq<int>>      // and the texts that they were given as
    ghost var ends: seq<nat>            // and where their own bytes end

    ghost predicate Sound()
      reads this, buf
    {
      && Bytes(buf[..]) && used <= buf.Length <= 16384
      && AllKnown(buf[..], ptrs, used, named) && AllKnown(buf[..], starts, used, spelled)
    }

    ghost predicate Valid()
      reads this, buf
    {
      Sound() && AllSpelled(texts, spelled) && AllSized(buf[..], starts, ends, used)
    }

    constructor (size: nat)
      requires size <= 16384
      ensures Valid() && fresh(buf) && buf.Length == size && ptrs == [] && named == [] && used == 0 && starts == []
      ensures forall k :: 0 <= k < size ==> buf[k] == 0
    {
      buf := new int[size](_ => 0);
      ptrs, named, used, starts, spelled, texts, ends := [], [], 0, [], [], [], [];
    }

    /** Do the `n` bytes at `cp` stand in the text at `i`? */
    method SameLabel(t: seq<int>, i: nat, cp: nat, n: nat) returns (same: bool)
      requires i <= |t| && cp + n <= buf.Length && 0 !in buf[cp..cp + n]
      ensures same <==> i + n <= |t| && t[i..i + n] == buf[cp..cp + n]
    {
      var k := 0;
      while k < n
        invariant 0 <= k <= n && i + k <= |t| && t[i..i + k] == buf[cp..cp + k]
      {
        assert buf[cp + k] == buf[cp..cp + n][k];
        if Get(t, i + k) != buf[cp + k] {
          assert i + n <= |t| ==> t[i..i + n][k] == t[i + k];
          return false;
        }
        assert t[i..i + k + 1] == t[i..i + k] + [t[i + k]];
        assert buf[cp..cp + k + 1] == buf[cp..cp + k] + [buf[cp + k]];
        k := k + 1;
      }
      same := true;
    }

    /** A label in the inner loop of dn_find: the answer is known, or the search goes on behind a dot. */
    method LabelStep(t: seq<int>, dn: nat, cp: nat, ghost start: nat, ghost hi: nat, ghost rest: seq<Label>)
      returns (v: Verdict, dn': nat, cp': nat)
      requires PlainText(t) && dn <= |t| && start <= cp < buf.Length && 0 < buf[cp] < 64
      requires Encoded(buf[..], cp, start, hi, rest) && PlainName(rest) && rest != []
      ensures v == Same ==> Spells(t, dn, rest)
      ensures v == Different ==> !Spells(t, dn, rest)
      ensures v == Open ==> dn' <= |t| && (Spells(t, dn, rest) <==> Spells(t, dn', rest[1..]))
      ensures v == Open ==> cp < cp' < buf.Length && Encoded(buf[..], cp', start, hi, rest[1..])
    {
      hide Spells, Encoded, PlainName;
      var n := buf[cp];
      EncodedIs(buf[..], cp, start, hi, rest);
      assert rest[0] == buf[cp + 1..cp + 1 + n];
      PlainFirst(rest);
      StepSpells(t, dn, rest);
      var ok := SameLabel(t, dn, cp + 1, n);
      if !ok {
        return Different, dn, cp;
      }
      dn', cp' := dn + n, cp + 1 + n;
      EncodedIs(buf[..], cp', start, hi, rest[1..]);
      if Get(t, dn') == 0 {
        return if buf[cp'] == 0 then Same else Different, dn', cp';
      }
      v := if t[dn'] == DOT then Open else Different;
      dn' := dn' + 1;
    }

    /** The inner loop of dn_find: does the name at `p` spell the text from `i` on? */
    method SameName(t: seq<int>, i: nat, p: nat, ghost end: nat, ghost ls: seq<Label>) returns (same: bool)
      requires PlainText(t) && i < |t| && p < buf.Length && Known(buf[..], p, end, ls)
      ensures same <==> Spells(t, i, ls)
    {
      hide Spells, Known, Encoded, PlainName;
      ghost var m, rest, start: nat, hi: nat := buf[..], ls, p, end;
      KnownIs(m, p, end, ls);
      var cp: nat, dn: nat := p, i;
      EncodedIs(m, p, p, end, ls);
      while buf[cp] != 0
        invariant cp < buf.Length && dn <= |t| && start <= cp && Encoded(m, cp, start, hi, rest) && PlainName(rest)
        invariant Spells(t, i, ls) <==> Spells(t, dn, rest)
        decreases hi, hi - cp
      {
        EncodedIs(m, cp, start, hi, rest);
        if buf[cp] < 64 {
          var v;
          v, dn, cp := LabelStep(t, dn, cp, start, hi, rest);
          if v != Open {
            return v == Same;
          }
          PlainFirst(rest);
          rest := rest[1..];
        } else {
          cp := Target(buf[cp], buf[cp + 1]);
          start, hi := cp, start;
          EncodedIs(m, cp, start, hi, rest);
        }
      }
      EncodedIs(m, cp, start, hi, rest);
      SpellsRoot(t, dn);
      same := dn == |t|;
    }

    lemma PlainFirst(ls: seq<Label>)
      requires ls != [] && PlainName(ls)
      ensures PlainLabel(ls[0]) && PlainName(ls[1..])
    {
    }

    lemma KnownIs(m: seq<int>, p: nat, end: nat, ls: seq<Label>)
      requires Known(m, p, end, ls)
      ensures p < end && Encoded(m, p, p, end, ls) && PlainName(ls)
    {
    }

    lemma SpellsRoot(t: seq<int>, i: nat)
      ensures Spells(t, i, []) <==> i == |t|
    {
    }

    /** dn_find: the first name of the list that spells the text from `i` on, or -1. */
    method Find(t: seq<int>, i: nat, lpp: nat, ghost end: nat, ghost names: seq<seq<Label>>) returns (l: int)
      requires PlainText(t) && i < |t| && Bytes(buf[..]) && lpp <= |ptrs| && AllKnown(buf[..], ptrs[..lpp], end, names)
      ensures l < 0 <==> !Listed(t, i, names)
      ensures l >= 0 ==>
        exists k :: 0 <= k < lpp && ptrs[k] == l && Known(buf[..], l, end, names[k]) && Spells(t, i, names[k])
    {
      hide Spells, Known;
      var cpp := 0;
      while cpp < lpp
        invariant 0 <= cpp <= lpp && forall k :: 0 <= k < cpp ==> !Spells(t, i, names[k])
      {
        assert ptrs[..lpp][cpp] == ptrs[cpp];
        assert Known(buf[..], ptrs[..lpp][cpp], end, names[cpp]);
        KnownInside(buf[..], ptrs[cpp], end, names[cpp]);
        var same := SameName(t, i, ptrs[cpp], end, names[cpp]);
        if same {
          return ptrs[cpp];
        }
        cpp := cpp + 1;
      }
      l := -1;
    }

    lemma KnownInside(m: seq<int>, p: nat, end: nat, ls: seq<Label>)
      requires Known(m, p, end, ls)
      ensures p < |m|
    {
    }

    /** The loop that copies a label's bytes to `cp`. */
    method CopyLabel(t: seq<int>, i: nat, cp: nat, eob: nat) returns (ok: bool, i': nat, cp': nat)
      requires PlainText(t) && i <= |t| && cp <= eob + 1 && eob <= buf.Length && Bytes(buf[..])
      modifies buf
      ensures ok <==> LabelEnd(t, i) == i || cp + LabelEnd(t, i) - i <= eob
      ensures ok ==> i' == NextLabel(t, i) && cp' == cp + LabelEnd(t, i) - i
      ensures ok ==> forall k :: cp <= k < cp' ==> buf[k] == t[i + k - cp]
      ensures forall k :: 0 <= k < buf.Length && !(cp <= k < eob && k < cp + LabelEnd(t, i) - i) ==>
        buf[k] == old(buf[k])
      ensures Bytes(buf[..])
    {
      var dn := i;
      cp' := cp;
      LabelEndStep(t, i);
      while Get(t, dn) != 0 && t[dn] != DOT
        invariant i <= dn <= |t| && cp' == cp + dn - i && (dn > i ==> cp' <= eob)
        invariant LabelEnd(t, dn) == LabelEnd(t, i)
        invariant forall k :: cp <= k < cp' ==> buf[k] == t[i + k - cp]
        invariant forall k :: 0 <= k < buf.Length && !(cp <= k < cp') ==> buf[k] == old(buf[k])
        invariant Bytes(buf[..])
        decreases |t| - dn
      {
        LabelEndStep(t, dn);
        if cp' >= eob {
          return false, dn, cp';
        }
        buf[cp'] := t[dn];
        dn, cp' := dn + 1, cp' + 1;
      }
      LabelEndStep(t, dn);
      return true, if Get(t, dn) == DOT then dn + 1 else dn, cp';
    }

    /** Puts the two bytes of a pointer. */
    method PutPointer(cp: nat, l: nat)
      requires cp + 2 <= buf.Length && l < 16384 && Bytes(buf[..])
      modifies buf
      ensures Bytes(buf[..]) && buf[cp] >= 192 && Target(buf[cp], buf[cp + 1]) == l
      ensures forall k :: 0 <= k < buf.Length && k != cp && k != cp + 1 ==> buf[k] == old(buf[k])
    {
      buf[cp] := l / 256 + 192;
      buf[cp + 1] := l % 256;
    }

    /** Remembers where a label begins, if the list has room. */
    method Remember(cp: nat, room: int)
      modifies `ptrs
      ensures ptrs == if |old(ptrs)| < room then old(ptrs) + [cp] else old(ptrs)
    {
      if |ptrs| < room {
        ptrs := ptrs + [cp];
      }
    }

    /** What holds between two labels in dn_comp's loop; `news` are the places remembered. */
    ghost predicate Between(t: seq<int>, i: nat, at: nat, cp: nat, done: seq<Label>, names: seq<seq<Label>>,
                            m0: seq<int>, ptrs0: seq<nat>, news: seq<nat>)
      reads this, buf
    {
      && |m0| == buf.Length && used <= at && Bytes(buf[..]) && Written(buf[..], t, i, at, cp, done, names)
      && (forall k :: 0 <= k < at && k < |m0| ==> buf[k] == m0[k])
      && ptrs == ptrs0 + news && |news| <= |done| && (forall k :: 0 <= k < |news| ==> news[k] == Offset(at, done, k))
    }

    /** A name has been written to its end: it and its beginnings join the known names. */
    ghost method Close(t: seq<int>, i: nat, at: nat, cp: nat, done: seq<Label>, names: seq<seq<Label>>,
                       hi: nat, tail: seq<Label>, news: seq<nat>, m0: seq<int>, ptrs0: seq<nat>)
      requires buf.Length <= 16384 && Bytes(buf[..]) && used <= at && |m0| == buf.Length
      requires AllKnown(m0, ptrs0, used, named) && AllKnown(m0, starts, used, spelled) && ptrs == ptrs0 + news
      requires |news| <= |done| + 1
      requires forall k :: 0 <= k < |news| ==> news[k] == Offset(at, done, k)
      requires forall k :: 0 <= k < at && k < |m0| ==> buf[k] == m0[k]
      requires Written(buf[..], t, i, at, cp, done, names) && Encoded(buf[..], cp, at, hi, tail)
      requires Split(t, i) == Some(tail) && PlainName(tail)
      requires (buf[cp] == 0 && hi == cp + 1) || (buf[cp] >= 192 && hi == cp + 2)
      modifies `named, `used, `starts, `spelled
      ensures OwnBytes(buf[..], at, hi)
      ensures Sound() && used == hi && named == old(named) + Suffixes(done + tail, |news|)
      ensures starts == old(starts) + [at] && spelled == old(spelled) + [done + tail]
      ensures Split(t, 0) == Some(done + tail) && Encoded(buf[..], at, at, hi, done + tail)
    {
      hide Encoded, AllKnown, PlainName, Split;
      WholeKnown(buf[..], t, i, at, cp, done, names, hi, tail);
      WrittenWhole(buf[..], t, i, at, cp, done, names, hi, tail, news);
      WrittenBounds(buf[..], t, i, at, cp, done, names, hi, tail);
      KnownFrame(m0, buf[..], ptrs0, used, hi, named);
      KnownAppend(buf[..], ptrs0, news, hi, named, Suffixes(done + tail, |news|));
      named, used := named + Suffixes(done + tail, |news|), hi;
      KnownFrame(m0, buf[..], starts, old(used), hi, spelled);
      KnownAppend(buf[..], starts, [at], hi, spelled, [done + tail]);
      starts, spelled := starts + [at], spelled + [done + tail];
      WrittenOwn(buf[..], t, i, at, cp, done, names, hi);
    }

    /**
     The name has been written: its bytes, its place and the places of its labels have come to what was there before.
     */
    ghost predicate Complete(t: seq<int>, at: nat, r: int, names: seq<seq<Label>>, ptrs0: seq<nat>,
                             named0: seq<seq<Label>>, starts0: seq<nat>, spelled0: seq<seq<Label>>)
      reads this, buf
    {
      && Sound() && Split(t, 0).Some? && r == Needed(t, 0, names) && used == at + r && OwnBytes(buf[..], at, at + r)
      && starts == starts0 + [at] && spelled == spelled0 + [Split(t, 0).value]
      && ptrs0 <= ptrs && named == named0 + Suffixes(Split(t, 0).value, |ptrs| - |ptrs0|)
    }

    /** The root at the end of a name. */
    method EndName(t: seq<int>, i: nat, at: nat, cp: nat, eob: nat, ghost done: seq<Label>,
                   ghost names: seq<seq<Label>>, ghost news: seq<nat>, ghost m0: seq<int>, ghost ptrs0: seq<nat>)
      returns (r: int)
      requires buf.Length <= 16384 && Bytes(buf[..]) && used <= at && |m0| == buf.Length && eob <= buf.Length
      requires AllKnown(m0, ptrs0, used, named) && AllKnown(m0, starts, used, spelled) && ptrs == ptrs0 + news
      requires |news| <= |done| + 1
      requires forall k :: 0 <= k < |news| ==> news[k] == Offset(at, done, k)
      requires forall k :: 0 <= k < at && k < |m0| ==> buf[k] == m0[k]
      requires Written(buf[..], t, i, at, cp, done, names) && Split(t, i) == Some([]) && Needed(t, i, names) == 1
      modifies buf, `named, `used, `starts, `spelled
      ensures r >= 0 <==> cp < eob
      ensures r < 0 ==> unchanged(buf) && unchanged(this)
      ensures Split(t, 0).Some? && Needed(t, 0, names) == cp + 1 - at
      ensures r >= 0 ==> Complete(t, at, r, names, ptrs0, old(named), old(starts), old(spelled))
      ensures forall k :: 0 <= k < buf.Length && !(at <= k < eob) ==> buf[k] == old(buf[k])
    {
      hide Run, Split, Needed, AllKnown, Offset, PlainName;
      if cp >= eob {
        return -1;
      }
      ghost var m := buf[..];
      buf[cp] := 0;
      RunFrame(m, buf[..], at, done);
      assert Encoded(buf[..], cp, at, cp + 1, []);
      RootPlain();
      Close(t, i, at, cp, done, names, cp + 1, [], news, m0, ptrs0);
      assert done + [] == done;
      r := cp + 1 - at;
    }

    lemma RootPlain()
      ensures PlainName([])
    {
    }

    /** A pointer at the end of a name, to the place `l` that dn_find has found. */
    method EndPointer(t: seq<int>, i: nat, at: nat, cp: nat, eob: nat, l: nat, ghost done: seq<Label>,
                      ghost names: seq<seq<Label>>, ghost news: seq<nat>, ghost m0: seq<int>, ghost ptrs0: seq<nat>)
      returns (r: int)
      requires buf.Length <= 16384 && Bytes(buf[..]) && used <= at && |m0| == buf.Length && eob <= buf.Length
      requires AllKnown(m0, ptrs0, used, named) && AllKnown(m0, starts, used, spelled) && ptrs == ptrs0 + news
      requires |news| <= |done|
      requires forall k :: 0 <= k < |news| ==> news[k] == Offset(at, done, k)
      requires forall k :: 0 <= k < at && k < |m0| ==> buf[k] == m0[k]
      requires Written(buf[..], t, i, at, cp, done, names) && i < |t| && Listed(t, i, names)
      requires exists k :: 0 <= k < |names| && Known(buf[..], l, used, names[k]) && Spells(t, i, names[k])
      modifies buf, `named, `used, `starts, `spelled
      ensures r >= 0 <==> cp + 1 < eob
      ensures r < 0 ==> unchanged(buf) && unchanged(this)
      ensures r >= 0 ==> Complete(t, at, r, names, ptrs0, old(named), old(starts), old(spelled))
      ensures Split(t, 0).Some? && Needed(t, 0, names) == cp + 2 - at
      ensures forall k :: 0 <= k < buf.Length && !(at <= k < eob) ==> buf[k] == old(buf[k])
    {
      hide Run, Split, Needed, AllKnown, Offset, PlainName, Encoded, Known, Spells;
      ghost var k :| 0 <= k < |names| && Known(buf[..], l, used, names[k]) && Spells(t, i, names[k]);
      ghost var tail := names[k];
      PointerEnd(buf[..], t, i, l, used, names, tail);
      assert Split(t, 0).Some?;
      if cp + 1 >= eob {
        return -1;
      }
      ghost var m := buf[..];
      PutPointer(cp, l);
      RunFrame(m, buf[..], at, done);
      PointerEncoded(m, buf[..], cp, at, l, used, tail);
      Close(t, i, at, cp, done, names, cp + 2, tail, news, m0, ptrs0);
      r := cp + 2 - at;
    }

    /** The part of dn_comp's loop that writes a label: it fails, or sees the end of the name, or goes on. */
    method CompLabel(t: seq<int>, i: nat, at: nat, cp: nat, eob: nat, ghost done: seq<Label>,
                     ghost names: seq<seq<Label>>)
      returns (v: Step, i': nat, cp': nat)
      requires PlainText(t) && i < |t| && at <= cp <= eob <= buf.Length && Bytes(buf[..])
      requires Written(buf[..], t, i, at, cp, done, names) && !Listed(t, i, names)
      modifies buf
      ensures Bytes(buf[..])
      ensures LabelEffect(old(buf[..]), buf[..], t, i, cp, eob, v, i', cp')
      ensures v == Fail ==> !(Split(t, 0).Some? && Needed(t, 0, names) <= eob - at)
      ensures v == End ==>
        Written(buf[..], t, i, at, cp, done, names) && Split(t, i) == Some([]) && Needed(t, i, names) == 1
      ensures v == Go ==> i < i' <= |t| && cp <= cp' <= eob
      ensures v == Go ==> Written(buf[..], t, i', at, cp', done + [t[i..LabelEnd(t, i)]], names)
      ensures forall k :: 0 <= k < buf.Length && !(at <= k < eob) ==> buf[k] == old(buf[k])
    {
      hide Split, Needed, Run, Offset, PlainName, Listed, PlainLabel;
      ghost var m := buf[..];
      TextDecides(t, i, names);
      var ok;
      ok, i', cp' := CopyLabel(t, i, cp + 1, eob);
      if !ok {
        return Fail, i', cp';
      }
      var l := cp' - cp - 1;
      if l == 0 && Get(t, i') == 0 {
        RunFrame(m, buf[..], at, done);
        return End, i', cp';
      }
      if l <= 0 || l > MAXLABEL {
        return Fail, i', cp';
      }
      buf[cp] := l;
      assert buf[..][cp + 1..cp'] == t[i..i + l];
      WrittenLabel(m, buf[..], t, i, at, cp, done, names);
      v := Go;
    }

    /** dn_find for the text from `i` on, and if it has no answer, the place `cp` into the list. */
    method FindOrSave(t: seq<int>, i: nat, cp: nat, lpp: nat, compress: bool, room: int, ghost names: seq<seq<Label>>)
      returns (l: int)
      requires PlainText(t) && i < |t| && Bytes(buf[..]) && names == (if compress then named else [])
      requires lpp <= |ptrs| && AllKnown(buf[..], ptrs[..lpp], used, named)
      modifies `ptrs
      ensures l >= 0 <==> Listed(t, i, names)
      ensures l >= 0 ==> ptrs == old(ptrs)
      ensures l >= 0 ==> exists k :: 0 <= k < |names| && Known(buf[..], l, used, names[k]) && Spells(t, i, names[k])
      ensures l < 0 ==> ptrs == old(ptrs) + if compress && |old(ptrs)| < room then [cp] else []
    {
      l := -1;
      if compress {
        l := Find(t, i, lpp, used, named);
        if l < 0 {
          Remember(cp, room);
        }
      }
    }

    /** After the text up to `i`: nothing was remembered if nothing was looked up or the list had no room. */
    ghost predicate Saved(t: seq<int>, i: nat, names: seq<seq<Label>>, saves: bool, news: seq<nat>, at: nat) {
      && (i > 0 ==> !Listed(t, 0, names))
      && (news != [] <==> i > 0 && saves)
      && (news != [] ==> news[0] == at)
    }

    /** The list after a failed call: `news` came to it, unless the whole name was found, or nothing is saved. */
    ghost predicate Left(t: seq<int>, names: seq<seq<Label>>, saves: bool, ptrs0: seq<nat>, at: nat)
      reads this
    {
      && ptrs0 <= ptrs
      && (ptrs == ptrs0 <==> t == [] || !saves || Listed(t, 0, names))
      && (ptrs != ptrs0 ==> ptrs[|ptrs0|] == at)
    }

    lemma LeftAfter(t: seq<int>, i: nat, names: seq<seq<Label>>, saves: bool, ptrs0: seq<nat>, news: seq<nat>, at: nat)
      requires Saved(t, i, names, saves, news, at) && ptrs == ptrs0 + news
      requires i == 0 ==> t == [] || Listed(t, 0, names)
      requires i > 0 ==> t != []
      ensures Left(t, names, saves, ptrs0, at)
    {
    }

    /** The loop of dn_comp and what follows it. */
    method CompLoop(t: seq<int>, at: nat, length: nat, compress: bool, room: int, ghost names: seq<seq<Label>>)
      returns (r: int)
      requires Sound() && PlainText(t) && used <= at && at + length <= buf.Length
      requires names == if compress then named else []
      modifies buf, `ptrs, `named, `used, `starts, `spelled
      ensures r >= 0 <==> Split(t, 0).Some? && Needed(t, 0, names) <= length
      ensures r >= 0 ==> Complete(t, at, r, names, old(ptrs), old(named), old(starts), old(spelled))
      ensures r < 0 ==> Left(t, names, compress && |old(ptrs)| < room, old(ptrs), at)
      ensures r < 0 ==> used == old(used) && named == old(named) && starts == old(starts) && spelled == old(spelled)
      ensures r < 0 ==> Bytes(buf[..])
      ensures forall k :: 0 <= k < buf.Length && !(at <= k < at + length) ==> buf[k] == old(buf[k])
    {
      hide Run, PlainName, AllKnown, Split, Needed, Encoded, Offset, Known, Spells, Listed, Message.Complete,
        Message.Left, LabelEffect;
      ghost var m0, ptrs0, saves := buf[..], ptrs, compress && |ptrs| < room;
      ghost var done: seq<Label>, news: seq<nat> := [], [];
      var i, cp, eob, lpp := 0, at, at + length, |ptrs|;
      WrittenStart(m0, t, at, names);
      assert ptrs == ptrs0 + news;
      while i < |t|
        invariant at <= cp <= eob && i <= |t| && Between(t, i, at, cp, done, names, m0, ptrs0, news)
        invariant Saved(t, i, names, saves, news, at) && (compress && |ptrs| < room ==> |news| == |done|)
        invariant used == old(used) && named == old(named) && starts == old(starts) && spelled == old(spelled)
        invariant forall k :: 0 <= k < buf.Length && !(at <= k < eob) ==> buf[k] == old(buf[k])
        decreases |t| - i
      {
        KnownFrame(m0, buf[..], ptrs0, used, used, named);
        assert ptrs[..lpp] == ptrs0;
        var l := FindOrSave(t, i, cp, lpp, compress, room, names);
        if l >= 0 {
          LeftAfter(t, i, names, saves, ptrs0, news, at);
          r := EndPointer(t, i, at, cp, eob, l, done, names, news, m0, ptrs0);
          return;
        }
        if compress && |ptrs0 + news| < room {
          news := news + [cp];
        }
        LeftAfter(t, i + 1, names, saves, ptrs0, news, at);
        var v, i', cp' := CompLabel(t, i, at, cp, eob, done, names);
        if v == Fail {
          return -1;
        }
        if v == End {
          r := EndName(t, i, at, cp, eob, done, names, news, m0, ptrs0);
          return;
        }
        OffsetsKept(at, done, t[i..LabelEnd(t, i)], news);
        done := done + [t[i..LabelEnd(t, i)]];
        i, cp := i', cp';
      }
      EndText(t, names);
      LeftAfter(t, i, names, saves, ptrs0, news, at);
      r := EndName(t, i, at, cp, eob, done, names, news, m0, ptrs0);
    }

    /**
     dn_comp: writes the name at `at`; -1 exactly when the text is no name or the name does not fit.  A failed
     call leaves the list alone exactly if the text is empty, the list is not used or full, or has the whole name.
     */
    method Comp(t: seq<int>, at: nat, length: nat, compress: bool, room: int) returns (r: int)
      requires Valid() && PlainText(t) && used <= at && at + length <= buf.Length
      modifies this, buf
      ensures var names := if compress then old(named) else [];
              && (r >= 0 <==> Split(t, 0).Some? && Needed(t, 0, names) <= length)
              && (r >= 0 ==> r == Needed(t, 0, names))
      ensures r >= 0 ==> Valid() && used == at + r
      ensures r >= 0 ==> starts == old(starts) + [at] && ends == old(ends) + [at + r] && texts == old(texts) + [t]
      ensures r >= 0 ==> old(ptrs) <= ptrs && named == old(named) + Suffixes(Split(t, 0).value, |ptrs| - |old(ptrs)|)
      ensures r < 0 ==> used == old(used) && named == old(named) && starts == old(starts) && texts == old(texts)
      ensures r < 0 ==> ends == old(ends)
      ensures r < 0 ==> old(ptrs) <= ptrs
      ensures r < 0 ==>
        (ptrs == old(ptrs) <==> t == [] || !compress || |old(ptrs)| >= room || Listed(t, 0, old(named)))
      ensures r < 0 ==> if ptrs == old(ptrs) then Valid() else ptrs[|old(ptrs)|] == at && !Valid()
      ensures forall k :: 0 <= k < buf.Length && !(at <= k < at + length) ==> buf[k] == old(buf[k])
    {
      hide Known, Split, Needed, Spells, PlainText, AllSized, OwnBytes;
      ghost var m0, names, ptrs0, named0 := buf[..], if compress then named else [], ptrs, named;
      ghost var starts0, used0 := starts, used;
      r := CompLoop(t, at, length, compress, room, names);
      SizedFrame(m0, buf[..], starts0, ends, used0, used);
      if r >= 0 {
        texts := texts + [t];
        SizedAppend(buf[..], starts0, ends, used, at, at + r);
        ends := ends + [at + r];
      } else {
        NoneListed(t, 0);
        assert |named| == |ptrs0|;
        if ptrs == ptrs0 {
          KnownFrame(m0, buf[..], ptrs, used, used, named);
          KnownFrame(m0, buf[..], starts, used, used, spelled);
        } else {
          assert |ptrs| > |ptrs0|;
        }
      }
    }

    /**
     dn_comp on a text that the list has as a whole, whatever else is in the list and wherever its names end:
     the name becomes a pointer to one of the places listed for it.
     */
    method CompFound(t: seq<int>, at: nat, length: nat, room: int) returns (r: int)
      requires PlainText(t) && t != [] && at + length <= buf.Length <= 16384 && Bytes(buf[..])
      requires AllKnown(buf[..], ptrs, used, named) && Listed(t, 0, named)
      modifies `ptrs, buf
      ensures Bytes(buf[..]) && ptrs == old(ptrs) && r == if length >= 2 then 2 else -1
      ensures r < 0 ==> unchanged(buf)
      ensures |named| == |ptrs|
      ensures r >= 0 ==> buf[at] >= 192
      ensures r >= 0 ==>
        exists k :: 0 <= k < |ptrs| && Spells(t, 0, named[k]) && Target(buf[at], buf[at + 1]) == ptrs[k]
      ensures forall k :: 0 <= k < buf.Length && k != at && k != at + 1 ==> buf[k] == old(buf[k])
    {
      hide Known, Spells, Encoded;
      assert ptrs[..|ptrs|] == ptrs;
      var l := Find(t, 0, |ptrs|, used, named);
      ghost var k :| 0 <= k < |ptrs| && ptrs[k] == l && Known(buf[..], l, used, named[k]) && Spells(t, 0, named[k]);
      KnownInside(buf[..], l, used, named[k]);
      if length < 2 {
        return -1;
      }
      PutPointer(at, l);
      assert Spells(t, 0, named[k]) && Target(buf[at], buf[at + 1]) == ptrs[k];
      r := 2;
    }

    /** The rest of the program writes the message behind the names. */
    method PutBytes(at: nat, bytes: seq<int>)
      requires Valid() && used <= at && at + |bytes| <= buf.Length && Bytes(bytes)
      modifies buf
      ensures Valid() && buf[..at] == old(buf[..at])
    {
      ghost var m0 := buf[..];
      for k := 0 to |bytes|
        invariant Bytes(buf[..]) && forall j :: 0 <= j < at ==> buf[j] == m0[j]
      {
        buf[at + k] := bytes[k];
      }
      KnownFrame(m0, buf[..], ptrs, used, used, named);
      KnownFrame(m0, buf[..], starts, used, used, spelled);
      SizedFrame(m0, buf[..], starts, ends, used, used);
    }

    /** Every name written so far is found at its beginning, and it is the text that was given. */
    lemma ReadBack(past: int, k: nat)
      requires Valid() && 0 <= past < 256 && k < |starts|
      ensures |texts| == |spelled| == |starts| && starts[k] < |buf[..]|
      ensures ReadName(buf[..], past, starts[k], 0) == Some(spelled[k])
      ensures PlainName(spelled[k]) && Text(spelled[k]) == Undotted(texts[k])
    {
      assert Known(buf[..], starts[k], used, spelled[k]);
      EncodedIs(buf[..], starts[k], starts[k], used, spelled[k]);
      EncodedReads(buf[..], past, starts[k], starts[k], used, spelled[k], 0);
      TextIsJoin(spelled[k]);
      SplitUndotted(texts[k], spelled[k]);
    }

    /** dn_expand at the beginning of a name gives back its text without the dots at the end, if the output has room. */
    method Reread(past: int, at: nat, ghost k: nat, out: array<int>, length: nat) returns (len: int)
      requires Valid() && 0 <= past < 256 && k < |starts| && starts[k] == at && out != buf && 1 <= length <= out.Length
      modifies out
      ensures |texts| == |starts|
      ensures var text := Undotted(texts[k]);
              && (len >= 0 <==> text == [] || |text| + 1 < length)
              && (len >= 0 ==> |text| < length && out[..|text|] == text && out[|text|] == 0)
      ensures len >= 0 ==> |ends| == |starts| && len == ends[k] - starts[k]
      ensures out[length..] == old(out[length..])
    {
      hide ReadName, Split, Text, OwnBytes, SkipEnd;
      ReadBack(past, k);
      OwnSize(buf[..], starts[k], ends[k]);
      len := Expand(buf[..], past, at, out, length);
      PlainFits(spelled[k], length);
    }

    /** dn_skipname at the beginning of a name passes exactly the bytes that dn_comp wrote for it. */
    method Pass(at: nat, ghost k: nat) returns (len: int)
      requires Valid() && k < |starts| && starts[k] == at
      ensures |ends| == |starts| && len == ends[k] - starts[k]
    {
      hide OwnBytes, SkipEnd, AllSpelled, Known;
      assert Known(buf[..], starts[k], used, spelled[k]);
      KnownInside(buf[..], starts[k], used, spelled[k]);
      OwnSize(buf[..], starts[k], ends[k]);
      len := SkipName(buf[..], at);
    }
  }

  /** A name with an empty label in the middle is refused, and the place of its first label stays in the list. */
  method FailedNameStays() returns (d: Message, r: int)
    ensures r < 0 && d.ptrs != [] && d.ptrs[0] == 0 && d.starts == [] && !d.Valid()
  {
    d := new Message(64);
    var t := ['a' as int, DOT, DOT, 'b' as int];
    EmptyLabelRefused(t);
    r := d.Comp(t, 0, 64, true, 8);
  }

  /** A pointer to itself is a name without end. */
  lemma {:induction false} SelfPointer(m: seq<int>, past: int, at: nat, ls: seq<Label>, steps: nat)
    requires Bytes(m) && 0 <= past < 256 && at + 1 < |m| && m[at] >= 192 && Target(m[at], m[at + 1]) == at
    ensures !Follows(m, past, at, ls, steps)
  {
    if steps > 0 {
      SelfPointer(m, past, at, ls, steps - 1);
    }
  }

  lemma NeverRead(m: seq<int>, past: int, at: nat)
    requires Bytes(m) && 0 <= past < 256 && at + 1 < |m| && m[at] >= 192 && Target(m[at], m[at + 1]) == at
    ensures ReadName(m, past, at, 0) == None
  {
    if ReadName(m, past, at, 0).Some? {
      var steps := ReadFollows(m, past, at, 0);
      SelfPointer(m, past, at, ReadName(m, past, at, 0).value, steps);
    }
  }

  /** The bytes of a label. */
  lemma LabelBytes(m: seq<int>, l: Label)
    requires Run(m, 0, [l]) && |l| == 1
    ensures |m| >= 2 && m[0] == 1 && m[1] == l[0]
  {
    assert LabelAt(m, Offset(0, [l], 0), [l][0]);
    assert m[1..2][0] == m[1];
  }

  /** A label and the root behind it, and the root alone. */
  lemma StaleNames(m: seq<int>, c: int)
    requires |m| >= 3 && m[0] == 1 && m[1] == c && m[2] == 0 && PlainLabel([c])
    ensures AllKnown(m, [0, 2], 3, [[[c]], []])
  {
    var names: seq<seq<Label>> := [[[c]], []];
    assert Encoded(m, 2, 0, 3, []) && Encoded(m, 2, 2, 3, []);
    assert m[1..2] == [c] && [[c]][1..] == [];
    assert Encoded(m, 0, 0, 3, [[c]]);
    assert Known(m, [0, 2][0], 3, names[0]) && Known(m, [0, 2][1], 3, names[1]);
  }

  /**
   What the places of a failed name can do.  In an empty message "a..b" is written at 0 as far as it goes and
   refused; then "a" is written at 0, and dn_find answers with the place that it is being written to.  The name
   becomes a pointer to itself, dn_comp reports success, and dn_expand never reads it.
   */
  method PointsToItself(past: int) returns (d: Message, r: int)
    requires 0 <= past < 256
    ensures fresh(d) && fresh(d.buf) && Bytes(d.buf[..]) && d.buf.Length == 64
    ensures r == 2 && d.buf[0] == 192 && d.buf[1] == 0 && ReadName(d.buf[..], past, 0, 0) == None
  {
    hide Written, Encoded, Known, AllKnown, Spells, Split, Needed, Run, Listed;
    d := new Message(64);
    var t, c := ['a' as int, DOT, DOT, 'b' as int], 'a' as int;
    DottedText(t);
    NothingKnown(d.buf[..]);
    NothingListed(t, 0);
    NothingListed(t, 2);
    WrittenStart(d.buf[..], t, 0, []);
    var l := d.FindOrSave(t, 0, 0, 0, true, 8, []);
    var v, i, cp := d.CompLabel(t, 0, 0, 0, 64, [], []);
    assert [] + [t[0..1]] == [[c]];
    WrittenRun(d.buf[..], t, 2, 0, 2, [[c]], []);
    LabelBytes(d.buf[..], [c]);
    NothingKnown(d.buf[..]);
    l := d.FindOrSave(t, 2, 2, 0, true, 8, []);
    v, i, cp := d.CompLabel(t, 2, 0, 2, 64, [[c]], []);
    assert v == Fail;
    assert d.ptrs == [0, 2];
    StaleNames(d.buf[..], c);
    d.named, d.used := [[[c]], []], 3;
    OneListed(c);
    r := d.CompFound([c], 0, 64, 8);
    NeverRead(d.buf[..], past, 0);
  }

  /** The name that a pointer leads to is what the rest of the text says. */
  lemma PointerEnd(m: seq<int>, t: seq<int>, i: nat, l: nat, used: nat, named: seq<seq<Label>>, tail: seq<Label>)
    requires i < |t| && Known(m, l, used, tail) && Spells(t, i, tail) && Listed(t, i, named)
    ensures tail != [] && PlainName(tail) && Encoded(m, l, l, used, tail) && l < used
    ensures Split(t, i) == Some(tail) && Needed(t, i, named) == 2
  {
    SpellsSplit(t, i, tail);
  }

  lemma PointerEncoded(m: seq<int>, m': seq<int>, cp: nat, at: nat, l: nat, used: nat, tail: seq<Label>)
    requires Encoded(m, l, l, used, tail) && l < used <= at <= cp && cp + 2 <= |m'| && tail != [] && Bytes(m')
    requires m'[cp] >= 192 && Target(m'[cp], m'[cp + 1]) == l && forall k :: 0 <= k < cp && k < |m| ==> m'[k] == m[k]
    ensures Encoded(m', cp, at, cp + 2, tail)
  {
    EncodedFrame(m, m', l, l, used, tail);
    EncodedWider(m', l, l, used, l, at, tail);
  }

  /** The text from `i` on, by the length of its first label. */
  lemma TextDecides(t: seq<int>, i: nat, named: seq<seq<Label>>)
    requires i < |t| && !Listed(t, i, named)
    ensures var n := LabelEnd(t, i) - i;
            && (n > MAXLABEL || (n == 0 && NextLabel(t, i) < |t|) ==> Split(t, i) == None)
            && (n == 0 && NextLabel(t, i) == |t| ==> Split(t, i) == Some([]) && Needed(t, i, named) == 1)
            && (n > 0 ==> Needed(t, i, named) >= n + 2)
  {
  }

  /** The places remembered lie at the beginnings of labels. */
  lemma OffsetsKept(at: nat, done: seq<Label>, l: Label, news: seq<nat>)
    requires |news| <= |done| + 1 && forall k :: 0 <= k < |news| ==> news[k] == Offset(at, done, k)
    ensures forall k :: 0 <= k < |news| ==> news[k] == Offset(at, done + [l], k)
  {
    forall k | 0 <= k < |news|
      ensures news[k] == Offset(at, done + [l], k)
    {
      OffsetPrefix(at, done, [l], k);
    }
  }

  lemma NoneListed(t: seq<int>, i: nat)
    ensures !Listed(t, i, [])
  {
  }

  lemma EndText(t: seq<int>, named: seq<seq<Label>>)
    ensures Split(t, |t|) == Some([]) && Needed(t, |t|, named) == 1
  {
  }

  lemma WholeKnown(m: seq<int>, t: seq<int>, i: nat, at: nat, cp: nat, done: seq<Label>, named: seq<seq<Label>>,
                   hi: nat, tail: seq<Label>)
    requires Written(m, t, i, at, cp, done, named) && Encoded(m, cp, at, hi, tail)
    requires Split(t, i) == Some(tail) && PlainName(tail)
    ensures AllKnown(m, [at], hi, [done + tail])
  {
    hide Split, Needed;
    SuffixKnown(m, at, done, hi, tail, 0);
    assert (done + tail)[0..] == done + tail && Offset(at, done, 0) == at;
  }

  lemma WrittenBounds(m: seq<int>, t: seq<int>, i: nat, at: nat, cp: nat, done: seq<Label>, named: seq<seq<Label>>,
                      hi: nat, tail: seq<Label>)
    requires Written(m, t, i, at, cp, done, named) && Encoded(m, cp, at, hi, tail)
    ensures at <= cp < hi <= |m|
  {
  }

  lemma WrittenOwn(m: seq<int>, t: seq<int>, i: nat, at: nat, cp: nat, done: seq<Label>, named: seq<seq<Label>>,
                   hi: nat)
    requires Written(m, t, i, at, cp, done, named) && hi <= |m|
    requires cp < hi && ((m[cp] == 0 && hi == cp + 1) || (m[cp] >= 192 && hi == cp + 2))
    ensures OwnBytes(m, at, hi)
  {
    hide Split, Needed, Run;
    assert OwnLabels(m, at, done, hi);
  }

  lemma LabelEndStep(t: seq<int>, i: nat)
    requires i <= |t|
    ensures i < |t| && t[i] != DOT ==> LabelEnd(t, i) == LabelEnd(t, i + 1) > i
    ensures i == |t| || t[i] == DOT ==> LabelEnd(t, i) == i
  {
  }

  /** For labels without dots the output needs one byte more than the text and its zero. */
  lemma PlainFits(ls: seq<Label>, length: int)
    requires PlainName(ls) && length >= 1
    ensures TextFits(ls, length) <==> Text(ls) == [] || |Text(ls)| + 1 < length
  {
    if ls != [] {
      assert PlainLabel(ls[|ls| - 1]);
      EscapedPlain(ls[|ls| - 1]);
      assert Text(ls) != [];
    }
  }

  lemma EmptyLabelRefused(t: seq<int>)
    requires |t| == 4 && t[0] == 'a' as int && t[1] == DOT && t[2] == DOT && t[3] == 'b' as int
    ensures Split(t, 0) == None && PlainText(t)
  {
    assert LabelEnd(t, 2) == 2 && NextLabel(t, 2) == 3;
    assert LabelEnd(t, 1) == 1;
    assert LabelEnd(t, 0) == 1 && NextLabel(t, 0) == 2;
    assert Split(t, 2) == None;
  }

  lemma NothingKnown(m: seq<int>)
    ensures AllKnown(m, [], 0, [])
  {
  }

  lemma NothingListed(t: seq<int>, i: nat)
    ensures !Listed(t, i, [])
  {
  }

  lemma OneListed(c: int)
    requires PlainLabel([c]) && 0 < c < 256
    ensures PlainText([c]) && Listed([c], 0, [[[c]], []])
    ensures forall k :: 0 <= k < 2 && Spells([c], 0, [[[c]], []][k]) ==> k == 0
  {
    assert [c][0..1] == [c];
    assert Spells([c], 0, [[[c]], []][0]);
  }

  lemma WrittenRun(m: seq<int>, t: seq<int>, i: nat, at: nat, cp: nat, done: seq<Label>, named: seq<seq<Label>>)
    requires Written(m, t, i, at, cp, done, named)
    ensures Run(m, at, done)
  {
  }

  lemma DottedText(t: seq<int>)
    requires t == ['a' as int, DOT, DOT, 'b' as int]
    ensures PlainText(t) && LabelEnd(t, 0) == 1 && NextLabel(t, 0) == 2
    ensures LabelEnd(t, 2) == 2 && NextLabel(t, 2) == 3
    ensures t[0..1] == ['a' as int]
  {
  }
}

/** dn_expand and dn_skipname of bsdlibc/net/res_comp.c. */
module DnsExpand {
  import opened DnsName

  /**
   Does the text of these labels fit a buffer of `length` bytes, as dn_expand reckons: it wants a byte
   to spare beyond the final zero, unless the last label has an escape in it.
   */
  predicate TextFits(ls: seq<Label>, length: int) {
    ls != [] ==> |Text(ls)| < if DOT in ls[|ls| - 1] then length else length - 1
  }

  predicate Accepted(r: Option<seq<Label>>, length: int) {
    r.Some? && TextFits(r.value, length)
  }

  lemma TextAppend(ls: seq<Label>, l: Label)
    ensures Text(ls + [l]) == if ls == [] then Escaped(l) else Text(ls) + [DOT] + Escaped(l)
  {
    assert (ls + [l])[..|ls|] == ls;
  }

  lemma {:induction false} EscapedAtLeast(l: Label)
    ensures |Escaped(l)| >= |l| && (DOT in l ==> |Escaped(l)| > |l|)
  {
    if l != [] {
      EscapedAtLeast(l[..|l| - 1]);
    }
  }

  /** A name that fits has room for more after each of its first labels. */
  lemma {:induction false} FitsPrefix(ls: seq<Label>, k: nat, length: int)
    requires 1 <= k < |ls| && TextFits(ls, length) && forall i :: 0 <= i < |ls| ==> ls[i] != []
    ensures |Text(ls[..k])| + 1 + |Escaped(ls[k])| <= |Text(ls)|
    ensures |Text(ls[..k])| + 2 < length
    ensures TextFits(ls[..k + 1], length)
    decreases |ls|
  {
    var front, last := ls[..|ls| - 1], ls[|ls| - 1];
    TextAppend(front, last);
    assert front + [last] == ls;
    EscapedAtLeast(last);
    if k + 1 < |ls| {
      assert TextFits(front, length);
      FitsPrefix(front, k, length);
      assert front[..k] == ls[..k] && front[..k + 1] == ls[..k + 1];
    } else {
      assert ls[..k + 1] == ls && ls[..k] == front;
      EscapedAtLeast(ls[k]);
    }
  }

  /** One byte of a label into the text: fails when an escape finds no room. */
  method PutByte(out: array<int>, dn: nat, rest: nat, eom: int, c: int) returns (ok: bool, dn': nat)
    requires dn + rest + 1 <= eom < out.Length
    modifies out
    ensures ok <==> c != DOT || dn + rest + 1 < eom
    ensures ok ==> dn' + rest <= eom
    ensures ok ==> out[..dn'] == old(out[..dn]) + if c == DOT then [BACKSLASH, DOT] else [c]
    ensures out[eom..] == old(out[eom..])
  {
    dn' := dn;
    if c == DOT {
      if dn + rest + 1 >= eom {
        return false, dn;
      }
      out[dn'] := BACKSLASH;
      dn' := dn' + 1;
    }
    out[dn'] := c;
    return true, dn' + 1;
  }

  function Window(m: seq<int>, past: int, cp: nat, n: nat): (w: seq<int>)
    ensures |w| == n && (cp + n <= |m| ==> w == m[cp..cp + n])
  {
    seq(n, k requires 0 <= k < n => if cp + k < |m| then m[cp + k] else past)
  }

  lemma WindowByte(m: seq<int>, past: int, cp: nat, n: nat, k: nat)
    requires k < n && cp + k <= |m|
    ensures Window(m, past, cp, n)[k] == Byte(m, past, cp + k)
  {
  }

  lemma EscapedStart(w: Label)
    ensures Escaped(w[..0]) == [] && w[..|w|] == w
  {
  }

  lemma EscapedStep(w: Label, k: nat)
    requires k < |w|
    ensures Escaped(w[..k + 1]) == Escaped(w[..k]) + if w[k] == DOT then [BACKSLASH, DOT] else [w[k]]
    ensures DOT in w[..k + 1] <==> DOT in w[..k] || w[k] == DOT
    ensures |Escaped(w[..k + 1])| + |w| - k - 1 <= |Escaped(w)|
  {
    assert w[..k + 1][..k] == w[..k] && w[..k + 1] == w[..k] + [w[k]];
    EscapedLength(w, k + 1);
  }

  /** The loop over the bytes of a label. */
  method PutLabel(m: seq<int>, past: int, out: array<int>, dn: nat, cp: nat, n: nat, eom: int)
    returns (ok: bool, dn': nat)
    requires cp <= |m| && 1 <= n && dn + n < eom < out.Length
    modifies out
    ensures out[eom..] == old(out[eom..])
    ensures ok <==> cp + n < |m| && dn + |Escaped(m[cp..cp + n])| <= eom
    ensures ok ==> dn' == dn + |Escaped(m[cp..cp + n])| && out[..dn'] == old(out[..dn]) + Escaped(m[cp..cp + n])
  {
    hide Escaped, Window;
    ghost var w := Window(m, past, cp, n);
    EscapedStart(w);
    var k := 0;
    dn' := dn;
    while k < n
      invariant 0 <= k <= n && cp + k <= |m| && (k > 0 ==> cp + k < |m|) && dn' + n - k <= eom
      invariant dn' == dn + |Escaped(w[..k])| && (DOT !in w[..k] ==> dn' == dn + k)
      invariant out[..dn'] == old(out[..dn]) + Escaped(w[..k])
      invariant out[eom..] == old(out[eom..])
    {
      var c := Byte(m, past, cp + k);
      EscapedStep(w, k);
      WindowByte(m, past, cp, n, k);
      ok, dn' := PutByte(out, dn', n - k - 1, eom, c);
      if !ok || cp + k + 1 >= |m| {
        return false, dn';
      }
      k := k + 1;
    }
    assert w[..n] == w;
    ok := true;
  }

  // ----- the whole name -----

  /** The state of dn_expand's loop: the labels put out so far, and what is still to come. */
  ghost predicate Progress(whole: Option<seq<Label>>, done: seq<Label>, m: seq<int>, past: int, cp: int, checked: nat)
    requires Bytes(m) && 0 <= past < 256
  {
    whole == Prepend(done, ReadName(m, past, cp, checked))
  }

  /** A label at `cp`: where it leads, or why the name is refused. */
  lemma StepLabel(whole: Option<seq<Label>>, done: seq<Label>, m: seq<int>, past: int, cp: nat, checked: nat,
                  length: int)
    requires Bytes(m) && 0 <= past < 256 && Progress(whole, done, m, past, cp, checked) && cp < |m| && 0 < m[cp] < 64
    requires forall k :: 0 <= k < |done| ==> done[k] != []
    ensures var n := m[cp];
            && (cp + 1 + n >= |m| ==> whole.None?)
            && (cp + 1 + n < |m| ==>
                  var done' := done + [m[cp + 1..cp + 1 + n]];
                  && Progress(whole, done', m, past, cp + 1 + n, checked + n + 1)
                  && (Accepted(whole, length) ==> TextFits(done', length))
                  && (Accepted(whole, length) && done != [] ==> |Text(done)| + 2 < length))
  {
    var n := m[cp];
    if cp + 1 + n < |m| {
      var l := m[cp + 1..cp + 1 + n];
      var rest := ReadName(m, past, cp + 1 + n, checked + n + 1);
      assert whole == Prepend(done + [l], rest) by {
        assert rest.Some? ==> done + ([l] + rest.value) == done + [l] + rest.value;
      }
      if Accepted(whole, length) {
        var ls := whole.value;
        forall k | 0 <= k < |ls|
          ensures ls[k] != []
        {
          if k >= |done| {
            ReadNonempty(m, past, cp, checked, k - |done|);
          }
        }
        assert ls[..|done|] == done && ls[..|done| + 1] == done + [l];
        if done != [] {
          FitsPrefix(ls, |done|, length);
        } else {
          FitsFirst(ls, length);
        }
      }
    }
  }

  lemma FitsFirst(ls: seq<Label>, length: int)
    requires ls != [] && TextFits(ls, length) && forall i :: 0 <= i < |ls| ==> ls[i] != []
    ensures TextFits(ls[..1], length)
  {
    if |ls| > 1 {
      FitsPrefix(ls, 1, length);
    } else {
      assert ls[..1] == ls;
    }
  }

  /** How dn_expand's two tests for room decide whether the text with one more label fits. */
  lemma RoomDecides(done: seq<Label>, l: Label, length: int)
    requires l != [] && forall k :: 0 <= k < |done| ==> done[k] != []
    ensures var dn := if done == [] then 0 else |Text(done)| + 1;
            && |Text(done + [l])| == dn + |Escaped(l)|
            && (TextFits(done + [l], length) ==> dn + |l| < length - 1 && dn + |Escaped(l)| <= length - 1)
            && (dn + |l| < length - 1 && dn + |Escaped(l)| <= length - 1 ==> TextFits(done + [l], length))
            && (done != [] && TextFits(done + [l], length) ==> |Text(done)| < length - 1)
  {
    TextAppend(done, l);
    EscapedAtLeast(l);
    if DOT !in l {
      EscapedPlain(l);
    }
  }

  /** A pointer at `cp`. */
  lemma StepPointer(whole: Option<seq<Label>>, done: seq<Label>, m: seq<int>, past: int, cp: nat, checked: nat)
    requires Bytes(m) && 0 <= past < 256 && Progress(whole, done, m, past, cp, checked) && cp < |m| && m[cp] >= 64
    ensures var t := Target(m[cp], Byte(m, past, cp + 1));
            && t >= 0
            && (m[cp] < 192 || t >= |m| || checked + 2 >= |m| ==> whole.None?)
            && (m[cp] >= 192 && t < |m| && checked + 2 < |m| ==> Progress(whole, done, m, past, t, checked + 2))
  {
    var t := Target(m[cp], Byte(m, past, cp + 1));
    assert t >= |m| ==> ReadName(m, past, t, checked + 2).None?;
  }

  /** One label: a dot before it unless it is the first, and its bytes; fails for lack of room or of message. */
  method ExpandLabel(m: seq<int>, past: int, cp: nat, n: nat, out: array<int>, dn: nat, eom: int,
                     ghost done: seq<Label>)
    returns (ok: bool, dn': nat)
    requires cp <= |m| && 1 <= n && 0 <= eom < out.Length && forall k :: 0 <= k < |done| ==> done[k] != []
    requires dn == |Text(done)| <= eom && out[..dn] == Text(done) && (dn == 0 <==> done == [])
    modifies out
    ensures out[eom..] == old(out[eom..])
    ensures ok <==> cp + n < |m| && TextFits(done + [m[cp..cp + n]], eom + 1)
    ensures ok ==> dn' == |Text(done + [m[cp..cp + n]])| && 0 < dn' <= eom && out[..dn'] == Text(done + [m[cp..cp + n]])
  {
    hide Escaped, Text, TextFits;
    ghost var l := if cp + n <= |m| then m[cp..cp + n] else seq(n, _ => 0);
    RoomDecides(done, l, eom + 1);
    TextAppend(done, l);
    EscapedAtLeast(l);
    dn' := dn;
    if dn' != 0 {
      if dn' >= eom {
        return false, dn';
      }
      out[dn'] := DOT;
      dn' := dn' + 1;
    }
    if dn' + n >= eom {
      return false, dn';
    }
    ok, dn' := PutLabel(m, past, out, dn', cp, n, eom);
  }

  /** dn_expand */
  method Expand(m: seq<int>, past: int, at: nat, out: array<int>, length: nat) returns (len: int)
    requires Bytes(m) && 0 <= past < 256 && at < |m| && 1 <= length <= out.Length
    modifies out
    ensures out[length..] == old(out[length..])
    ensures len >= 0 <==> Accepted(ReadName(m, past, at, 0), length)
    ensures len >= 0 ==> var text := Text(ReadName(m, past, at, 0).value);
                         |text| < length && out[..|text|] == text && out[|text|] == 0
    ensures len >= 0 ==> len == SkipEnd(m, at) - at
  {
    hide ReadName, Text, TextFits, Escaped, Progress;
    ghost var whole := ReadName(m, past, at, 0);
    ghost var done: seq<Label> := [];
    ExpandStart(m, past, at, length);
    var cp, dn: nat, checked, eom := at, 0, 0, length - 1;
    len := -1;
    while m[cp] != 0
      invariant 0 <= cp < |m| && 0 <= checked && Progress(whole, done, m, past, cp, checked)
      invariant (forall k :: 0 <= k < |done| ==> done[k] != []) && TextFits(done, length)
      invariant dn == |Text(done)| <= eom && out[..dn] == Text(done) && (dn == 0 <==> done == [])
      invariant out[length..] == old(out[length..])
      invariant if len < 0 then SkipEnd(m, cp) == SkipEnd(m, at) && cp >= at else len == SkipEnd(m, at) - at
      decreases if checked < |m| then |m| - checked else 0, |m| - cp
    {
      var n := m[cp];
      if n < 64 {
        StepLabel(whole, done, m, past, cp, checked, length);
        var ok;
        ok, dn := ExpandLabel(m, past, cp + 1, n, out, dn, eom, done);
        assert out[length..] == out[eom..][1..];
        if !ok {
          return -1;
        }
        done := done + [m[cp + 1..cp + 1 + n]];
        checked, cp := checked + n + 1, cp + 1 + n;
      } else if n >= 192 {
        StepPointer(whole, done, m, past, cp, checked);
        if len < 0 {
          len := cp - at + 2;
        }
        cp := Target(n, Byte(m, past, cp + 1));
        checked := checked + 2;
        if cp >= |m| || checked >= |m| {
          return -1;
        }
      } else {
        StepPointer(whole, done, m, past, cp, checked);
        return -1;
      }
    }
    ExpandEnd(whole, done, m, past, cp, checked);
    out[dn] := 0;
    assert out[..dn] == Text(done);
    if len < 0 {
      len := cp - at + 1;
    }
  }

  lemma ExpandStart(m: seq<int>, past: int, at: nat, length: nat)
    requires Bytes(m) && 0 <= past < 256 && length >= 1
    ensures Progress(ReadName(m, past, at, 0), [], m, past, at, 0) && TextFits([], length) && Text([]) == []
  {
    var r := ReadName(m, past, at, 0);
    assert r.Some? ==> [] + r.value == r.value;
  }

  lemma ExpandEnd(whole: Option<seq<Label>>, done: seq<Label>, m: seq<int>, past: int, cp: nat, checked: nat)
    requires Bytes(m) && 0 <= past < 256 && Progress(whole, done, m, past, cp, checked) && cp < |m| && m[cp] == 0
    ensures whole == Some(done)
  {
    assert done + [] == done;
  }

  /** dn_skipname, with `eom` the end of the message */
  method SkipName(m: seq<int>, at: nat) returns (len: int)
    requires Bytes(m) && at <= |m|
    ensures len == if SkipEnd(m, at) < 0 then -1 else SkipEnd(m, at) - at
  {
    var cp := at;
    while cp < |m|
      invariant at <= cp && SkipEnd(m, cp) == SkipEnd(m, at)
      decreases |m| - cp
    {
      var n := m[cp];
      cp := cp + 1;
      if n == 0 {
        break;
      } else if n < 64 {
        cp := cp + n;
      } else if n < 192 {
        return -1;
      } else {
        cp := cp + 1;
        break;
      }
    }
    return cp - at;
  }
}

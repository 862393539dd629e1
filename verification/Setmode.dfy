/** getmode and compress_mode of bsdlibc/gen/setmode.c. */
module Setmode {
  import opened SetmodeBits

  const END: char := '\0'

  /** The length of the run of plain commands that a list begins with. */
  function RunLength(cmds: seq<BitCmd>): (n: nat)
    ensures n <= |cmds| && forall k :: 0 <= k < n ==> IsPlain(cmds[k])
    ensures n < |cmds| ==> !IsPlain(cmds[n])
  {
    if cmds == [] || !IsPlain(cmds[0]) then 0 else 1 + RunLength(cmds[1..])
  }

  /** The masks that a run of plain commands comes to. */
  function Fold(run: seq<BitCmd>): (k: Masks)
    ensures (forall i :: 0 <= i < |run| ==> IsPlain(run[i])) ==> Apart(k)
  {
    if run == [] then NO_MASKS
    else
      var k := Fold(run[..|run| - 1]);
      AddApart(k, run[|run| - 1]);
      Add(k, run[|run| - 1])
  }

  lemma AddApart(k: Masks, c: BitCmd)
    ensures Apart(k) && IsPlain(c) ==> Apart(Add(k, c))
  {
    if IsPlain(c) {
      AddApplies(k, c, {}, false);
    }
  }

  function One(op: char, bits: Mode): seq<BitCmd> {
    if bits == {} then [] else [BitCmd(op, NO_FLAGS, bits)]
  }

  /** The commands for masks: at most one of each kind, in this order. */
  function Emit(k: Masks): (r: seq<BitCmd>)
    ensures |r| <= 3 && forall i :: 0 <= i < |r| ==> IsPlain(r[i])
  {
    One('-', k.clr) + One('+', k.set_) + One('X', k.x)
  }

  /** A list, up to its end, with every run of plain commands replaced by what it comes to. */
  function Squeezed(cmds: seq<BitCmd>): seq<BitCmd>
    decreases |cmds|
  {
    if cmds == [] then []
    else if cmds[0].cmd == END then [cmds[0]]
    else if !IsPlain(cmds[0]) then [cmds[0]] + Squeezed(cmds[1..])
    else
      var n := RunLength(cmds);
      Emit(Fold(cmds[..n])) + Squeezed(cmds[n..])
  }

  // ----- the meaning is kept -----

  lemma {:induction false} ResultJoin(a: seq<BitCmd>, b: seq<BitCmd>, m: Mode, exec: bool)
    requires forall k :: 0 <= k < |a| ==> IsPlain(a[k])
    ensures Result(a + b, m, exec) == Result(b, Result(a, m, exec), exec)
  {
    if a == [] {
      assert a + b == b;
    } else {
      assert (a + b)[1..] == a[1..] + b;
      ResultJoin(a[1..], b, Apply(a[0], m, exec), exec);
    }
  }

  lemma {:induction false} FoldMeans(run: seq<BitCmd>, m: Mode, exec: bool)
    requires forall k :: 0 <= k < |run| ==> IsPlain(run[k])
    ensures Result(run, m, exec) == ApplyMasks(Fold(run), m, exec)
  {
    if run != [] {
      var front, c := run[..|run| - 1], run[|run| - 1];
      FoldMeans(front, m, exec);
      ResultJoin(front, [c], m, exec);
      assert front + [c] == run;
      var n := Result(front, m, exec);
      assert Result([c], n, exec) == Result([c][1..], Apply(c, n, exec), exec) == Apply(c, n, exec);
      AddApplies(Fold(front), c, m, exec);
    }
  }

  lemma OneMeans(op: char, bits: Mode, m: Mode, exec: bool)
    requires IsPlain(BitCmd(op, NO_FLAGS, bits))
    ensures Result(One(op, bits), m, exec) == Apply(BitCmd(op, NO_FLAGS, bits), m, exec)
  {
    if bits != {} {
      var c := BitCmd(op, NO_FLAGS, bits);
      assert Result([c], m, exec) == Result([c][1..], Apply(c, m, exec), exec);
    }
  }

  lemma EmitMeans(k: Masks, m: Mode, exec: bool)
    ensures Result(Emit(k), m, exec) == ApplyMasks(k, m, exec)
  {
    var a, b, c := One('-', k.clr), One('+', k.set_), One('X', k.x);
    ResultJoin(a + b, c, m, exec);
    ResultJoin(a, b, m, exec);
    OneMeans('-', k.clr, m, exec);
    OneMeans('+', k.set_, m - k.clr, exec);
    OneMeans('X', k.x, (m - k.clr) + k.set_, exec);
  }

  /** Compressing keeps the result for every list, every mode and every kind of file. */
  lemma {:induction false} SqueezedMeans(cmds: seq<BitCmd>, m: Mode, exec: bool)
    ensures Result(Squeezed(cmds), m, exec) == Result(cmds, m, exec)
    decreases |cmds|
  {
    hide Emit, Fold, Apply;
    if cmds == [] || cmds[0].cmd == END {
    } else if !IsPlain(cmds[0]) {
      assert Squeezed(cmds)[1..] == Squeezed(cmds[1..]);
      SqueezedMeans(cmds[1..], Apply(cmds[0], m, exec), exec);
    } else {
      var n := RunLength(cmds);
      var run, rest := cmds[..n], cmds[n..];
      assert run + rest == cmds;
      SqueezedMeans(rest, Result(run, m, exec), exec);
      ResultJoin(run, rest, m, exec);
      ResultJoin(Emit(Fold(run)), Squeezed(rest), m, exec);
      FoldMeans(run, m, exec);
      EmitMeans(Fold(run), m, exec);
    }
  }

  // ----- how short it gets -----

  function Kind(c: BitCmd): int {
    if c.cmd == '-' then 0 else if c.cmd == '+' then 1 else if c.cmd == 'X' then 2 else 3
  }

  /** Neighbouring plain commands are of different kinds, in the order clear, set, set for the executable. */
  predicate Short(cmds: seq<BitCmd>) {
    forall i :: 0 <= i < |cmds| - 1 && IsPlain(cmds[i]) && IsPlain(cmds[i + 1]) ==> Kind(cmds[i]) < Kind(cmds[i + 1])
  }

  /** After compressing, plain commands stand together by three at most, one of a kind. */
  lemma {:induction false} SqueezedShort(cmds: seq<BitCmd>)
    ensures Short(Squeezed(cmds))
    ensures cmds != [] && !IsPlain(cmds[0]) ==> Squeezed(cmds) != [] && !IsPlain(Squeezed(cmds)[0])
    decreases |cmds|
  {
    if cmds == [] || cmds[0].cmd == END {
    } else if !IsPlain(cmds[0]) {
      SqueezedShort(cmds[1..]);
    } else {
      var n := RunLength(cmds);
      SqueezedShort(cmds[n..]);
      ShortJoin(Emit(Fold(cmds[..n])), Squeezed(cmds[n..]));
    }
  }

  lemma ShortJoin(a: seq<BitCmd>, b: seq<BitCmd>)
    requires Short(a) && Short(b) && (b != [] ==> !IsPlain(b[0]))
    ensures Short(a + b)
  {
    var s := a + b;
    forall i | 0 <= i < |s| - 1 && IsPlain(s[i]) && IsPlain(s[i + 1])
      ensures Kind(s[i]) < Kind(s[i + 1])
    {
      if i >= |a| {
        assert s[i] == b[i - |a|] && s[i + 1] == b[i - |a| + 1];
      }
    }
  }

  lemma ShortRuns(cmds: seq<BitCmd>, i: nat)
    requires Short(cmds) && i + 3 < |cmds|
    ensures !(IsPlain(cmds[i]) && IsPlain(cmds[i + 1]) && IsPlain(cmds[i + 2]) && IsPlain(cmds[i + 3]))
  {
    if IsPlain(cmds[i]) && IsPlain(cmds[i + 1]) && IsPlain(cmds[i + 2]) {
      assert Kind(cmds[i]) < Kind(cmds[i + 1]);
      assert Kind(cmds[i + 1]) < Kind(cmds[i + 2]);
    }
  }

  /** The commands for masks come to the same masks. */
  lemma FoldEmit(k: Masks)
    requires Apart(k)
    ensures Fold(Emit(k)) == k
  {
    var a, b, c := One('-', k.clr), One('+', k.set_), One('X', k.x);
    FoldOne([], '-', k.clr, NO_MASKS);
    assert [] + a == a && NO_MASKS == Fold([]);
    var k1 := Masks(k.clr, {}, {});
    FoldOne(a, '+', k.set_, k1);
    var k2 := Masks(k.clr, k.set_, {});
    assert k.clr - k.set_ == k.clr;
    FoldOne(a + b, 'X', k.x, k2);
    assert k.x - k.set_ == k.x;
  }

  lemma FoldOne(front: seq<BitCmd>, op: char, bits: Mode, k: Masks)
    requires Fold(front) == k && (op == '-' || op == '+' || op == 'X')
    ensures Fold(front + One(op, bits)) == Add(k, BitCmd(op, NO_FLAGS, bits))
  {
    if bits == {} {
      assert front + One(op, bits) == front;
      assert Add(k, BitCmd(op, NO_FLAGS, bits)) == k;
    } else {
      var c := BitCmd(op, NO_FLAGS, bits);
      assert (front + [c])[..|front|] == front;
    }
  }

  lemma {:induction false} RunLengthIs(a: seq<BitCmd>, b: seq<BitCmd>)
    requires (forall k :: 0 <= k < |a| ==> IsPlain(a[k])) && (b != [] ==> !IsPlain(b[0]))
    ensures RunLength(a + b) == |a|
  {
    if a == [] {
      assert a + b == b;
    } else {
      assert (a + b)[1..] == a[1..] + b;
      RunLengthIs(a[1..], b);
    }
  }

  /** Compressing once is enough. */
  lemma {:induction false} SqueezedTwice(cmds: seq<BitCmd>)
    ensures Squeezed(Squeezed(cmds)) == Squeezed(cmds)
    decreases |cmds|
  {
    hide Emit, Fold, One;
    if cmds == [] || cmds[0].cmd == END {
    } else if !IsPlain(cmds[0]) {
      SqueezedTwice(cmds[1..]);
      assert Squeezed(cmds)[1..] == Squeezed(cmds[1..]);
    } else {
      var n := RunLength(cmds);
      SqueezedTwice(cmds[n..]);
      SqueezedShort(cmds[n..]);
      SqueezedAgain(Fold(cmds[..n]), Squeezed(cmds[n..]));
    }
  }

  lemma SqueezedAgain(k: Masks, rest: seq<BitCmd>)
    requires Apart(k) && Squeezed(rest) == rest && (rest != [] ==> !IsPlain(rest[0]))
    ensures Squeezed(Emit(k) + rest) == Emit(k) + rest
  {
    hide Emit, One;
    var e := Emit(k);
    RunLengthIs(e, rest);
    FoldEmit(k);
    assert (e + rest)[..|e|] == e && (e + rest)[|e|..] == rest;
    if e == [] {
      assert e + rest == rest;
    } else {
      assert IsPlain((e + rest)[0]);
    }
  }

  // ----- the code -----

  /** Some command ends the list. */
  predicate Ended(cmds: seq<BitCmd>) {
    exists k :: 0 <= k < |cmds| && cmds[k].cmd == END
  }

  /** The case of a copying command in getmode. */
  method Copy(c: BitCmd, mode: Mode) returns (newmode: Mode)
    requires IsCopy(c)
    ensures newmode == Copied(c, mode)
  {
    newmode := mode;
    var value := if c.cmd == 'u' then Right(newmode * S_IRWXU, 6)
                 else if c.cmd == 'g' then Right(newmode * S_IRWXG, 3) else newmode * S_IRWXO;
    if c.cmd2.clr {
      var clrval := if c.cmd2.set_ then S_IRWXO else value;
      if c.cmd2.ubits {
        newmode := newmode - Left(clrval, 6) * c.bits;
      }
      if c.cmd2.gbits {
        newmode := newmode - Left(clrval, 3) * c.bits;
      }
      if c.cmd2.obits {
        newmode := newmode - clrval * c.bits;
      }
      assert newmode == mode - Spread(clrval, c.cmd2) * c.bits;
    }
    if c.cmd2.set_ {
      ghost var cleared := newmode;
      if c.cmd2.ubits {
        newmode := newmode + Left(value, 6) * c.bits;
      }
      if c.cmd2.gbits {
        newmode := newmode + Left(value, 3) * c.bits;
      }
      if c.cmd2.obits {
        newmode := newmode + value * c.bits;
      }
      assert newmode == cleared + Spread(value, c.cmd2) * c.bits;
    }
  }

  /** getmode */
  method GetMode(bbox: array<BitCmd>, omode: Mode) returns (newmode: Mode)
    requires Ended(bbox[..])
    ensures newmode == Result(bbox[..], omode, Executable(omode))
  {
    hide Copied, Executable;
    ghost var k :| 0 <= k < |bbox[..]| && bbox[..][k].cmd == END;
    newmode := omode;
    var set_ := 0;
    assert bbox[0..] == bbox[..];
    while true
      invariant 0 <= set_ <= k < bbox.Length
      invariant Result(bbox[..], omode, Executable(omode)) == Result(bbox[set_..], newmode, Executable(omode))
      decreases k - set_
    {
      var c := bbox[set_];
      assert bbox[set_..][0] == c && bbox[set_..][1..] == bbox[set_ + 1..];
      if IsCopy(c) {
        newmode := Copy(c, newmode);
      } else if c.cmd == '+' {
        newmode := newmode + c.bits;
      } else if c.cmd == '-' {
        newmode := newmode - c.bits;
      } else if c.cmd == 'X' {
        if Executable(omode) {
          newmode := newmode + c.bits;
        }
      } else {
        return;
      }
      set_ := set_ + 1;
    }
  }

  /** How many masks are not empty. */
  function Weight(k: Masks): nat {
    (if k.clr != {} then 1 else 0) + (if k.set_ != {} then 1 else 0) + (if k.x != {} then 1 else 0)
  }

  lemma AddWeight(k: Masks, c: BitCmd)
    ensures Weight(Add(k, c)) <= Weight(k) + 1
  {
  }

  lemma CollectStart(s: seq<BitCmd>, start: nat)
    requires start <= |s|
    ensures Fold(s[start..start]) == NO_MASKS && Weight(NO_MASKS) == 0
  {
  }

  /** One more command of the run from `start` on. */
  lemma CollectStep(s: seq<BitCmd>, start: nat, n: nat)
    requires start <= n < |s|
    ensures IsPlain(s[n]) ==> Fold(s[start..n + 1]) == Add(Fold(s[start..n]), s[n])
    ensures IsPlain(s[n]) ==> n + RunLength(s[n..]) == n + 1 + RunLength(s[n + 1..])
    ensures !IsPlain(s[n]) ==> RunLength(s[n..]) == 0
  {
    var tail, run := s[n..], s[start..n + 1];
    assert tail[0] == s[n] && tail[1..] == s[n + 1..];
    assert run[..|run| - 1] == s[start..n] && run[|run| - 1] == s[n];
  }

  /** The inner loop of compress_mode: the masks of the run of plain commands at `start`. */
  method Collect(set_: array<BitCmd>, start: nat, ghost e: nat) returns (k: Masks, nset: nat)
    requires start <= e < set_.Length && set_[e].cmd == END
    ensures start <= nset <= e && nset == start + RunLength(set_[..][start..]) && k == Fold(set_[..][start..nset])
    ensures Weight(k) <= nset - start
  {
    hide Fold, RunLength, Weight;
    CollectStart(set_[..], start);
    nset := start;
    var clrbits: Mode, setbits: Mode, xbits: Mode := {}, {}, {};
    while true
      invariant start <= nset <= e && Masks(clrbits, setbits, xbits) == Fold(set_[..][start..nset])
      invariant nset + RunLength(set_[..][nset..]) == start + RunLength(set_[..][start..])
      invariant Weight(Masks(clrbits, setbits, xbits)) <= nset - start
      decreases e - nset
    {
      var c := set_[nset];
      CollectStep(set_[..], start, nset);
      AddWeight(Masks(clrbits, setbits, xbits), c);
      if c.cmd == '-' {
        clrbits, setbits, xbits := clrbits + c.bits, setbits - c.bits, xbits - c.bits;
      } else if c.cmd == '+' {
        setbits, clrbits, xbits := setbits + c.bits, clrbits - c.bits, xbits - c.bits;
      } else if c.cmd == 'X' {
        xbits := xbits + (c.bits - setbits);
      } else {
        return Masks(clrbits, setbits, xbits), nset;
      }
      nset := nset + 1;
    }
  }

  /** Puts a command for a mask that is not empty. */
  method Put(set_: array<BitCmd>, w: nat, op: char, bits: Mode) returns (w': nat)
    requires w + |One(op, bits)| <= set_.Length
    modifies set_
    ensures w' == w + |One(op, bits)| && set_[..w'] == old(set_[..w]) + One(op, bits)
    ensures forall k :: w' <= k < set_.Length ==> set_[k] == old(set_[k])
  {
    w' := w;
    if bits != {} {
      set_[w] := BitCmd(op, NO_FLAGS, bits);
      w' := w + 1;
    }
  }

  method PutMasks(set_: array<BitCmd>, w: nat, k: Masks) returns (w': nat)
    requires w + Weight(k) <= set_.Length
    modifies set_
    ensures w' == w + Weight(k) && set_[..w'] == old(set_[..w]) + Emit(k)
    ensures forall k :: w' <= k < set_.Length ==> set_[k] == old(set_[k])
  {
    w' := Put(set_, w, '-', k.clr);
    w' := Put(set_, w', '+', k.set_);
    w' := Put(set_, w', 'X', k.x);
    assert |Emit(k)| == Weight(k);
  }

  /** The list `s` has been read up to `r` and written, compressed, to the first `w` places of `t`. */
  ghost predicate Compressing(s: seq<BitCmd>, t: seq<BitCmd>, w: nat, r: nat) {
    && w <= r <= |s| == |t| && (forall k :: r <= k < |s| ==> t[k] == s[k])
    && Squeezed(s) == t[..w] + Squeezed(s[r..])
  }

  lemma SqueezedCopy(cmds: seq<BitCmd>)
    requires cmds != [] && !IsPlain(cmds[0])
    ensures Squeezed(cmds) == [cmds[0]] + if cmds[0].cmd == END then [] else Squeezed(cmds[1..])
  {
  }

  lemma SqueezedRun(cmds: seq<BitCmd>)
    requires cmds != [] && IsPlain(cmds[0])
    ensures var n := RunLength(cmds); Squeezed(cmds) == Emit(Fold(cmds[..n])) + Squeezed(cmds[n..])
  {
  }

  lemma StepCopy(s: seq<BitCmd>, t: seq<BitCmd>, w: nat, r: nat)
    requires Compressing(s, t, w, r) && r < |s| && !IsPlain(t[r])
    ensures var t' := t[w := t[r]];
            if t[r].cmd == END then Squeezed(s) == t'[..w + 1] else Compressing(s, t', w + 1, r + 1)
  {
    hide Squeezed, IsPlain;
    var t', c, tail := t[w := t[r]], t[r], s[r..];
    SqueezedCopy(tail);
    assert tail[0] == c && tail[1..] == s[r + 1..];
    Appended(t, w, c, if c.cmd == END then [] else Squeezed(s[r + 1..]));
  }

  lemma Appended(t: seq<BitCmd>, w: nat, c: BitCmd, x: seq<BitCmd>)
    requires w < |t|
    ensures t[..w] + ([c] + x) == t[w := c][..w + 1] + x && t[w := c][..w + 1] + [] == t[w := c][..w + 1]
  {
    assert t[w := c][..w + 1] == t[..w] + [c];
  }

  lemma StepRun(s: seq<BitCmd>, t: seq<BitCmd>, t': seq<BitCmd>, w: nat, r: nat, w': nat, n: nat)
    requires Compressing(s, t, w, r) && r < |s| && IsPlain(s[r]) && r <= n <= |s| == |t'| && w' <= n
    requires n == r + RunLength(t[r..]) && t'[..w'] == t[..w] + Emit(Fold(t[r..n]))
    requires forall k :: n <= k < |s| ==> t'[k] == t[k]
    ensures Compressing(s, t', w', n)
  {
    hide Emit, Fold, Squeezed, RunLength;
    SqueezedRun(s[r..]);
    assert t[r..] == s[r..] && t[r..n] == s[r..][..n - r] && s[n..] == s[r..][n - r..];
    assert s[r..][0] == s[r];
  }

  /** compress_mode: in place, the writing place never ahead of the reading place. */
  method CompressMode(set_: array<BitCmd>)
    requires Ended(set_[..])
    modifies set_
    ensures |Squeezed(old(set_[..]))| <= set_.Length
    ensures set_[..|Squeezed(old(set_[..]))|] == Squeezed(old(set_[..]))
  {
    hide Emit, Fold, Weight, Squeezed;
    ghost var s := set_[..];
    ghost var e :| 0 <= e < |s| && s[e].cmd == END;
    var nset: nat, w: nat := 0, 0;
    assert s[0..] == s;
    while true
      invariant nset <= e && Compressing(s, set_[..], w, nset)
      decreases e - nset
    {
      ghost var t := set_[..];
      assert t[e] == s[e] && t[nset] == s[nset];
      if !IsPlain(set_[nset]) {
        StepCopy(s, t, w, nset);
        var c := set_[nset];
        set_[w] := c;
        w, nset := w + 1, nset + 1;
        if c.cmd == END {
          return;
        }
      } else {
        ghost var r, w0 := nset, w;
        var k;
        k, nset := Collect(set_, nset, e);
        w := PutMasks(set_, w, k);
        StepRun(s, t, set_[..], w0, r, w, nset);
      }
    }
  }
}

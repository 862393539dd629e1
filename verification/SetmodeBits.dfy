/** The commands of bsdlibc/gen/setmode.c and what they do to a file mode. */
module SetmodeBits {
  /** A mask or a mode is the set of the numbers of its one bits. */
  type Mode = set<nat>

  const S_IRWXU: Mode := {6, 7, 8}
  const S_IRWXG: Mode := {3, 4, 5}
  const S_IRWXO: Mode := {0, 1, 2}
  const S_IRUSR: nat := 8
  const S_IRGRP: nat := 5
  const S_IROTH: nat := 2
  const S_ANYX: Mode := {6, 3, 0}            // execution for user, group and others
  const S_IFDIR: nat := 14
  const STANDARD_BITS: Mode := {11, 10, 8, 7, 6, 5, 4, 3, 2, 1, 0}  // the set-id bits and the permissions
  const ALL_BITS: Mode := {0, 1, 2, 3, 4, 5, 6, 7, 8, 9, 10, 11, 12, 13, 14, 15}

  /** The flags of cmd2. */
  datatype Flags = Flags(clr: bool, set_: bool, gbits: bool, obits: bool, ubits: bool)

  const NO_FLAGS := Flags(false, false, false, false, false)

  datatype BitCmd = BitCmd(cmd: char, cmd2: Flags, bits: Mode)

  /** May be executed or is a directory. */
  predicate Executable(m: Mode) {
    S_IFDIR in m || m * S_ANYX != {}
  }

  /** The number that a mode is in the file system. */
  function Value(m: Mode): nat {
(if 0 in m then 1 else 0) + (if 1 in m then 2 else 0) + (if 2 in m then 4 else 0) +
    (if 3 in m then 8 else 0) + (if 4 in m then 16 else 0) + (if 5 in m then 32 else 0) +
    (if 6 in m then 64 else 0) + (if 7 in m then 128 else 0) + (if 8 in m then 256 else 0) +
    (if 9 in m then 512 else 0) + (if 10 in m then 1024 else 0) + (if 11 in m then 2048 else 0) +
    (if 12 in m then 4096 else 0) + (if 13 in m then 8192 else 0) + (if 14 in m then 16384 else 0) +
    (if 15 in m then 32768 else 0)
  }

  /** The masks of <sys/stat.h>, 0700, 0070, 0007, 0400, 0040, 0004, 0111, 0040000 and 06777. */
  lemma MaskValues()
    ensures Value(S_IRWXU) == 448 && Value(S_IRWXG) == 56 && Value(S_IRWXO) == 7
    ensures Value({S_IRUSR}) == 256 && Value({S_IRGRP}) == 32 && Value({S_IROTH}) == 4
    ensures Value(S_ANYX) == 73 && Value({S_IFDIR}) == 16384
    ensures Value(STANDARD_BITS) == 3583 && Value(ALL_BITS) == 65535
  {
  }

  /** A file may be executed if one of the bits 0111 is set, and 0040000 stands for a directory. */
  lemma ExecutableBits(m: Mode)
    ensures Executable(m) <==> 14 in m || 6 in m || 3 in m || 0 in m
  {
    var x := m * S_ANYX;
    assert 6 in m || 3 in m || 0 in m ==> 6 in x || 3 in x || 0 in x;
    assert !(6 in m || 3 in m || 0 in m) ==> x == {};
  }

  function Left(m: Mode, k: nat): Mode {
    set b | b in m :: b + k
  }

  function Right(m: Mode, k: nat): Mode {
    set b | b in m && b >= k :: b - k
  }

  predicate IsPlain(c: BitCmd) {
    c.cmd == '+' || c.cmd == '-' || c.cmd == 'X'
  }

  predicate IsCopy(c: BitCmd) {
    c.cmd == 'u' || c.cmd == 'g' || c.cmd == 'o'
  }

  /** The three bits that a copying command takes from the mode. */
  function Source(cmd: char, m: Mode): Mode {
    if cmd == 'u' then Right(m * S_IRWXU, 6) else if cmd == 'g' then Right(m * S_IRWXG, 3) else m * S_IRWXO
  }

  /** Three bits at the places that a copying command is for. */
  function Spread(v: Mode, f: Flags): Mode {
    (if f.ubits then Left(v, 6) else {}) + (if f.gbits then Left(v, 3) else {}) + (if f.obits then v else {})
  }

  /** A copying command's effect. */
  function Copied(c: BitCmd, m: Mode): Mode {
    var value := Source(c.cmd, m);
    var clrval := if c.cmd2.set_ then S_IRWXO else value;
    var cleared := if c.cmd2.clr then m - Spread(clrval, c.cmd2) * c.bits else m;
    if c.cmd2.set_ then cleared + Spread(value, c.cmd2) * c.bits else cleared
  }

  function Apply(c: BitCmd, m: Mode, exec: bool): Mode {
    if c.cmd == '+' then m + c.bits
    else if c.cmd == '-' then m - c.bits
    else if c.cmd == 'X' then (if exec then m + c.bits else m)
    else Copied(c, m)
  }

  /** The mode after the commands up to the first that is none; `exec` tells of the mode before all of them. */
  function Result(cmds: seq<BitCmd>, m: Mode, exec: bool): Mode {
    if cmds == [] || !(IsPlain(cmds[0]) || IsCopy(cmds[0])) then m
    else Result(cmds[1..], Apply(cmds[0], m, exec), exec)
  }

  // ----- a run of plain commands as three masks -----

  datatype Masks = Masks(clr: Mode, set_: Mode, x: Mode)

  function Add(k: Masks, c: BitCmd): Masks {
    if c.cmd == '-' then Masks(k.clr + c.bits, k.set_ - c.bits, k.x - c.bits)
    else if c.cmd == '+' then Masks(k.clr - c.bits, k.set_ + c.bits, k.x - c.bits)
    else Masks(k.clr, k.set_, k.x + (c.bits - k.set_))
  }

  const NO_MASKS := Masks({}, {}, {})

  /** Clear, then set, then set for the executable. */
  function ApplyMasks(k: Masks, m: Mode, exec: bool): Mode {
    (m - k.clr) + k.set_ + if exec then k.x else {}
  }

  /** No bit is both cleared and set, nor set twice. */
  predicate Apart(k: Masks) {
    k.clr !! k.set_ && k.set_ !! k.x
  }

  /** One more command in the run. */
  lemma AddApplies(k: Masks, c: BitCmd, m: Mode, exec: bool)
    requires IsPlain(c)
    ensures ApplyMasks(Add(k, c), m, exec) == Apply(c, ApplyMasks(k, m, exec), exec)
    ensures Apart(k) ==> Apart(Add(k, c))
  {
  }

  // ----- the commands that addcmd makes -----

  function AddCmd(op: char, who: Mode, oparg: Mode, mask: Mode): seq<BitCmd> {
    var allowed := (if who != {} then who else mask) * oparg;
    if op == '=' then
      [BitCmd('-', NO_FLAGS, if who != {} then who else STANDARD_BITS), BitCmd('+', NO_FLAGS, allowed)]
    else [BitCmd(op, NO_FLAGS, allowed)]
  }

  function CopyCmd(op: char, who: Mode, oparg: char, mask: Mode): BitCmd {
    var clr, set_ := oparg == '-' || oparg == '=', oparg == '+' || oparg == '=';
    if who == {} then BitCmd(op, Flags(clr, set_, true, true, true), mask)
    else BitCmd(op, Flags(clr, set_, S_IRGRP in who, S_IROTH in who, S_IRUSR in who), ALL_BITS)
  }

  /** An assignment gives the named classes exactly the bits asked for, and leaves the rest alone. */
  lemma AssignMeans(who: Mode, oparg: Mode, mask: Mode, m: Mode, exec: bool)
    ensures var cleared := if who != {} then who else STANDARD_BITS;
            var r := Result(AddCmd('=', who, oparg, mask), m, exec);
            r == (m - cleared) + oparg * (if who != {} then who else mask)
  {
    var cs := AddCmd('=', who, oparg, mask);
    assert cs[1..] == [cs[1]] && cs[1..][1..] == [];
    var n := Apply(cs[0], m, exec);
    assert Result(cs, m, exec) == Result(cs[1..], n, exec);
    assert Result(cs[1..], n, exec) == Result([], Apply(cs[1], n, exec), exec);
  }

  /** Is permission bit `b` in a class that a copying command names?  The code looks at the class's bit for reading. */
  predicate Named(who: Mode, b: nat) {
    b < 9 && (who == {} || (if b < 3 then S_IROTH else if b < 6 then S_IRGRP else S_IRUSR) in who)
  }

  /**
   A copying command, bit by bit: in the classes named (all, as far as the mask allows, if none is) a bit takes
   the value that the source class has at its place, or is set or cleared where the source class has it set.
   */
  lemma CopyMeans(op: char, who: Mode, oparg: char, mask: Mode, m: Mode, exec: bool, b: nat)
    requires op == 'u' || op == 'g' || op == 'o'
    requires oparg == '=' || oparg == '+' || oparg == '-'
    ensures var from := if op == 'u' then 6 else if op == 'g' then 3 else 0;
            b in Apply(CopyCmd(op, who, oparg, mask), m, exec) <==>
            if Named(who, b) && (who == {} ==> b in mask)
            then match oparg case '=' => b % 3 + from in m
                             case '+' => b in m || b % 3 + from in m
                             case '-' => b in m && b % 3 + from !in m
            else b in m
  {
    hide Source, Spread;
    var c, v := CopyCmd(op, who, oparg, mask), Source(op, m);
    SourceIs(op, m, if op == 'u' then 6 else if op == 'g' then 3 else 0);
    SpreadIs(v, c.cmd2, b);
    SpreadIs(S_IRWXO, c.cmd2, b);
    CopiedIs(c, m, v, b);
  }

  lemma CopiedIs(c: BitCmd, m: Mode, v: Mode, b: nat)
    requires IsCopy(c) && v == Source(c.cmd, m)
    ensures b in Copied(c, m) <==>
            || (c.cmd2.set_ && b in Spread(v, c.cmd2) && b in c.bits)
            || (b in m && !(c.cmd2.clr && b in Spread(if c.cmd2.set_ then S_IRWXO else v, c.cmd2) && b in c.bits))
  {
    hide Source, Spread;
  }

  lemma SourceIs(op: char, m: Mode, from: nat)
    requires (op == 'u' && from == 6) || (op == 'g' && from == 3) || (op == 'o' && from == 0)
    ensures forall b :: b in Source(op, m) <==> b in S_IRWXO && b + from in m
  {
    forall b | b in S_IRWXO && b + from in m
      ensures b in Source(op, m)
    {
      assert b + from in m * (if op == 'u' then S_IRWXU else if op == 'g' then S_IRWXG else S_IRWXO);
    }
  }

  lemma LeftIs(v: Mode, k: nat, b: nat)
    ensures b in Left(v, k) <==> b >= k && b - k in v
  {
    if b >= k && b - k in v {
      assert (b - k) + k == b;
    }
  }

  lemma SpreadIs(v: Mode, f: Flags, b: nat)
    requires v <= S_IRWXO
    ensures b in Spread(v, f) <==>
            b < 9 && (if b < 3 then f.obits else if b < 6 then f.gbits else f.ubits) && b % 3 in v
  {
    LeftIs(v, 6, b);
    LeftIs(v, 3, b);
  }
}

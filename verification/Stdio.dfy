/** putc, _flsbuf, fflush, setvbuf and fwrite of bsdlibc/stdio on a stream open for writing. */
module Stdio {
  const BUFSIZ: int := 1024
  const NEWLINE: int := '\n' as int

  datatype Buffering = Full | Line | Unbuffered

  class Stream {
    var cnt: int
    var ptr: nat               // offset from the base
    var base: array?<int>
    var bufsiz: int
    var mode: Buffering
    const blksize: nat         // what fstat says of the file, zero for nothing
    const room: nat            // the largest buffer that malloc finds room for
    var device: seq<int>       // what has been written to the file
    ghost var accepted: seq<int>  // every byte that was ever given to the stream

    /** The bytes that wait in the buffer. */
    ghost function Pending(): seq<int>
      reads `base, `ptr, base
      requires base != null ==> ptr <= base.Length
    {
      if base == null then [] else base[..ptr]
    }

    /** The counter as each way of buffering keeps it. */
    ghost predicate Counted()
      reads `base, `ptr, `cnt, `bufsiz, `mode, base
    {
      && (base != null ==> base.Length == bufsiz >= 1 && ptr <= bufsiz)
      && (base == null ==> ptr == 0 && cnt == 0 && mode != Line)
      && (mode == Unbuffered ==> base == null)
      && (mode == Line ==> ptr < bufsiz && cnt + ptr == 0 && NEWLINE !in base[..ptr])
      && (mode == Full && base != null ==> cnt >= 0 && (cnt + ptr == bufsiz || (cnt == 0 && ptr == 0)))
    }

    /** Nothing is lost, doubled or out of order: the device's bytes and the waiting ones are all that were given. */
    ghost predicate Valid()
      reads this, base
    {
      Counted() && device + Pending() == accepted
    }

    constructor (blksize: nat, room: nat)
      ensures Valid() && accepted == [] && mode == Full && base == null
    {
      this.blksize, this.room := blksize, room;
      cnt, ptr, base, bufsiz, mode := 0, 0, null, 0, Full;
      device, accepted := [], [];
    }

    /** write, which takes all it is given */
    method Write(bytes: seq<int>)
      modifies `device
      ensures device == old(device) + bytes
    {
      device := device + bytes;
    }

    /** _flsbuf in line mode: stores the byte, and writes all when the buffer is full or the line ends. */
    method FlsBufLine(c: int)
      requires mode == Line && base != null && base.Length == bufsiz && ptr < bufsiz
      modifies `ptr, `cnt, `device, base
      ensures base == old(base) && base.Length == bufsiz
      ensures var all := old(Pending()) + [c];
              if old(ptr) + 1 >= bufsiz || c == NEWLINE then ptr == 0 && cnt == 0 && device == old(device) + all
              else ptr == old(ptr) + 1 && cnt == old(cnt) && device == old(device) && Pending() == all
    {
      base[ptr] := c;
      ptr := ptr + 1;
      assert base[..ptr] == old(base[..ptr]) + [c];
      if ptr >= bufsiz || c == NEWLINE {
        Write(base[..ptr]);
        ptr := 0;
        cnt := 0;
      }
    }

    /** _flsbuf without a buffer */
    method FlsBufNone(c: int)
      modifies `cnt, `device
      ensures cnt == 0 && device == old(device) + [c]
    {
      Write([c]);
      cnt := 0;
    }

    /** _flsbuf in full mode, with a buffer: writes what waits and keeps the byte. */
    method FlsBufFull(c: int)
      requires base != null && base.Length == bufsiz >= 1 && ptr <= bufsiz
      modifies `ptr, `cnt, `device, base
      ensures base == old(base) && base.Length == bufsiz && ptr == 1 && cnt == bufsiz - 1
      ensures device == old(device) + old(Pending()) && Pending() == [c]
    {
      if ptr > 0 {
        Write(base[..ptr]);
        ptr := 0;
      }
      cnt := bufsiz - 1;
      base[0] := c;
      ptr := 1;
    }

    /** Gives the stream the buffer that it begins without, or makes it unbuffered for want of memory. */
    method Allocate()
      requires mode == Full && base == null && ptr == 0
      modifies `base, `bufsiz, `mode
      ensures var size := if blksize == 0 then BUFSIZ else blksize;
              if size <= room then mode == Full && fresh(base) && base != null && base.Length == bufsiz == size
              else mode == Unbuffered && base == null
    {
      var size := if blksize == 0 then BUFSIZ else blksize;
      if size <= room {
        base := new int[size];
        bufsiz := size;
      } else {
        mode := Unbuffered;
      }
    }

    /** _flsbuf, called with the counter already run down. */
    method FlsBuf(c: int)
      requires Rundown() && device + Pending() == accepted
      modifies this, base
      ensures Valid() && accepted == old(accepted) + [c] && (base == old(base) || (old(base) == null && fresh(base)))
      ensures mode == old(mode) ||
        (old(mode) == Full && mode == Unbuffered && old(base) == null &&
          room < if blksize == 0 then BUFSIZ else blksize)
      ensures mode == Full && base != null ==> cnt == bufsiz - 1 && ptr == 1
    {
      ghost var before, waiting := device, Pending();
      assert before + (waiting + [c]) == accepted + [c];
      if mode == Line {
        FlsBufLine(c);
      } else if mode == Unbuffered {
        FlsBufNone(c);
      } else {
        if base == null {
          Allocate();
        }
        if mode == Unbuffered {
          FlsBufNone(c);
        } else {
          FlsBufFull(c);
        }
      }
      accepted := accepted + [c];
    }

    /** The state in which putc and fwrite call _flsbuf. */
    ghost predicate Rundown()
      reads `base, `ptr, `cnt, `bufsiz, `mode, base
    {
      && (base != null ==> base.Length == bufsiz >= 1 && ptr <= bufsiz)
      && (base == null ==> ptr == 0 && mode != Line)
      && (mode == Unbuffered ==> base == null)
      && (mode == Line ==> ptr < bufsiz && cnt + ptr + 1 == 0 && NEWLINE !in base[..ptr])
    }

    /** putc */
    method Putc(x: int)
      requires Valid()
      modifies this, base
      ensures Valid() && accepted == old(accepted) + [x] && (base == old(base) || (old(base) == null && fresh(base)))
    {
      cnt := cnt - 1;
      if cnt >= 0 {
        Keep(x);
      } else if mode == Line && -cnt < bufsiz {
        base[ptr] := x;
        assert base[..ptr] == old(base[..ptr]);
        if base[ptr] != NEWLINE {
          assert base[..ptr + 1] == base[..ptr] + [x];
          assert device + (old(Pending()) + [x]) == accepted + [x];
          ptr := ptr + 1;
          accepted := accepted + [x];
        } else {
          FlsBuf(base[ptr]);
        }
      } else {
        FlsBuf(x);
      }
    }

    /** Stores a byte in the buffer. */
    method Keep(x: int)
      requires mode == Full && base != null && base.Length == bufsiz && ptr < bufsiz && cnt + ptr + 1 == bufsiz
      requires cnt >= 0
      requires device + Pending() == accepted
      modifies `ptr, `accepted, base
      ensures Valid() && accepted == old(accepted) + [x]
    {
      base[ptr] := x;
      assert base[..ptr + 1] == old(base[..ptr]) + [x];
      assert device + (old(Pending()) + [x]) == accepted + [x];
      ptr := ptr + 1;
      accepted := accepted + [x];
    }

    /** fflush: everything given so far is on the device. */
    method Fflush()
      requires Valid()
      modifies this
      ensures Valid() && accepted == old(accepted) && device == accepted
      ensures base == old(base) && mode == old(mode) && bufsiz == old(bufsiz) && ptr == 0
    {
      if mode != Unbuffered && base != null && ptr > 0 {
        var n := ptr;
        ptr := 0;
        cnt := if mode == Line then 0 else bufsiz;
        Write(base[..n]);
      }
    }

    /** The buffer that setvbuf finds when the caller brings none: of the size asked for, or else of the usual size. */
    method FindBuffer(size: int) returns (buf: array?<int>, ret: int)
      requires size >= 1
      ensures ret == if size <= room then 0 else -1
      ensures if size <= room || BUFSIZ <= room
              then buf != null && fresh(buf) && buf.Length == (if size <= room then size else BUFSIZ)
              else buf == null
    {
      buf, ret := null, 0;
      if size <= room {
        buf := new int[size];
      } else {
        ret := -1;
        if size != BUFSIZ && BUFSIZ <= room {
          buf := new int[BUFSIZ];
        }
      }
    }

    /**
     setvbuf: what was given before is on the device, and the new way of buffering begins with nothing waiting,
     in the caller's buffer, in one of the size asked for or the usual size, or without any.  The result is 0
     if the request was honoured, else -1.
     */
    method SetVBuf(how: Buffering, buf: array?<int>, size: int) returns (ret: int)
      requires Valid() && (buf != null && size > 0 ==> buf.Length == size)
      modifies this
      ensures Valid() && accepted == old(accepted)
      ensures how != Unbuffered && size < 0 ==> ret == -1 && unchanged(this)
      ensures how == Unbuffered ==> ret == 0 && device == accepted && mode == Unbuffered
      ensures how != Unbuffered && size >= 0 ==>
        && device == accepted && ptr == 0
        && var asked := if size == 0 then BUFSIZ else size;
           if buf != null && size > 0 then ret == 0 && mode == how && base == buf
           else if asked <= room then ret == 0 && mode == how && fresh(base) && bufsiz == asked
           else if BUFSIZ <= room then ret == -1 && mode == how && fresh(base) && bufsiz == BUFSIZ
           else ret == -1 && mode == Unbuffered
    {
      if how != Unbuffered && size < 0 {
        return -1;
      }
      Fflush();
      cnt, bufsiz, ret := 0, 0, 0;
      if how == Unbuffered {
        mode, base, ptr := Unbuffered, null, 0;
        return;
      }
      var b := if size == 0 then null else buf;
      if b == null {
        b, ret := FindBuffer(if size == 0 then BUFSIZ else size);
        if b == null {
          mode, base, ptr := Unbuffered, null, 0;
          return;
        }
      }
      mode, base, ptr, bufsiz := how, b, 0, b.Length;
    }

    /** bcopy into the buffer */
    method CopyIn(bytes: seq<int>)
      requires mode == Full && base != null && base.Length == bufsiz && ptr + |bytes| <= bufsiz
      requires device + Pending() == accepted
      modifies `ptr, `accepted, base
      ensures ptr == old(ptr) + |bytes| && Pending() == old(Pending()) + bytes
      ensures accepted == old(accepted) + bytes && device + Pending() == accepted
    {
      ghost var before, p := base[..ptr], ptr;
      for k := 0 to |bytes|
        invariant ptr == p && base == old(base) && accepted == old(accepted) && base[..p + k] == before + bytes[..k]
      {
        base[ptr + k] := bytes[k];
        assert base[..p + k + 1] == before + bytes[..k] + [bytes[k]];
        assert bytes[..k + 1] == bytes[..k] + [bytes[k]];
      }
      assert bytes[..|bytes|] == bytes;
      assert device + (before + bytes) == accepted + bytes;
      ptr := ptr + |bytes|;
      accepted := accepted + bytes;
    }

    /** The line-buffered loop of fwrite. */
    method FwriteLine(bytes: seq<int>)
      requires Valid() && mode == Line
      modifies this, base
      ensures Valid() && mode == Line && accepted == old(accepted) + bytes && base == old(base)
    {
      for k := 0 to |bytes|
        invariant Valid() && mode == Line && base == old(base) && accepted == old(accepted) + bytes[..k]
      {
        ghost var s0 := accepted;
        FwriteByte(bytes[k]);
        assert bytes[..k + 1] == bytes[..k] + [bytes[k]];
      }
      assert bytes[..|bytes|] == bytes;
    }

    method FwriteByte(c: int)
      requires Valid() && mode == Line
      modifies this, base
      ensures Valid() && mode == Line && accepted == old(accepted) + [c] && base == old(base)
    {
      cnt := cnt - 1;
      if cnt > -bufsiz && c != NEWLINE {
        base[ptr] := c;
        assert base[..ptr + 1] == old(base[..ptr]) + [c];
        assert device + (old(Pending()) + [c]) == accepted + [c];
        ptr := ptr + 1;
        accepted := accepted + [c];
      } else {
        FlsBuf(c);
      }
    }

    /** The first half of fwrite's block loop: fills the buffer up, and hands one more byte to _flsbuf. */
    method FillUp(bytes: seq<int>, k: nat) returns (k': nat)
      requires Valid() && mode != Line && k < |bytes| && cnt < |bytes| - k
      modifies this, base
      ensures Valid() && mode != Line && k < k' <= |bytes| && accepted == old(accepted) + bytes[k..k']
      ensures base == old(base) || (old(base) == null && fresh(base))
    {
      k' := k;
      if cnt > 0 {
        CopyIn(bytes[k..k + cnt]);
        k' := k + cnt;
      }
      FlsBuf(bytes[k']);
      assert bytes[k..k' + 1] == bytes[k..k'] + [bytes[k']];
      k' := k' + 1;
    }

    /** The second half: all that is left fits the buffer. */
    method CopyRest(bytes: seq<int>)
      requires Valid() && mode != Line && cnt >= |bytes|
      modifies this, base
      ensures Valid() && accepted == old(accepted) + bytes && base == old(base)
    {
      if |bytes| > 0 {
        CopyIn(bytes);
        cnt := cnt - |bytes|;
      }
    }

    /** The block loop of fwrite. */
    method FwriteBlock(bytes: seq<int>)
      requires Valid() && mode != Line
      modifies this, base
      ensures Valid() && accepted == old(accepted) + bytes && (base == old(base) || (old(base) == null && fresh(base)))
    {
      hide Valid;
      var k := 0;
      while k < |bytes|
        invariant 0 <= k <= |bytes| && Valid() && mode != Line && accepted == old(accepted) + bytes[..k]
        invariant base == old(base) || (old(base) == null && fresh(base))
        decreases |bytes| - k
      {
        if cnt < |bytes| - k {
          var j := k;
          k := FillUp(bytes, k);
          assert bytes[..k] == bytes[..j] + bytes[j..k];
        }
        if cnt >= |bytes| - k {
          assert bytes == bytes[..k] + bytes[k..];
          CopyRest(bytes[k..]);
          return;
        }
      }
      assert bytes[..k] == bytes;
    }

    /** fwrite, with the `size * count` bytes at its pointer */
    method Fwrite(bytes: seq<int>, size: nat, count: nat) returns (n: int)
      requires Valid() && |bytes| == size * count
      modifies this, base
      ensures Valid() && accepted == old(accepted) + bytes && n == if size == 0 then 0 else count
      ensures base == old(base) || (old(base) == null && fresh(base))
    {
      if mode == Line {
        FwriteLine(bytes);
      } else {
        FwriteBlock(bytes);
      }
      n := if size != 0 then count - (0 + size - 1) / size else 0;
      Rounded(size);
    }

    lemma Rounded(size: nat)
      ensures size != 0 ==> (size - 1) / size == 0
    {
    }

    /** In line mode every finished line is on the device, and without a buffer every byte is. */
    lemma LinesOut()
      requires Valid()
      ensures mode == Line ==> forall k :: 0 <= k < |accepted| && accepted[k] == NEWLINE ==> k < |device|
      ensures mode == Unbuffered ==> device == accepted
      ensures device <= accepted && |accepted| - |device| <= if base == null then 0 else bufsiz
    {
      forall k | 0 <= k < |accepted| && accepted[k] == NEWLINE && k >= |device|
        ensures mode != Line
      {
        assert Pending()[k - |device|] == NEWLINE;
      }
    }
  }
}

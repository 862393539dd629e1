/** dcalchash of bsdlibc/gen/ndbm.c: the hash of a key, in the 32 bits of a long. */
module NdbmHash {
  import opened NdbmPage

  const LONG: int := 0x1_0000_0000

  function Hitab(): (t: seq<nat>)
    ensures |t| == 16
  {
    [61, 57, 53, 49, 45, 41, 37, 33, 29, 25, 21, 17, 13, 9, 5, 1]
  }

  /** The second table, in rows of eight. */
  function Hltab(): (t: seq<seq<nat>>)
    ensures |t| == 8 && forall r {:trigger t[r]} :: 0 <= r < 8 ==> |t[r]| == 8
  {
    [[0x3100D2BF, 0x3118E3DE, 0x34AB1372, 0x2807A847, 0x1633F566, 0x2143B359, 0x26D56488, 0x3B9E6F59],
     [0x37755656, 0x3089CA7B, 0x18E92D85, 0x0CD0E9D8, 0x1A9E3B54, 0x3EAA902F, 0x0D9BFAAE, 0x2F32B45B],
     [0x31ED6102, 0x3D3C8398, 0x146660E3, 0x0F8D4B76, 0x02C77A5F, 0x146C8799, 0x1C47F51F, 0x249F8F36],
     [0x24772043, 0x1FBC1E4D, 0x1E86B3FA, 0x37DF36A6, 0x16ED30E4, 0x02C3148E, 0x216E5929, 0x0636B34E],
     [0x317F9F56, 0x15F09D70, 0x131026FB, 0x38C784B1, 0x29AC3305, 0x2B485DC5, 0x3C049DDC, 0x35A9FBCD],
     [0x31D5373B, 0x2B246799, 0x0A2923D3, 0x08A96E9D, 0x30031A9F, 0x08F525B5, 0x33611C06, 0x2409DB98],
     [0x0CA4FEB2, 0x1000B71E, 0x30566E32, 0x39447D31, 0x194E3752, 0x08233A95, 0x0F38FE36, 0x29C7CD57],
     [0x0F7B3A39, 0x328E8A16, 0x1E7D1388, 0x0FBA78F5, 0x274C7E7C, 0x1E8BE65C, 0x2FA0B0BB, 0x1EB6C371]]
  }

  function Entry(i: nat): nat
    requires i < 64
  {
    Hltab()[i / 8][i % 8]
  }

  /** The two running sums of the hash. */
  datatype Sums = Sums(hashl: nat, hashi: nat)

  /** Four more bits of the key. */
  function AddNibble(s: Sums, c: nat): Sums
    requires c < 16
  {
    var hashi := s.hashi + Hitab()[c];
    Sums((s.hashl + Entry(hashi % 64)) % LONG, hashi)
  }

  /** One more byte, its low half first. */
  function AddByte(s: Sums, c: byte): Sums {
    AddNibble(AddNibble(s, c % 16), c / 16)
  }

  function Sum(key: seq<byte>): Sums {
    if key == [] then Sums(0, 0) else AddByte(Sum(key[..|key| - 1]), key[|key| - 1])
  }

  function Dcalchash(key: seq<byte>): nat {
    Sum(key).hashl
  }

  method DcalcHash(item: seq<byte>) returns (hashl: nat)
    ensures hashl == Dcalchash(item)
  {
    hide AddNibble;
    var s := Sums(0, 0);
    for i := 0 to |item|
      invariant s == Sum(item[..i])
    {
      assert item[..i + 1][..i] == item[..i];
      var c: int := item[i];
      ghost var before := s;
      for j := 0 to 2
        invariant j == 0 ==> s == before && c == item[i]
        invariant j == 1 ==> s == AddNibble(before, item[i] % 16) && c == item[i] / 16
        invariant j == 2 ==> s == AddByte(before, item[i])
      {
        s := AddNibble(s, c % 16);
        c := c / 16;
      }
    }
    assert item[..|item|] == item;
    hashl := s.hashl;
  }

  lemma SumMore(key: seq<byte>, c: byte)
    ensures Sum(key + [c]) == AddByte(Sum(key), c)
  {
    assert (key + [c])[..|key|] == key;
  }

  /** The keys "aco" and "bbn" have the same hash. */
  lemma SameHash(k: seq<byte>, l: seq<byte>)
    requires k == [97, 99, 111] && l == [98, 98, 110]
    ensures Dcalchash(k) == Dcalchash(l) == 0xC327BD7B
  {
    hide AddByte, Sum;
    ThreeBytes(97, 99, 111);
    ThreeBytes(98, 98, 110);
    FirstKeyBytes();
    SecondKeyBytes();
  }

  lemma FirstKeyBytes()
    ensures AddByte(Sums(0, 0), 97) == Sums(0x53FCE33F, 94)
    ensures AddByte(Sums(0x53FCE33F, 94), 99) == Sums(0x9C7DCEEC, 180)
    ensures AddByte(Sums(0x9C7DCEEC, 180), 111) == Sums(0xC327BD7B, 218)
  {
    hide Hitab, Entry;
    Entries();
  }

  lemma SecondKeyBytes()
    ensures AddByte(Sums(0, 0), 98) == Sums(0x26A9EE8F, 90)
    ensures AddByte(Sums(0x26A9EE8F, 90), 98) == Sums(0x6F2ADA3C, 180)
    ensures AddByte(Sums(0x6F2ADA3C, 180), 110) == Sums(0xC327BD7B, 222)
  {
    hide Hitab, Entry;
    Entries();
  }

  /** The entries of the tables that these two keys lead to. */
  lemma Entries()
    ensures var t := Hitab();
            && t[1] == 57 && t[2] == 53 && t[3] == 49 && t[6] == 37 && t[14] == 5 && t[15] == 1
    ensures Entry(15) == 0x2F32B45B && Entry(26) == 0x1E86B3FA && Entry(30) == 0x216E5929
    ensures Entry(52) == 0x194E3752 && Entry(53) == 0x08233A95 && Entry(57) == 0x328E8A16
  {
  }

  lemma ThreeBytes(a: byte, b: byte, c: byte)
    ensures Sum([a, b, c]) == AddByte(AddByte(AddByte(Sums(0, 0), a), b), c)
  {
    SumMore([], a);
    SumMore([a], b);
    SumMore([a, b], c);
    assert [] + [a] == [a] && [a] + [b] == [a, b] && [a, b] + [c] == [a, b, c];
  }

  lemma OneByte(a: byte)
    ensures Dcalchash([a]) == AddByte(Sums(0, 0), a).hashl
  {
    SumMore([], a);
    assert [] + [a] == [a];
  }

  /** The hashes of "a", "d" and "f". */
  lemma LetterHashes()
    ensures Dcalchash([97]) == 0x53FCE33F && Dcalchash([100]) == 0x1D5B8698 && Dcalchash([102]) == 0x44318B4A
  {
    hide Sum, Dcalchash, AddByte;
    OneByte(97);
    OneByte(100);
    OneByte(102);
    FirstKeyBytes();
    MoreBytes();
  }

  lemma MoreBytes()
    ensures AddByte(Sums(0, 0), 100) == Sums(0x1D5B8698, 82)
    ensures AddByte(Sums(0, 0), 102) == Sums(0x44318B4A, 74)
  {
    hide Hitab, Entry;
    MoreEntries();
  }

  lemma MoreEntries()
    ensures Hitab()[4] == 45 && Hitab()[6] == 37
    ensures Entry(45) == 0x08F525B5 && Entry(18) == 0x146660E3 && Entry(37) == 0x2B485DC5 && Entry(10) == 0x18E92D85
  {
  }
}

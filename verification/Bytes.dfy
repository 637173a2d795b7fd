/** Bytes, fixed-width integers and the memory image of a host that is either
    little- or big-endian. */
module Bytes {

  type byte = x: int | 0 <= x < 0x100
  type uint16 = x: int | 0 <= x < 0x1_0000
  type uint32 = x: int | 0 <= x < 0x1_0000_0000
  type Address = a: seq<byte> | |a| == 16 witness seq(16, _ => 0)

  datatype Option<+T> = None | Some(value: T)

  /** Byte order of the machine the program runs on. */
  datatype Host = LittleEndian | BigEndian

  // ---- network byte order ----

  function Be16(v: uint16): (s: seq<byte>)
    ensures |s| == 2
  {
    [v / 0x100, v % 0x100]
  }

  function Be32(v: uint32): (s: seq<byte>)
    ensures |s| == 4
  {
    Be16(v / 0x1_0000) + Be16(v % 0x1_0000)
  }

  function FromBe16(s: seq<byte>, off: nat): uint16
    requires off + 2 <= |s|
  {
    0x100 * s[off] as int + s[off + 1]
  }

  function FromBe32(s: seq<byte>, off: nat): uint32
    requires off + 4 <= |s|
  {
    FromBe16(s, off) * 0x1_0000 + FromBe16(s, off + 2)
  }

  // ---- host byte order ----

  /** The two bytes a host writes for a 16-bit value. */
  function Store16(host: Host, v: uint16): (s: seq<byte>)
    ensures |s| == 2
  {
    match host
    case LittleEndian => [v % 0x100, v / 0x100]
    case BigEndian => [v / 0x100, v % 0x100]
  }

  /** The four bytes a host writes for a 32-bit value. */
  function Store32(host: Host, v: uint32): (s: seq<byte>)
    ensures |s| == 4
  {
    match host
    case LittleEndian => Store16(host, v % 0x1_0000) + Store16(host, v / 0x1_0000)
    case BigEndian => Store16(host, v / 0x1_0000) + Store16(host, v % 0x1_0000)
  }

  /** The 16-bit value a host reads at `off`. */
  function Load16(host: Host, s: seq<byte>, off: nat): uint16
    requires off + 2 <= |s|
  {
    match host
    case LittleEndian => 0x100 * s[off + 1] as int + s[off]
    case BigEndian => 0x100 * s[off] as int + s[off + 1]
  }

  /** The 32-bit value a host reads at `off`. */
  function Load32(host: Host, s: seq<byte>, off: nat): uint32
    requires off + 4 <= |s|
  {
    match host
    case LittleEndian => Load16(host, s, off + 2) * 0x1_0000 + Load16(host, s, off)
    case BigEndian => Load16(host, s, off) * 0x1_0000 + Load16(host, s, off + 2)
  }

  function Swap16(v: uint16): uint16 {
    v % 0x100 * 0x100 + v / 0x100
  }

  function Swap32(v: uint32): uint32 {
    Swap16(v % 0x1_0000) * 0x1_0000 + Swap16(v / 0x1_0000)
  }

  /** `htobe16` and `be16toh`: the same permutation of the bytes. */
  function HToBe16(host: Host, v: uint16): uint16 {
    if host.LittleEndian? then Swap16(v) else v
  }

  /** `htobe32` and `be32toh`. */
  function HToBe32(host: Host, v: uint32): uint32 {
    if host.LittleEndian? then Swap32(v) else v
  }

  /** What each byte order means. */
  lemma ByteOrders()
    ensures Be16(0x0102) == [1, 2] && Be32(0x0102_0304) == [1, 2, 3, 4]
    ensures Store16(BigEndian, 0x0102) == [1, 2] && Store32(BigEndian, 0x0102_0304) == [1, 2, 3, 4]
    ensures Store16(LittleEndian, 0x0102) == [2, 1] && Store32(LittleEndian, 0x0102_0304) == [4, 3, 2, 1]
    ensures Load16(LittleEndian, [2, 1], 0) == 0x0102 && Load32(LittleEndian, [4, 3, 2, 1], 0) == 0x0102_0304
    ensures Load16(BigEndian, [1, 2], 0) == 0x0102 && Load32(BigEndian, [1, 2, 3, 4], 0) == 0x0102_0304
    ensures FromBe16([1, 2], 0) == 0x0102 && FromBe32([1, 2, 3, 4], 0) == 0x0102_0304
    ensures Swap16(0x0102) == 0x0201 && Swap32(0x0102_0304) == 0x0403_0201
  {
  }

  lemma PairParts(hi: byte, lo: byte)
    ensures (0x100 * hi as int + lo) / 0x100 == hi && (0x100 * hi as int + lo) % 0x100 == lo
  {
  }

  lemma Swap16Twice(v: uint16)
    ensures Swap16(Swap16(v)) == v
  {
    var hi, lo := v / 0x100, v % 0x100;
    assert Swap16(v) / 0x100 == lo && Swap16(v) % 0x100 == hi;
  }

  lemma Halves(hi: uint16, lo: uint16)
    ensures (hi * 0x1_0000 + lo) / 0x1_0000 == hi && (hi * 0x1_0000 + lo) % 0x1_0000 == lo
  {
  }

  lemma Swap32Twice(v: uint32)
    ensures Swap32(Swap32(v)) == v
  {
    Halves(Swap16(v % 0x1_0000), Swap16(v / 0x1_0000));
    Swap16Twice(v % 0x1_0000);
    Swap16Twice(v / 0x1_0000);
  }

  /** Storing a converted value always leaves the network-order bytes in
      memory, whatever the host. */
  lemma StoreConverted16(host: Host, v: uint16)
    ensures Store16(host, HToBe16(host, v)) == Be16(v)
  {
  }

  lemma StoreConverted32(host: Host, v: uint32)
    ensures Store32(host, HToBe32(host, v)) == Be32(v)
  {
    Halves(Swap16(v % 0x1_0000), Swap16(v / 0x1_0000));
    StoreConverted16(host, v % 0x1_0000);
    StoreConverted16(host, v / 0x1_0000);
  }

  /** Converting a value read from memory yields the network-order value. */
  lemma LoadConverted16(host: Host, s: seq<byte>, off: nat)
    requires off + 2 <= |s|
    ensures HToBe16(host, Load16(host, s, off)) == FromBe16(s, off)
  {
  }

  lemma LoadConverted32(host: Host, s: seq<byte>, off: nat)
    requires off + 4 <= |s|
    ensures HToBe32(host, Load32(host, s, off)) == FromBe32(s, off)
  {
    if host.LittleEndian? {
      Halves(Load16(host, s, off + 2), Load16(host, s, off));
      LoadConverted16(host, s, off);
      LoadConverted16(host, s, off + 2);
    }
  }

  lemma FromBe32OfBe32(s: seq<byte>, off: nat, v: uint32)
    requires off + 4 <= |s| && s[off..off + 4] == Be32(v)
    ensures FromBe32(s, off) == v
  {
    var t := s[off..off + 4];
    assert t[0] == s[off] && t[1] == s[off + 1] && t[2] == s[off + 2] && t[3] == s[off + 3];
  }

  lemma FromBe16OfBe16(s: seq<byte>, off: nat, v: uint16)
    requires off + 2 <= |s| && s[off..off + 2] == Be16(v)
    ensures FromBe16(s, off) == v
  {
    var t := s[off..off + 2];
    assert t[0] == s[off] && t[1] == s[off + 1];
  }

  lemma Be16OfFromBe16(s: seq<byte>, off: nat)
    requires off + 2 <= |s|
    ensures Be16(FromBe16(s, off)) == s[off..off + 2]
  {
  }

  lemma Be32OfFromBe32(s: seq<byte>, off: nat)
    requires off + 4 <= |s|
    ensures Be32(FromBe32(s, off)) == s[off..off + 4]
  {
    Halves(FromBe16(s, off), FromBe16(s, off + 2));
  }

  // ---- byte strings and buffers ----

  /** `m` with the bytes from `off` on replaced by `s`. */
  function Patch(m: seq<byte>, off: nat, s: seq<byte>): (r: seq<byte>)
    requires off + |s| <= |m|
    ensures |r| == |m|
    ensures r[..off] == m[..off] && r[off..off + |s|] == s && r[off + |s|..] == m[off + |s|..]
  {
    m[..off] + s + m[off + |s|..]
  }

  lemma Slice(b: seq<byte>, o: nat, e: nat, i: nat, j: nat)
    requires o <= e <= |b| && i <= j <= e - o
    ensures b[o..e][i..j] == b[o + i..o + j]
  {
    var s, t := b[o..e][i..j], b[o + i..o + j];
    assert forall k :: 0 <= k < j - i ==> s[k] == b[o..e][i + k] == b[o + i + k] == t[k];
    assert s == t;
  }

  lemma Parts(a: seq<byte>, b: seq<byte>)
    ensures (a + b)[..|a|] == a && (a + b)[|a|..] == b
  {
    assert (a + b)[..|a|] == a;
    assert (a + b)[|a|..] == b;
  }

  function Concat(ss: seq<seq<byte>>): seq<byte> {
    if ss == [] then [] else ss[0] + Concat(ss[1..])
  }

  lemma {:induction false} ConcatSplit(a: seq<seq<byte>>, b: seq<seq<byte>>)
    ensures Concat(a + b) == Concat(a) + Concat(b)
  {
    if a == [] {
      assert a + b == b;
    } else {
      assert (a + b)[1..] == a[1..] + b;
      ConcatSplit(a[1..], b);
    }
  }

  lemma ConcatSnoc(a: seq<seq<byte>>, s: seq<byte>)
    ensures Concat(a + [s]) == Concat(a) + s
  {
    ConcatSplit(a, [s]);
    assert Concat([s]) == s + Concat([]) == s;
  }

  /** `memcpy` into a buffer. */
  method Copy(a: array<byte>, off: nat, s: seq<byte>)
    requires off + |s| <= a.Length
    modifies a
    ensures a[..] == Patch(old(a[..]), off, s)
    ensures a[..off + |s|] == old(a[..off]) + s
  {
    forall i | 0 <= i < |s| {
      a[off + i] := s[i];
    }
  }
}

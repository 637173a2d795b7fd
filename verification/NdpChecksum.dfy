/** The ICMPv6 checksum of a Router Advertisement as the builder computes it,
    against the checksum of RFC 4443, section 2.3, over the pseudo-header of
    RFC 8200, section 8.1. */
module NdpChecksum {
  import opened Bytes
  import opened OnesComplement

  /** C's `int` on the supported targets; its range is checked at every step. */
  newtype int32 = x: int | -0x8000_0000 <= x < 0x8000_0000

  const NEXT_HEADER_ICMPV6: byte := 58

  /** One fold suffices after adding one word. */
  lemma FoldStep(a: uint16, b: uint16)
    ensures a + b <= 0x1_FFFE
    ensures EndAround(a, b) == if (a + b) / 0x1_0000 != 0 then (a + b) % 0x1_0000 + (a + b) / 0x1_0000 else a + b
  {
  }

  /** Sums `size` bytes as host-order words, folding after every addition.
      `buf` is the value the result location had before the call.  For a
      non-negative `int`, masking with 0xFFFF0000, masking with 0xFFFF and
      shifting right by 16 are tests and results of division by 0x1_0000. */
  method ChecksumCalCore(host: Host, buf: int32, data: array<byte>, size: nat) returns (code: int32, sum: int32)
    requires size <= data.Length
    ensures size % 2 == 1 ==> code == -1 && sum == buf
    ensures size % 2 == 0 ==> code == 0 && sum as int == Sum(host, data[..size])
  {
    hide EndAround, Load16;
    if size % 2 == 1 {
      return -1, buf;
    }
    ghost var ws := Words(host, data[..size]);
    sum := 0;
    for i := 0 to size / 2
      invariant 0 <= sum <= 0xFFFF
      invariant sum as int == Ones(Total(ws[..i]))
    {
      var word := Load16(host, data[..size], 2 * i);
      sum := sum + word as int32;
      if sum / 0x1_0000 != 0 {
        sum := sum % 0x1_0000 + sum / 0x1_0000;
      }
      FoldStep(Ones(Total(ws[..i])), word);
      assert ws[..i + 1][..i] == ws[..i];
      OnesAdd(Total(ws[..i]), word);
      assert Ones(word) == word;
    }
    assert ws[..size / 2] == ws;
    return 0, sum;
  }

  // ---- pseudo-headers ----

  /** The pseudo-header of RFC 8200, section 8.1. */
  function RfcHeader(src: Address, dst: Address, length: uint32): (h: seq<byte>)
    ensures |h| == 40
  {
    src + dst + Be32(length) + [0, 0, 0, NEXT_HEADER_ICMPV6]
  }

  /** The pseudo-header the program builds: the length is in host order. */
  function BuiltHeader(host: Host, src: Address, dst: Address, length: uint32): (h: seq<byte>)
    ensures |h| == 40
  {
    src + dst + Store32(host, length) + [0, 0, 0, NEXT_HEADER_ICMPV6]
  }

  /** `size_t` to `uint32_t`. */
  function Truncate32(size: nat): uint32 {
    size % 0x1_0000_0000
  }

  /** The one's complement sum over pseudo-header and message. */
  function RfcSum(src: Address, dst: Address, message: seq<byte>): uint16 {
    Sum(BigEndian, RfcHeader(src, dst, Truncate32(|message|)) + message)
  }

  /** RFC 4443, section 2.3, for a message whose checksum field is zero. */
  function Icmpv6Checksum(src: Address, dst: Address, message: seq<byte>): uint16 {
    0xFFFF - RfcSum(src, dst, message)
  }

  /** A receiver's test: the sum over everything, checksum included. */
  predicate Accepts(src: Address, dst: Address, message: seq<byte>) {
    RfcSum(src, dst, message) == 0xFFFF
  }

  // ---- what the program returns ----

  function HeaderSum(host: Host, src: Address, dst: Address, length: uint32): uint16 {
    Sum(host, BuiltHeader(host, src, dst, length))
  }

  /** Zero for an odd size: the body sum is then left at its initial value. */
  function BodySum(host: Host, message: seq<byte>): uint16 {
    if |message| % 2 == 1 then 0 else Sum(host, message)
  }

  /** `~(a + b) & 0xFFFF`. */
  function Complement(a: uint16, b: uint16): uint16 {
    0xFFFF - (a + b) % 0x1_0000
  }

  function ReturnedChecksum(host: Host, src: Address, dst: Address, message: seq<byte>): uint16 {
    Complement(HeaderSum(host, src, dst, Truncate32(|message|)), BodySum(host, message))
  }

  function ZeroedField(packet: seq<byte>): (r: seq<byte>)
    requires |packet| >= 4
    ensures |r| == |packet|
  {
    Patch(packet, 2, [0, 0])
  }

  /** `packet` null or `size` zero fails; otherwise the checksum field is zeroed,
      nothing else is written, and the complement of the unfolded sum of the two
      partial sums is returned. */
  method Checksum(host: Host, src: Address, dst: Address, packet: array?<byte>, size: nat) returns (code: int32)
    requires packet != null && size != 0 ==> packet.Length >= 4 && size <= packet.Length
    modifies packet
    ensures packet == null || size == 0 ==> code == -1 && (packet != null ==> packet[..] == old(packet[..]))
    ensures packet != null && size != 0 ==>
              && packet[..] == ZeroedField(old(packet[..]))
              && code as int == ReturnedChecksum(host, src, dst, packet[..size])
  {
    hide Sum, Store32, Be16, Be32;
    if packet == null || size == 0 {
      return -1;
    }
    Copy(packet, 2, Store16(host, 0));
    var image := BuiltHeader(host, src, dst, Truncate32(size));
    var header := new byte[40](i requires 0 <= i < 40 => image[i]);
    assert header[..40] == image;
    var _, sumHeader := ChecksumCalCore(host, 0, header, 40);
    var _, sumBody := ChecksumCalCore(host, 0, packet, size);
    // ~x & 0xFFFF
    return 0xFFFF - (sumHeader + sumBody) % 0x1_0000;
  }

  // ---- the length word in host order ----

  function HalfSum(length: uint32): nat {
    length / 0x1_0000 + length % 0x1_0000
  }

  lemma HeaderTotals(host: Host, src: Address, dst: Address, field: seq<byte>)
    requires |field| == 4
    ensures var h := src + dst + field + [0, 0, 0, NEXT_HEADER_ICMPV6];
            && Total(Words(host, h)) == Total(Words(host, src + dst)) + Total(Words(host, field)) + HToBe16(host, 58)
            && Total(Words(host, h)) > 0
  {
    var tail: seq<byte> := [0, 0, 0, NEXT_HEADER_ICMPV6];
    SumSplit(host, src + dst + field, tail);
    SumSplit(host, src + dst, field);
    TwoWords(host, tail);
  }

  lemma TwoWords(host: Host, field: seq<byte>)
    requires |field| == 4
    ensures Total(Words(host, field)) == Load16(host, field, 0) + Load16(host, field, 2)
  {
    var ws := Words(host, field);
    assert ws[..1][..0] == [] && Total(ws[..1]) == Total(ws[..1][..0]) + ws[0];
  }

  /** The built header and the required one differ only by a multiple of 255
      times the sum of the two halves of the length, modulo 0xFFFF. */
  lemma HeaderDifference(host: Host, src: Address, dst: Address, length: uint32) returns (h: nat, t: nat, q: int)
    ensures h == Total(Words(host, BuiltHeader(host, src, dst, length))) > 0
    ensures t == Total(Words(host, RfcHeader(src, dst, length))) > 0
    ensures t == h + (if host.LittleEndian? then 255 * HalfSum(length) else 0) - 0xFFFF * q
  {
    var hi, lo := length / 0x1_0000, length % 0x1_0000;
    h, t := Total(Words(host, BuiltHeader(host, src, dst, length))), Total(Words(host, RfcHeader(src, dst, length)));
    HeaderTotals(host, src, dst, Store32(host, length));
    HeaderTotals(host, src, dst, Be32(length));
    TwoWords(host, Store32(host, length));
    TwoWords(host, Be32(length));
    q := if host.LittleEndian? then hi / 0x100 + lo / 0x100 else 0;
  }

  /** When the host-order length does no harm. */
  predicate LengthOrderHarmless(host: Host, length: uint32) {
    host.BigEndian? || MultipleOf257(HalfSum(length))
  }

  predicate MultipleOf257(s: nat) {
    s % 257 == 0
  }

  lemma Multiples257(s: nat)
    ensures 255 * s % 0xFFFF == 0 <==> MultipleOf257(s)
    ensures (255 * s + 1) % 0xFFFF != 0
  {
    var r := s % 257;
    assert s == 257 * (s / 257) + r;
    assert 255 * s == 0xFFFF * (s / 257) + 255 * r;
    assert 0 <= 255 * r < 0xFFFF;
    assert 255 * s % 0xFFFF == 255 * r;
    assert (255 * s + 1) % 0xFFFF == 255 * r + 1;
  }

  /** The built pseudo-header has the required sum exactly when the host is
      big-endian or 257 divides the sum of the length's halves. */
  lemma HeaderSumExact(host: Host, src: Address, dst: Address, length: uint32)
    ensures HeaderSum(host, src, dst, length) == Sum(host, RfcHeader(src, dst, length))
            <==> LengthOrderHarmless(host, length)
  {
    var h, t, q := HeaderDifference(host, src, dst, length);
    var d := if host.LittleEndian? then 255 * HalfSum(length) else 0;
    OnesEqual(t, h, d - 0xFFFF * q);
    Shift(d - 0xFFFF * q, d, q);
    Multiples257(HalfSum(length));
  }

  // ---- the missing fold ----

  /** Over the pseudo-header as built, the value returned is the complement of
      the one's complement sum if and only if adding the two partial sums does
      not carry; with a carry it is exactly one too large. */
  lemma MissingFold(host: Host, src: Address, dst: Address, message: seq<byte>)
    requires |message| % 2 == 0
    ensures var length := Truncate32(|message|);
            var carry := HeaderSum(host, src, dst, length) + BodySum(host, message) > 0xFFFF;
            var due := 0xFFFF - Sum(host, BuiltHeader(host, src, dst, length) + message);
            ReturnedChecksum(host, src, dst, message) == if carry then due + 1 else due
  {
    SumSplit(host, BuiltHeader(host, src, dst, Truncate32(|message|)), message);
    ComplementCarry(HeaderSum(host, src, dst, Truncate32(|message|)), BodySum(host, message));
  }

  lemma ComplementCarry(a: uint16, b: uint16)
    ensures Complement(a, b) == 0xFFFF - EndAround(a, b) + if a + b > 0xFFFF then 1 else 0
  {
  }

  predicate NoCarry(host: Host, src: Address, dst: Address, message: seq<byte>) {
    HeaderSum(host, src, dst, Truncate32(|message|)) + BodySum(host, message) <= 0xFFFF
  }

  /** The checksum due, as the host's own word. */
  function Due(host: Host, src: Address, dst: Address, message: seq<byte>): uint16 {
    0xFFFF - Sum(host, RfcHeader(src, dst, Truncate32(|message|)) + message)
  }

  /** Equal as one's complement numbers. */
  predicate Congruent(a: uint16, b: uint16) {
    (a - b) % 0xFFFF == 0
  }

  /** What the unfolded complement of two partial sums is worth when the first
      total should have been `t` instead of `h`. */
  lemma UnfoldedDistance(h: nat, t: nat, b: nat, d: int, q: int) returns (k: int)
    requires t == h + d - 0xFFFF * q
    ensures Complement(Ones(h), Ones(b)) - (0xFFFF - Ones(t + b)) ==
            d + (if Ones(h) + Ones(b) > 0xFFFF then 1 else 0) - 0xFFFF * k
  {
    OnesAdd(h, b);
    var n := OnesDistance(t + b, h + b);
    k := q + n;
  }

  /** Both totals are positive and the carry contributes at most one, so only a
      harmless difference without a carry leaves the value intact. */
  lemma UnfoldedExact(h: nat, t: nat, b: nat, s: nat, little: bool, q: int)
    requires t == h + (if little then 255 * s else 0) - 0xFFFF * q && h > 0 && t > 0
    ensures var r, due := Complement(Ones(h), Ones(b)), 0xFFFF - Ones(t + b);
            var exact := Ones(h) + Ones(b) <= 0xFFFF && (little ==> MultipleOf257(s));
            && (Congruent(r, due) <==> exact)
            && (r == due <==> exact)
  {
    var r, due := Complement(Ones(h), Ones(b)), 0xFFFF - Ones(t + b);
    var d := if little then 255 * s else 0;
    var k := UnfoldedDistance(h, t, b, d, q);
    Multiples257(s);
    Shift(r - due, d + (if Ones(h) + Ones(b) > 0xFFFF then 1 else 0), k);
    TwoZeros(r, due);
    OnesCongruent(h);
    OnesCongruent(t + b);
  }

  lemma Shift(x: int, d: int, k: int)
    requires x == d - 0xFFFF * k
    ensures x % 0xFFFF == d % 0xFFFF
  {
  }

  lemma TwoZeros(a: uint16, b: uint16)
    ensures Congruent(a, b) <==> a == b || (a == 0xFFFF && b == 0) || (a == 0 && b == 0xFFFF)
  {
  }

  lemma UnfoldedHeader(host: Host, src: Address, dst: Address, length: uint32, message: seq<byte>)
    requires |message| % 2 == 0
    ensures var r := Complement(HeaderSum(host, src, dst, length), BodySum(host, message));
            var due := 0xFFFF - Sum(host, RfcHeader(src, dst, length) + message);
            var exact :=
              HeaderSum(host, src, dst, length) + BodySum(host, message) <= 0xFFFF && LengthOrderHarmless(host, length);
            && (Congruent(r, due) <==> exact)
            && (r == due <==> exact)
  {
    hide BuiltHeader, RfcHeader, HalfSum, EndAround;
    var h, t, q := HeaderDifference(host, src, dst, length);
    SumSplit(host, RfcHeader(src, dst, length), message);
    UnfoldedExact(h, t, Total(Words(host, message)), HalfSum(length), host.LittleEndian?, q);
  }

  /** The value returned is the checksum due, even up to the two forms of zero,
      if and only if the partial sums do not carry and the length's order is
      harmless: neither deviation can repair the other. */
  lemma ReturnedIsDue(host: Host, src: Address, dst: Address, message: seq<byte>)
    requires |message| % 2 == 0
    ensures Congruent(ReturnedChecksum(host, src, dst, message), Due(host, src, dst, message))
            <==> NoCarry(host, src, dst, message) && LengthOrderHarmless(host, Truncate32(|message|))
    ensures ReturnedChecksum(host, src, dst, message) == Due(host, src, dst, message)
            <==> NoCarry(host, src, dst, message) && LengthOrderHarmless(host, Truncate32(|message|))
  {
    UnfoldedHeader(host, src, dst, Truncate32(|message|), message);
  }

  // ---- on the wire ----

  /** Stored in host order, the value due is the RFC 4443 checksum in network
      order. */
  lemma DueOnWire(host: Host, src: Address, dst: Address, message: seq<byte>)
    ensures Due(host, src, dst, message) == HToBe16(host, Icmpv6Checksum(src, dst, message))
  {
    HostIndependence(host, RfcHeader(src, dst, Truncate32(|message|)) + message);
    SwapComplement(RfcSum(src, dst, message));
  }

  lemma SwapComplement(v: uint16)
    ensures Swap16(0xFFFF - v) == 0xFFFF - Swap16(v)
  {
  }

  lemma StoreInjective(host: Host, v: uint16, w: uint16)
    requires Store16(host, v) == Store16(host, w)
    ensures v == w
  {
    assert Store16(host, v)[0] == Store16(host, w)[0] && Store16(host, v)[1] == Store16(host, w)[1];
  }

  /** The returned value, stored as a host word, puts the RFC 4443 checksum on
      the wire if and only if the partial sums do not carry and the length's
      order is harmless. */
  lemma ReturnedChecksumExact(host: Host, src: Address, dst: Address, message: seq<byte>)
    requires |message| % 2 == 0
    ensures Store16(host, ReturnedChecksum(host, src, dst, message)) == Be16(Icmpv6Checksum(src, dst, message))
            <==> NoCarry(host, src, dst, message) && LengthOrderHarmless(host, Truncate32(|message|))
  {
    ReturnedIsDue(host, src, dst, message);
    DueOnWire(host, src, dst, message);
    StoreConverted16(host, Icmpv6Checksum(src, dst, message));
    var returned, due := ReturnedChecksum(host, src, dst, message), Due(host, src, dst, message);
    if Store16(host, returned) == Store16(host, due) {
      StoreInjective(host, returned, due);
    }
  }

  /** The first 16-bit word of the checksum field counts once in the total. */
  lemma FieldTotal(prefix: seq<byte>, packet: seq<byte>, v: uint16)
    requires |prefix| % 2 == 0 && |packet| >= 4 && |packet| % 2 == 0
    requires packet == ZeroedField(packet)
    ensures Total(Words(BigEndian, prefix + Patch(packet, 2, Be16(v)))) == Total(Words(BigEndian, prefix + packet)) + v
  {
    var stored := Patch(packet, 2, Be16(v));
    var front := prefix + packet[..2];
    assert prefix + packet == front + ([0, 0] + packet[4..]);
    assert prefix + stored == front + (Be16(v) + packet[4..]);
    SumSplit(BigEndian, front, [0, 0] + packet[4..]);
    SumSplit(BigEndian, front, Be16(v) + packet[4..]);
    SumSplit(BigEndian, [0, 0], packet[4..]);
    SumSplit(BigEndian, Be16(v), packet[4..]);
    OneWord([0, 0]);
    OneWord(Be16(v));
  }

  lemma OneWord(field: seq<byte>)
    requires |field| == 2
    ensures Total(Words(BigEndian, field)) == FromBe16(field, 0)
  {
    var ws := Words(BigEndian, field);
    assert ws[..0] == [];
  }

  /** A receiver accepts exactly the messages whose checksum field holds the
      checksum, as a one's complement number. */
  lemma AcceptsExactly(src: Address, dst: Address, packet: seq<byte>, v: uint16)
    requires |packet| >= 4 && |packet| % 2 == 0 && packet == ZeroedField(packet)
    ensures Accepts(src, dst, Patch(packet, 2, Be16(v))) <==> Congruent(v, Icmpv6Checksum(src, dst, packet))
    ensures Icmpv6Checksum(src, dst, packet) <= 0xFFFE
  {
    AcceptsWithLength(src, dst, Truncate32(|packet|), packet, v);
  }

  lemma AcceptsWithLength(src: Address, dst: Address, length: uint32, packet: seq<byte>, v: uint16)
    requires |packet| >= 4 && |packet| % 2 == 0 && packet == ZeroedField(packet)
    ensures Sum(BigEndian, RfcHeader(src, dst, length) + Patch(packet, 2, Be16(v))) == 0xFFFF
            <==> Congruent(v, 0xFFFF - Sum(BigEndian, RfcHeader(src, dst, length) + packet))
    ensures 1 <= Sum(BigEndian, RfcHeader(src, dst, length) + packet)
  {
    var header := RfcHeader(src, dst, length);
    var n := Total(Words(BigEndian, header + packet));
    assert n > 0 by {
      SumSplit(BigEndian, header, packet);
      var _, t, _ := HeaderDifference(BigEndian, src, dst, length);
    }
    FieldTotal(header, packet, v);
    AcceptedTotal(n, v);
  }

  lemma AcceptedTotal(n: nat, v: uint16)
    requires n > 0
    ensures Ones(n + v) == 0xFFFF <==> Congruent(v, 0xFFFF - Ones(n))
    ensures 1 <= Ones(n)
  {
    OnesAllOnes(n + v);
    OnesCongruent(n);
    var q: nat :| n == Ones(n) + 0xFFFF * q;
    Shift(n + v, v - (0xFFFF - Ones(n)), -1 - q);
  }

  /** Storing the complement of the fully folded sum satisfies the receiver. */
  lemma ReceiverVerifies(src: Address, dst: Address, packet: seq<byte>)
    requires |packet| >= 4 && |packet| % 2 == 0
    ensures Accepts(src, dst, Patch(packet, 2, Be16(Icmpv6Checksum(src, dst, ZeroedField(packet)))))
  {
    var zeroed := ZeroedField(packet);
    var c := Icmpv6Checksum(src, dst, zeroed);
    AcceptsExactly(src, dst, zeroed, c);
    assert Patch(packet, 2, Be16(c)) == Patch(zeroed, 2, Be16(c));
  }

  /** The value returned would satisfy the receiver, had it been stored, under
      the same exact condition. */
  lemma ReturnedAccepted(host: Host, src: Address, dst: Address, packet: seq<byte>)
    requires |packet| >= 4 && |packet| % 2 == 0 && packet == ZeroedField(packet)
    ensures Accepts(src, dst, Patch(packet, 2, Store16(host, ReturnedChecksum(host, src, dst, packet))))
            <==> NoCarry(host, src, dst, packet) && LengthOrderHarmless(host, Truncate32(|packet|))
  {
    var r := ReturnedChecksum(host, src, dst, packet);
    var c := Icmpv6Checksum(src, dst, packet);
    Swap16Twice(r);
    StoreConverted16(host, HToBe16(host, r));
    AcceptsExactly(src, dst, packet, HToBe16(host, r));
    ReturnedIsDue(host, src, dst, packet);
    DueOnWire(host, src, dst, packet);
    CongruentSwap(r, HToBe16(host, c));
    Swap16Twice(c);
  }

  lemma CongruentSwap(a: uint16, b: uint16)
    ensures Congruent(a, b) <==> Congruent(Swap16(a), Swap16(b))
  {
    TwoZeros(a, b);
    TwoZeros(Swap16(a), Swap16(b));
    SwapEnds(a);
    SwapEnds(b);
    if Swap16(a) == Swap16(b) {
      Swap16Twice(a);
      Swap16Twice(b);
    }
  }

  lemma SwapEnds(v: uint16)
    ensures Swap16(v) == 0 <==> v == 0
    ensures Swap16(v) == 0xFFFF <==> v == 0xFFFF
  {
  }

  /** The caller drops the returned value, so the field stays zero; the message
      as built, before a kernel inserts a checksum of its own, is accepted exactly
      when its checksum happens to be zero. */
  lemma DroppedChecksumAccepted(src: Address, dst: Address, packet: seq<byte>)
    requires |packet| >= 4 && |packet| % 2 == 0 && packet == ZeroedField(packet)
    ensures Accepts(src, dst, packet) <==> Icmpv6Checksum(src, dst, packet) == 0
  {
    AcceptsExactly(src, dst, packet, 0);
    TwoZeros(0, Icmpv6Checksum(src, dst, packet));
    assert Patch(packet, 2, Be16(0)) == packet;
  }
}

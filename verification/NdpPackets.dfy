/** Assembly of Router Advertisements in two passes over the options. */
module NdpPackets {
  import opened Bytes
  import opened NdpChecksum
  import NdpOptions

  const ND_ROUTER_ADVERT: byte := 134
  const RA_HEADER_SIZE := 16

  /** ndp_ra_flag_O | (ndp_ra_flag_Prf_High & ndp_ra_flag_R) */
  const RA_FLAGS: byte := 0x48

  /** Header of RFC 4861, section 4.2, with the checksum field zero. */
  function RaHeader(curHopLimit: byte, routerLifetime: uint16, reachableTime: uint32, retransTimer: uint32): (s: seq<byte>)
    ensures |s| == RA_HEADER_SIZE
  {
    [ND_ROUTER_ADVERT, 0, 0, 0, curHopLimit, RA_FLAGS]
    + (Be16(routerLifetime) + Be32(reachableTime) + Be32(retransTimer))
  }

  /** Where RFC 4861, section 4.2, places each field of the header. */
  predicate HeaderFields(s: seq<byte>, curHopLimit: byte, routerLifetime: uint16, reachableTime: uint32, retransTimer: uint32) {
    && |s| >= 16
    && s[0] == 134 && s[1] == 0
    && s[4] == curHopLimit && s[5] == 0x48
    && FromBe16(s, 6) == routerLifetime && FromBe32(s, 8) == reachableTime && FromBe32(s, 12) == retransTimer
  }

  lemma HeaderLayout(curHopLimit: byte, routerLifetime: uint16, reachableTime: uint32, retransTimer: uint32, rest: seq<byte>)
    ensures var s := RaHeader(curHopLimit, routerLifetime, reachableTime, retransTimer) + rest;
            HeaderFields(s, curHopLimit, routerLifetime, reachableTime, retransTimer) && s[2] == 0 && s[3] == 0
  {
    hide Be16, Be32, FromBe32;
    var head: seq<byte> := [ND_ROUTER_ADVERT, 0, 0, 0, curHopLimit, RA_FLAGS];
    var s := RaHeader(curHopLimit, routerLifetime, reachableTime, retransTimer) + rest;
    assert s == head + (Be16(routerLifetime) + (Be32(reachableTime) + (Be32(retransTimer) + rest)));
    assert s[..6] == head;
    assert s[6..8] == Be16(routerLifetime);
    assert s[8..12] == Be32(reachableTime);
    assert s[12..16] == Be32(retransTimer);
    FromBe16OfBe16(s, 6, routerLifetime);
    FromBe32OfBe32(s, 8, reachableTime);
    FromBe32OfBe32(s, 12, retransTimer);
  }

  /** What the builder reads of an option in memory: `8 * Length` octets. */
  function OptionImage(memory: seq<byte>): (r: seq<byte>)
    requires |memory| >= 2 && |memory| >= 8 * memory[1] as int
    ensures r == [] <==> memory[1] == 0
    ensures r == [] || NdpOptions.IsOption(r)
  {
    memory[..8 * memory[1] as int]
  }

  ghost predicate Readable(options: seq<array<byte>>)
    reads set o | o in options
  {
    forall i :: 0 <= i < |options| ==> options[i].Length >= 2 && options[i].Length >= 8 * options[i][1] as int
  }

  ghost function Images(options: seq<array<byte>>): (r: seq<seq<byte>>)
    requires Readable(options)
    reads set o | o in options
    ensures |r| == |options|
  {
    seq(|options|, i requires 0 <= i < |options| && Readable(options) reads set o | o in options => OptionImage(options[i][..]))
  }

  /** First pass: the packet's size. */
  method RaLength(options: seq<array<byte>>) returns (length: nat)
    requires Readable(options)
    ensures length == RA_HEADER_SIZE + |Concat(Images(options))| && length % 8 == 0
  {
    ghost var images := Images(options);
    length := RA_HEADER_SIZE;
    for i := 0 to |options|
      invariant length == RA_HEADER_SIZE + |Concat(images[..i])|
      invariant length % 8 == 0
    {
      length := length + 8 * options[i][1] as int;
      assert images[..i + 1] == images[..i] + [images[i]];
      ConcatSnoc(images[..i], images[i]);
    }
    assert images[..|options|] == images;
  }

  /** Every header octet but the checksum field. */
  method FillRaHeader(host: Host, pkt: array<byte>, curHopLimit: byte, routerLifetime: uint16,
                      reachableTime: uint32, retransTimer: uint32)
    requires pkt.Length >= RA_HEADER_SIZE
    modifies pkt
    ensures ZeroedField(pkt[..16]) == RaHeader(curHopLimit, routerLifetime, reachableTime, retransTimer)
    ensures HeaderFields(pkt[..], curHopLimit, routerLifetime, reachableTime, retransTimer)
  {
    hide Store16, Store32, Be16, Be32, HToBe16, HToBe32, ZeroedField, HeaderFields;
    pkt[0] := ND_ROUTER_ADVERT;
    pkt[1] := 0;
    pkt[4] := curHopLimit;
    pkt[5] := RA_FLAGS;
    ghost var start := pkt[..6];
    StoreConverted16(host, routerLifetime);
    Copy(pkt, 6, Store16(host, HToBe16(host, routerLifetime)));
    StoreConverted32(host, reachableTime);
    Copy(pkt, 8, Store32(host, HToBe32(host, reachableTime)));
    StoreConverted32(host, retransTimer);
    Copy(pkt, 12, Store32(host, HToBe32(host, retransTimer)));
    ghost var body := Be16(routerLifetime) + Be32(reachableTime) + Be32(retransTimer);
    assert pkt[..16] == start + body;
    ZeroedHeader(start, body);
    HeaderLayout(curHopLimit, routerLifetime, reachableTime, retransTimer, pkt[16..]);
    ZeroedStart(pkt[..16], pkt[16..]);
    assert pkt[..16] + pkt[16..] == pkt[..];
    FieldsKept(pkt[..], curHopLimit, routerLifetime, reachableTime, retransTimer);
  }

  lemma FieldsKept(s: seq<byte>, curHopLimit: byte, routerLifetime: uint16, reachableTime: uint32, retransTimer: uint32)
    requires |s| >= 16 && HeaderFields(ZeroedField(s), curHopLimit, routerLifetime, reachableTime, retransTimer)
    ensures HeaderFields(s, curHopLimit, routerLifetime, reachableTime, retransTimer)
  {
    var z := ZeroedField(s);
    assert z[0] == z[..2][0] && z[1] == z[..2][1];
    forall i | 4 <= i < |s|
      ensures z[i] == s[i]
    {
      assert z[4..][i - 4] == s[4..][i - 4];
    }
  }

  lemma ZeroedHeader(start: seq<byte>, body: seq<byte>)
    requires |start| == 6
    ensures ZeroedField(start + body) == [start[0], start[1], 0, 0, start[4], start[5]] + body
  {
  }

  /** Second pass: the options go back to back behind the header. */
  method CopyOptions(pkt: array<byte>, options: seq<array<byte>>)
    requires pkt !in options && Readable(options)
    requires pkt.Length == RA_HEADER_SIZE + |Concat(Images(options))|
    modifies pkt
    ensures pkt[..] == old(pkt[..RA_HEADER_SIZE]) + Concat(Images(options))
  {
    ghost var images := Images(options);
    ghost var header := pkt[..RA_HEADER_SIZE];
    var offset := RA_HEADER_SIZE;
    for i := 0 to |options|
      invariant Readable(options) && Images(options) == images
      invariant offset == RA_HEADER_SIZE + |Concat(images[..i])| <= pkt.Length
      invariant pkt[..offset] == header + Concat(images[..i])
    {
      PrefixFits(images, i);
      var optionLength := 8 * options[i][1] as int;
      Copy(pkt, offset, options[i][..optionLength]);
      offset := offset + optionLength;
    }
    assert images[..|options|] == images;
    assert pkt[..offset] == pkt[..];
  }

  lemma PrefixFits(images: seq<seq<byte>>, i: nat)
    requires i < |images|
    ensures Concat(images[..i + 1]) == Concat(images[..i]) + images[i]
    ensures |Concat(images[..i])| + |images[i]| <= |Concat(images)|
  {
    assert images[..i + 1] == images[..i] + [images[i]];
    ConcatSnoc(images[..i], images[i]);
    ConcatSplit(images[..i + 1], images[i + 1..]);
    assert images[..i + 1] + images[i + 1..] == images;
  }

  lemma ZeroedStart(start: seq<byte>, rest: seq<byte>)
    requires |start| >= 4
    ensures ZeroedField(start + rest) == ZeroedField(start) + rest
  {
  }

  /** The packet is the header followed by the options back to back, its size is
      even and the checksum computed over it is dropped. */
  method CreateRAPacket(host: Host, sourceAddr: Address, destAddr: Address, curHopLimit: byte, routerLifetime: uint16,
                        reachableTime: uint32, retransTimer: uint32, options: seq<array<byte>>)
    returns (pkt: array<byte>, length: nat)
    requires Readable(options)
    ensures fresh(pkt) && pkt.Length == length && length % 8 == 0
    ensures pkt[..] == RaHeader(curHopLimit, routerLifetime, reachableTime, retransTimer) + Concat(Images(options))
    ensures HeaderFields(pkt[..], curHopLimit, routerLifetime, reachableTime, retransTimer) && pkt[2] == 0 && pkt[3] == 0
  {
    hide ReturnedChecksum, RaHeader, Concat;
    length := RaLength(options);
    pkt := new byte[length];
    FillRaHeader(host, pkt, curHopLimit, routerLifetime, reachableTime, retransTimer);
    ghost var start := pkt[..16];
    CopyOptions(pkt, options);
    ZeroedStart(start, Concat(Images(options)));
    assert pkt[..length] == pkt[..];
    HeaderLayout(curHopLimit, routerLifetime, reachableTime, retransTimer, Concat(Images(options)));
    var _ := Checksum(host, sourceAddr, destAddr, pkt, length);
  }

  // ---- the receiver's walk, RFC 4861, section 4.6 ----

  /** Splits an options region by the length octets; a zero length or an option
      that does not fit makes the message invalid. */
  function ParseOptions(s: seq<byte>): Option<seq<seq<byte>>>
    decreases |s|
  {
    if s == [] then Some([])
    else if |s| < 2 || s[1] == 0 || 8 * s[1] as int > |s| then None
    else
      match ParseOptions(s[8 * s[1] as int..])
      case None => None
      case Some(rest) => Some([s[..8 * s[1] as int]] + rest)
  }

  predicate AllOptions(images: seq<seq<byte>>) {
    forall i :: 0 <= i < |images| ==> NdpOptions.IsOption(images[i])
  }

  /** The options of non-zero length, in order. */
  function NonEmpty(images: seq<seq<byte>>): seq<seq<byte>> {
    if images == [] then []
    else (if images[0] == [] then [] else [images[0]]) + NonEmpty(images[1..])
  }

  /** Walking by length recovers exactly the options of non-zero length the
      builder copied, in order: nothing is lost, merged or invented. */
  lemma {:induction false} WalkRecoversOptions(images: seq<seq<byte>>)
    requires forall i :: 0 <= i < |images| ==> images[i] == [] || NdpOptions.IsOption(images[i])
    ensures ParseOptions(Concat(images)) == Some(NonEmpty(images)) && AllOptions(NonEmpty(images))
  {
    if images != [] {
      WalkRecoversOptions(images[1..]);
      if images[0] == [] {
        assert Concat(images) == Concat(images[1..]);
        assert NonEmpty(images) == NonEmpty(images[1..]);
      } else {
        WalkStep(images[0], Concat(images[1..]));
      }
    }
  }

  lemma WalkStep(image: seq<byte>, rest: seq<byte>)
    requires NdpOptions.IsOption(image)
    ensures ParseOptions(rest).Some? ==> ParseOptions(image + rest) == Some([image] + ParseOptions(rest).value)
  {
    var s := image + rest;
    assert s[1] == image[1] && s[..|image|] == image && s[|image|..] == rest;
  }

  /** The other direction: a region that parses is the concatenation of the
      options found, each with the size it announces. */
  lemma {:induction false} ParsedRegion(s: seq<byte>)
    ensures ParseOptions(s).Some? ==> Concat(ParseOptions(s).value) == s && AllOptions(ParseOptions(s).value)
    decreases |s|
  {
    if s != [] && ParseOptions(s).Some? {
      ParsedRegion(s[8 * s[1] as int..]);
    }
  }
}

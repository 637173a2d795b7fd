/** The two ends of the relay: what is asked of and read from a DHCPv6 server,
    and what is advertised on the link. */
module Exchange {
  import opened Bytes
  import opened DhOptions
  import opened DhPackets
  import OnesComplement
  import NdpChecksum
  import NdpOptions
  import NdpPackets
  import Relay

  // ---- request ----

  const ENTERPRISE: uint32 := 4107
  const CLIENT_ID: seq<byte> := [0x0d, 0x00, 0x07, 0x21]
  const IA_ID: uint32 := 0xd000_7021

  const CLIENT_OPTION := Opt(CLIENTID, EnterpriseDuid(ENTERPRISE, CLIENT_ID))
  const TIME_OPTION := Opt(ELAPSED_TIME, Be16(0))
  const IA_PD_OPTION := Opt(IA_PD, Be32(IA_ID) + ZERO_TIMES)
  const RAPID_OPTION := Opt(RAPID_COMMIT, [])

  /** The options region of every solicitation: client identifier, elapsed time,
      IA_PD, rapid commit. */
  const SOLICIT_OPTIONS: seq<byte> :=
    [0, 1, 0, 10, 0, 2, 0, 0, 16, 11, 13, 0, 7, 33]
    + [0, 8, 0, 2, 0, 0]
    + [0, 25, 0, 12, 0xd0, 0, 0x70, 0x21, 0, 0, 0, 0, 0, 0, 0, 0]
    + [0, 14, 0, 0]

  lemma SolicitOctets()
    ensures Encode([CLIENT_OPTION, TIME_OPTION, IA_PD_OPTION, RAPID_OPTION]) == SOLICIT_OPTIONS
  {
    hide Encode;
    assert CLIENT_OPTION.Wire() == [0, 1, 0, 10, 0, 2, 0, 0, 16, 11, 13, 0, 7, 33];
    assert TIME_OPTION.Wire() == [0, 8, 0, 2, 0, 0];
    assert IA_PD_OPTION.Wire() == [0, 25, 0, 12, 0xd0, 0, 0x70, 0x21, 0, 0, 0, 0, 0, 0, 0, 0];
    assert RAPID_OPTION.Wire() == [0, 14, 0, 0];
    FourEncoded(CLIENT_OPTION, TIME_OPTION, IA_PD_OPTION, RAPID_OPTION);
  }

  lemma FourEncoded(a: Opt, b: Opt, c: Opt, d: Opt)
    ensures Encode([a, b, c, d]) == a.Wire() + b.Wire() + c.Wire() + d.Wire()
  {
    hide Opt.Wire;
    EncodedOne(d);
    EncodeCons(c, [d]);
    EncodeCons(b, [c, d]);
    EncodeCons(a, [b, c, d]);
    assert [c] + [d] == [c, d] && [b] + [c, d] == [b, c, d] && [a] + [b, c, d] == [a, b, c, d];
  }

  lemma EncodedOne(o: Opt)
    ensures Encode([o]) == o.Wire()
  {
    EncodeCons(o, []);
    assert [o] + [] == [o];
  }

  /** Builds the four options and the packet; a server that decodes it finds
      exactly those options, in that order. */
  method BuildSolicit(host: Host, clockWorks: bool, transId: TransactionId) returns (pkt: array?<byte>, length: nat)
    ensures pkt == null <==> !clockWorks
    ensures pkt != null ==>
              && pkt.Length == length && length >= PKT_OFFSET
              && pkt.Length == 44 && pkt[0] == 1 && pkt[1..4] == transId
              && pkt[4..] == SOLICIT_OPTIONS
              && Decode(pkt[PKT_OFFSET..]) == Some([CLIENT_OPTION, TIME_OPTION, IA_PD_OPTION, RAPID_OPTION])
  {
    hide Opt.Memory, Pointed, Readable, Encode, Decode;
    var clientId := CreateClientIdentifierEn(host, ENTERPRISE, CLIENT_ID);
    assert clientId[..] == CLIENT_OPTION.Memory(host) by {
      ClientImage(host);
    }
    var esTime := CreateElapsedTime(host, 0);
    var iaPd := CreateIaPd(host, IA_ID, None);
    var rapid := CreateRapidCommit(host);
    WholeImage(host, OptPtr(clientId, 0), CLIENT_OPTION);
    WholeImage(host, OptPtr(esTime, 0), TIME_OPTION);
    WholeImage(host, OptPtr(iaPd, 0), IA_PD_OPTION);
    WholeImage(host, OptPtr(rapid, 0), RAPID_OPTION);
    ghost var ptrs := [OptPtr(clientId, 0), OptPtr(esTime, 0), OptPtr(iaPd, 0)] + [OptPtr(rapid, 0)];
    ghost var opts := [CLIENT_OPTION, TIME_OPTION, IA_PD_OPTION, RAPID_OPTION];
    assert AllPointed(host, ptrs) == opts;
    pkt, length := CreateCustomizedSolicitPacket(host, Some(OptPtr(clientId, 0)), Some(OptPtr(esTime, 0)), Some(OptPtr(iaPd, 0)),
                                                 [OptPtr(rapid, 0)], clockWorks, transId);
    if pkt != null {
      Parts([SOLICIT] + transId, Encode(opts));
      SolicitOctets();
      DecodeEncoded(opts);
    }
  }

  lemma ClientImage(host: Host)
    ensures CLIENT_OPTION.Memory(host) ==
            Store16(host, CLIENTID) + Store16(host, (6 + |CLIENT_ID|) % 0x1_0000) + EnterpriseDuid(ENTERPRISE, CLIENT_ID)
  {
  }

  lemma WholeImage(host: Host, p: OptPtr, o: Opt)
    requires p.off == 0 && p.mem[..] == o.Memory(host)
    ensures Readable(host, p) && Pointed(host, p) == o
  {
    var m := p.mem[..];
    assert m[0..0 + o.Size()] == m;
    ImageRead(host, m, 0, o);
  }

  // ---- reply ----

  const IA_PD_HEADER := 12
  const IMAGE_OFFSET := HEADER_SIZE + IA_PD_HEADER + HEADER_SIZE

  /** The octets copied out of a reply: the data of whatever option comes first
      inside the first IA_PD, unchecked. */
  function ReplyImage(host: Host, b: seq<byte>, size: nat): Option<Relay.Image> {
    if !ReadsInside(b, PKT_OFFSET, size) then None
    else
      var p := Parsed(host, b, size);
      if p.iaPds == [] || p.iaPds[0] + IMAGE_OFFSET + Relay.IMAGE_SIZE > |p.memory| then None
      else Some(p.memory[p.iaPds[0] + IMAGE_OFFSET..p.iaPds[0] + IMAGE_OFFSET + Relay.IMAGE_SIZE])
  }

  /** Dumps and parses the received message and copies the prefix out of the
      converted buffer.  No image means that the source leaves the buffer, or uses
      a null pointer because no IA_PD was recorded.  A receive that fails returns
      -1, as a size the largest there is: the dump runs out of the buffer. */
  method ReceivePrefix(host: Host, base: nat, buffer: array<byte>, recLen: size_t) returns (image: Option<Relay.Image>)
    requires base + buffer.Length <= SIZE_T / 2
    modifies buffer
    ensures image == if recLen <= buffer.Length && recLen != 4 && buffer.Length > 0 && old(buffer[..])[0] in {2, 7}
                     then ReplyImage(host, old(buffer[..]), recLen) else None
    ensures buffer.Length > 0 && old(buffer[..])[0] !in {2, 7} ==> image == None && buffer[..] == old(buffer[..])
    ensures image.Some? ==> buffer[..] == Parsed(host, old(buffer[..]), recLen).memory
  {
    hide Parsed, ReadsInside;
    ghost var b := buffer[..];
    for i := 0 to recLen
      invariant i <= buffer.Length && buffer[..] == b
    {
      if i >= buffer.Length {
        return None;
      }
    }
    assert Followed(base, recLen) == recLen;
    var parsed := ParseOptions(host, base, buffer, recLen);
    if parsed == null || parsed.iaPdList == null {
      return None;
    }
    assert parsed.IaPds()[0] == parsed.nodes[0].value;
    assert parsed.success;
    assert Current(buffer, parsed) == Parsed(host, b, recLen);
    var pd := parsed.iaPdList.value;
    if pd + IMAGE_OFFSET + Relay.IMAGE_SIZE > buffer.Length {
      return None;
    }
    return Some(buffer[pd + IMAGE_OFFSET..pd + IMAGE_OFFSET + Relay.IMAGE_SIZE]);
  }

  /** RFC 8415, sections 21.21 and 21.22: behind its fixed part the IA_PD holds
      options, of which the first is an IA Prefix whose fixed part is `image`. */
  predicate OffersPrefix(pd: Opt, image: Relay.Image) {
    && |pd.data| >= IA_PD_HEADER
    && var inner := Decode(pd.data[IA_PD_HEADER..]);
       && inner.Some? && inner.value != []
       && inner.value[0].code == IAPREFIX && image <= inner.value[0].data
  }

  /** `opts` are the options of the message in the first `size` octets of `b`. */
  predicate Holds(b: seq<byte>, size: nat, opts: seq<Opt>) {
    PKT_OFFSET <= size <= |b| && b[PKT_OFFSET..size] == Encode(opts)
  }

  /** Where the first IA_PD starts. */
  function FirstIaPd(opts: seq<Opt>): nat
    requires WithCode(opts, IA_PD) != []
  {
    PKT_OFFSET + |Encode(opts[..FirstAt(opts, IA_PD)])|
  }

  /** Which octets are copied, for every reply: the 25 octets that follow the
      IA_PD's fixed part and one option header, whatever they belong to.  Neither
      the length of the IA_PD nor the option inside it is looked at, so they may
      lie in a later option, with its converted header, or behind the message,
      where the buffer is as it was. */
  lemma InnerOptionUnchecked(host: Host, b: seq<byte>, size: nat, opts: seq<Opt>)
    requires Holds(b, size, opts) && opts != []
    ensures WithCode(opts, IA_PD) == [] ==> ReplyImage(host, b, size) == None
    ensures WithCode(opts, IA_PD) != [] ==>
              var o, m := FirstIaPd(opts) + IMAGE_OFFSET, b[..PKT_OFFSET] + InMemory(host, opts) + b[size..];
              && |m| == |b|
              && ReplyImage(host, b, size) == if o + Relay.IMAGE_SIZE <= |b| then Some(m[o..o + Relay.IMAGE_SIZE]) else None
  {
    hide ReadsInside, DenotesLast, Opt.Wire, AllComplete, OptsAt, InMemory, Decode, Encode, OptSize, FromBe16, Converted, Last;
    ParseEncoded(host, b, size, opts);
    VisitsEncoded(b, PKT_OFFSET, size, opts);
    if WithCode(opts, IA_PD) != [] {
      FirstPicked(b, PKT_OFFSET, size, opts, IA_PD);
      var p := Parsed(host, b, size).memory;
      assert p == p[..PKT_OFFSET] + p[PKT_OFFSET..size] + p[size..];
    }
  }

  /** An IA_PD long enough for an IA Prefix gives octets of its own data, which
      the conversion of headers has not touched. */
  lemma ImageWithin(host: Host, b: seq<byte>, size: nat, opts: seq<Opt>)
    requires Holds(b, size, opts)
    requires var pds := WithCode(opts, IA_PD);
             pds != [] && |pds[0].data| >= IMAGE_OFFSET - HEADER_SIZE + Relay.IMAGE_SIZE
    ensures ReplyImage(host, b, size) ==
            Some(WithCode(opts, IA_PD)[0].data[IMAGE_OFFSET - HEADER_SIZE..IMAGE_OFFSET - HEADER_SIZE + Relay.IMAGE_SIZE])
  {
    hide Parsed, ReadsInside, DenotesLast, Opt.Wire, OptsAt, InMemory, Decode, Encode, OptSize, FromBe16, CodeAt, Complete, OptAt;
    assert opts != [];
    ParseEncoded(host, b, size, opts);
    var p, pd := Parsed(host, b, size), WithCode(opts, IA_PD)[0];
    FirstOf(host, p.memory, p.iaPds);
    assert OptAt(host, p.memory, p.iaPds[0]) == pd;
    DataAt(host, p.memory, p.iaPds[0]);
    var o := p.iaPds[0] + HEADER_SIZE;
    Slice(p.memory, o, o + |pd.data|, IMAGE_OFFSET - HEADER_SIZE, IMAGE_OFFSET - HEADER_SIZE + Relay.IMAGE_SIZE);
  }

  lemma DataAt(host: Host, m: seq<byte>, o: nat)
    requires Complete(host, m, o)
    ensures var d := OptAt(host, m, o).data;
            o + HEADER_SIZE + |d| <= |m| && m[o + HEADER_SIZE..o + HEADER_SIZE + |d|] == d
  {
  }

  /** A reply in `b` whose first IA_PD is `pd`, and which gives an image. */
  predicate GivesImage(host: Host, b: seq<byte>, size: nat, opts: seq<Opt>, pd: Opt) {
    && Holds(b, size, opts) && WithCode(opts, IA_PD) != [] && WithCode(opts, IA_PD)[0] == pd
    && ReplyImage(host, b, size).Some?
  }

  /** A reply whose only option is `pd`, followed by octets `filler`. */
  function ShortReply(pd: Opt, filler: byte): (b: seq<byte>) {
    [REPLY, 0, 0, 0] + pd.Wire() + seq(64, _ => filler)
  }

  lemma ShortReplyImage(host: Host, pd: Opt, filler: byte)
    requires pd.code == IA_PD && |pd.data| < IMAGE_OFFSET - HEADER_SIZE + Relay.IMAGE_SIZE
    ensures var b, size := ShortReply(pd, filler), PKT_OFFSET + pd.Size();
            && GivesImage(host, b, size, [pd], pd)
            && ReplyImage(host, b, size).value[Relay.IMAGE_SIZE - 1] == filler
  {
    hide ReplyImage, Opt.Wire, Opt.Memory;
    var b, size := ShortReply(pd, filler), PKT_OFFSET + pd.Size();
    EncodeCons(pd, []);
    assert [pd] + [] == [pd] && pd.Wire() + Encode([]) == pd.Wire();
    assert b[PKT_OFFSET..size] == pd.Wire();
    assert b[size..] == seq(64, _ => filler);
    assert WithCode([pd], IA_PD) == [pd] + WithCode([pd][1..], IA_PD);
    assert FirstAt([pd], IA_PD) == 0 && [pd][..0] == [];
    InnerOptionUnchecked(host, b, size, [pd]);
  }

  /** Every reply with this IA_PD gives this image, if any. */
  ghost predicate Determines(host: Host, pd: Opt, image: Relay.Image) {
    forall b, size, opts :: GivesImage(host, b, size, opts, pd) ==> ReplyImage(host, b, size) == Some(image)
  }

  /** What is read depends on the IA_PD alone if and only if its data has room
      for its fixed part and an IA Prefix.  With less, every octet behind the
      message can end up in the image. */
  lemma ImageDetermined(host: Host, pd: Opt)
    requires pd.code == IA_PD
    ensures (exists image: Relay.Image :: Determines(host, pd, image))
            <==> |pd.data| >= IMAGE_OFFSET - HEADER_SIZE + Relay.IMAGE_SIZE
  {
    hide ReplyImage, ShortReply, Holds;
    if |pd.data| >= IMAGE_OFFSET - HEADER_SIZE + Relay.IMAGE_SIZE {
      var image: Relay.Image := pd.data[IMAGE_OFFSET - HEADER_SIZE..IMAGE_OFFSET - HEADER_SIZE + Relay.IMAGE_SIZE];
      forall b, size, opts | GivesImage(host, b, size, opts, pd)
        ensures ReplyImage(host, b, size) == Some(image)
      {
        ImageWithin(host, b, size, opts);
      }
      assert Determines(host, pd, image);
    } else {
      ShortReplyImage(host, pd, 0);
      ShortReplyImage(host, pd, 1);
      forall image: Relay.Image
        ensures !Determines(host, pd, image)
      {
        var filler: byte := if image[Relay.IMAGE_SIZE - 1] == 0 then 1 else 0;
        assert ReplyImage(host, ShortReply(pd, filler), PKT_OFFSET + pd.Size()) != Some(image);
      }
    }
  }

  /** A server's answer that it has no prefix: an IA_PD with a Status Code option
      of value NoPrefixAvail (RFC 8415, section 21.13). */
  const NO_PREFIX := Opt(IA_PD, Be32(IA_ID) + ZERO_TIMES + [0, 13, 0, 2, 0, 6])

  /** It is taken for a prefix all the same: the status code and 23 octets from
      behind the message become the lease. */
  lemma NoPrefixTaken(host: Host, b: seq<byte>)
    requires |b| >= 49 && (b[0] == ADVERTISE || b[0] == REPLY) && b[PKT_OFFSET..26] == Encode([NO_PREFIX])
    ensures Admitted(b, 26) && Holds(b, 26, [NO_PREFIX]) && WithCode([NO_PREFIX], IA_PD) == [NO_PREFIX]
    ensures ReplyImage(host, b, 26) == Some([0, 6] + b[26..49])
  {
    hide ReplyImage, InMemory;
    var pd := NO_PREFIX;
    assert |pd.data| == 18;
    assert [pd][1..] == [] && WithCode([pd], IA_PD) == [pd] + WithCode([pd][1..], IA_PD);
    assert FirstAt([pd], IA_PD) == 0 && [pd][..0] == [];
    InnerOptionUnchecked(host, b, 26, [pd]);
    assert FirstIaPd([pd]) == PKT_OFFSET;
    NoPrefixInMemory(host);
    Crossing(b[..PKT_OFFSET] + InMemory(host, [pd]), b[26..], 24, 23);
    Parts(b[..PKT_OFFSET], InMemory(host, [pd]));
    assert b[26..][..23] == b[26..49];
  }

  lemma NoPrefixInMemory(host: Host)
    ensures |InMemory(host, [NO_PREFIX])| == 22 && InMemory(host, [NO_PREFIX])[20..] == [0, 6]
  {
    hide Store16;
    var pd := NO_PREFIX;
    assert |pd.data| == 18 && pd.data[16..] == [0, 6];
    assert [pd][1..] == [] && InMemory(host, [pd]) == pd.Memory(host) + InMemory(host, [pd][1..]);
    assert InMemory(host, [pd])[20..] == pd.data[16..];
  }

  lemma Crossing(a: seq<byte>, c: seq<byte>, i: nat, n: nat)
    requires i <= |a| && n <= |c|
    ensures (a + c)[i..|a| + n] == a[i..] + c[..n]
  {
  }

  /** The IA_PD carries an IA Prefix first, whole. */
  predicate CarriesPrefix(pd: Opt) {
    && |pd.data| >= IA_PD_HEADER
    && var inner := Decode(pd.data[IA_PD_HEADER..]);
       && inner.Some? && inner.value != []
       && inner.value[0].code == IAPREFIX && |inner.value[0].data| >= Relay.IMAGE_SIZE
  }

  /** What is read is a prefix that the first IA_PD offers if and only if the
      options inside it are well formed and the first is a whole IA Prefix. */
  lemma OfferReadExact(host: Host, b: seq<byte>, size: nat, opts: seq<Opt>)
    requires Holds(b, size, opts) && WithCode(opts, IA_PD) != []
    ensures (exists image: Relay.Image ::
               OffersPrefix(WithCode(opts, IA_PD)[0], image) && ReplyImage(host, b, size) == Some(image))
            <==> CarriesPrefix(WithCode(opts, IA_PD)[0])
  {
    hide ReplyImage, Decode, Encode;
    var pd := WithCode(opts, IA_PD)[0];
    if CarriesPrefix(pd) {
      var image: Relay.Image := Decode(pd.data[IA_PD_HEADER..]).value[0].data[..Relay.IMAGE_SIZE];
      OfferedImageRead(host, b, size, opts, image);
      assert OffersPrefix(pd, image) && ReplyImage(host, b, size) == Some(image);
    }
  }

  /** From a reply whose first IA_PD offers a prefix, exactly the offered octets
      are read. */
  lemma OfferedImageRead(host: Host, b: seq<byte>, size: nat, opts: seq<Opt>, image: Relay.Image)
    requires Holds(b, size, opts)
    requires var pds := WithCode(opts, IA_PD); pds != [] && OffersPrefix(pds[0], image)
    ensures ReplyImage(host, b, size) == Some(image)
  {
    hide ReplyImage, OffersPrefix, Encode;
    ImageInside(WithCode(opts, IA_PD)[0], image);
    ImageWithin(host, b, size, opts);
  }

  lemma FirstOf(host: Host, m: seq<byte>, offs: seq<nat>)
    requires AllComplete(host, m, offs)
    ensures offs != [] ==> OptsAt(host, m, offs)[0] == OptAt(host, m, offs[0])
  {
  }

  lemma FirstDecoded(s: seq<byte>)
    requires Decode(s).Some? && Decode(s).value != []
    ensures |s| >= HEADER_SIZE && |s| >= HEADER_SIZE + FromBe16(s, 2)
    ensures Decode(s).value[0].data == s[HEADER_SIZE..HEADER_SIZE + FromBe16(s, 2)]
  {
  }

  lemma ImageInside(pd: Opt, image: Relay.Image)
    requires OffersPrefix(pd, image)
    ensures |pd.data| >= IMAGE_OFFSET - HEADER_SIZE + Relay.IMAGE_SIZE
    ensures pd.data[IMAGE_OFFSET - HEADER_SIZE..IMAGE_OFFSET - HEADER_SIZE + Relay.IMAGE_SIZE] == image
  {
    hide Decode, FromBe16;
    var s := pd.data[IA_PD_HEADER..];
    FirstDecoded(s);
    var n := HEADER_SIZE + FromBe16(s, 2);
    assert image == s[HEADER_SIZE..n][0..Relay.IMAGE_SIZE];
    Slice(s, HEADER_SIZE, n, 0, Relay.IMAGE_SIZE);
    assert s == pd.data[IA_PD_HEADER..|pd.data|];
    Slice(pd.data, IA_PD_HEADER, |pd.data|, HEADER_SIZE, HEADER_SIZE + Relay.IMAGE_SIZE);
  }

  // ---- a reply in octets ----

  const SAMPLE_IMAGE: Relay.Image :=
    [0, 0, 0x0e, 0x10, 0, 0, 0x1c, 0x20, 56, 0x20, 0x01, 0x0d, 0xb8, 0, 1, 2, 0, 0, 0, 0, 0, 0, 0, 0, 0]

  const SAMPLE_CLIENT: seq<byte> := [0, 1, 0, 10, 0, 2, 0, 0, 16, 11, 13, 0, 7, 33]
  const SAMPLE_SERVER: seq<byte> := [0, 2, 0, 4, 0, 3, 0, 1]
  const SAMPLE_IA: seq<byte> := [0xd0, 0, 0x70, 0x21, 0, 0, 0, 0, 0, 0, 0, 0, 0, 26, 0, 25]

  /** A reply with client identifier, server identifier and an IA_PD that offers
      2001:db8:1:200::/56 for 3600 and 7200 seconds. */
  const SAMPLE_REPLY: seq<byte> :=
    [7, 1, 2, 3] + (SAMPLE_CLIENT + SAMPLE_SERVER + ([0, 25, 0, 41] + (SAMPLE_IA + SAMPLE_IMAGE)))

  /** Its prefix, found from the octets alone, and the places of the recorded
      options. */
  lemma SampleReplyRead(host: Host)
    ensures |SAMPLE_REPLY| == 71 && ReplyImage(host, SAMPLE_REPLY, 71) == Some(SAMPLE_IMAGE)
    ensures ReadsInside(SAMPLE_REPLY, PKT_OFFSET, 71)
    ensures var p := Parsed(host, SAMPLE_REPLY, 71); p.client == Some(4) && p.server == Some(18) && p.iaPds == [26]
  {
    hide Parsed, ReadsInside, Offsets, ReplyImage;
    var opts := SampleOptions();
    SampleEncoded();
    VisitsEncoded(SAMPLE_REPLY, PKT_OFFSET, 71, opts);
    SampleOffered();
    OfferedImageRead(host, SAMPLE_REPLY, 71, opts, SAMPLE_IMAGE);
    SamplePointers(host);
  }

  function SampleOptions(): seq<Opt> {
    [Opt(1, [0, 2, 0, 0, 16, 11, 13, 0, 7, 33]), Opt(2, [0, 3, 0, 1]),
     Opt(25, SAMPLE_IA + SAMPLE_IMAGE)]
  }

  lemma SampleEncoded()
    ensures Holds(SAMPLE_REPLY, 71, SampleOptions())
  {
    hide Encode, Opt.Wire;
    var opts := SampleOptions();
    SampleWires();
    ThreeEncoded(opts[0], opts[1], opts[2]);
    Parts([7, 1, 2, 3], Encode(opts));
    assert SAMPLE_REPLY[4..71] == SAMPLE_REPLY[4..];
  }

  lemma SampleWires()
    ensures SampleOptions()[0].Wire() == SAMPLE_CLIENT
    ensures SampleOptions()[1].Wire() == SAMPLE_SERVER
    ensures SampleOptions()[2].Wire() == [0, 25, 0, 41] + (SAMPLE_IA + SAMPLE_IMAGE)
  {
    WireOf(25, SAMPLE_IA + SAMPLE_IMAGE);
  }

  lemma WireOf(code: byte, data: seq<byte>)
    requires |data| <= 0xFF
    ensures Opt(code, data).Wire() == [0, code, 0, |data|] + data
  {
  }

  lemma ThreeEncoded(a: Opt, b: Opt, c: Opt)
    ensures Encode([a, b, c]) == a.Wire() + b.Wire() + c.Wire()
  {
    hide Opt.Wire;
    EncodedOne(c);
    EncodeCons(b, [c]);
    EncodeCons(a, [b, c]);
    assert [b] + [c] == [b, c] && [a] + [b, c] == [a, b, c];
  }

  lemma SampleOffered()
    ensures var pds := WithCode(SampleOptions(), IA_PD);
            pds == [SampleOptions()[2]] && OffersPrefix(pds[0], SAMPLE_IMAGE)
  {
    hide Decode, Encode;
    var opts := SampleOptions();
    assert opts[1..] == [opts[1], opts[2]] && opts[1..][1..] == [opts[2]] && opts[1..][1..][1..] == [];
    assert WithCode(opts[1..][1..], IA_PD) == [opts[2]] + WithCode([], IA_PD);
    var prefix := Opt(26, SAMPLE_IMAGE);
    assert prefix.Wire() == [0, 26, 0, 25] + SAMPLE_IMAGE;
    EncodedOne(prefix);
    DecodeEncoded([prefix]);
    assert opts[2].data[12..] == prefix.Wire();
  }

  lemma SamplePointers(host: Host)
    requires ReadsInside(SAMPLE_REPLY, PKT_OFFSET, 71) && Offsets(SAMPLE_REPLY, PKT_OFFSET, 71) == Starts(SampleOptions(), PKT_OFFSET)
    ensures var p := Parsed(host, SAMPLE_REPLY, 71); p.client == Some(4) && p.server == Some(18) && p.iaPds == [26]
  {
    hide ReadsInside, Offsets, Converted;
    var opts := SampleOptions();
    assert opts[1..] == [opts[1], opts[2]] && opts[1..][1..] == [opts[2]] && opts[1..][1..][1..] == [];
    assert Starts(opts[1..][1..], 26) == [26] + Starts([], 71);
    assert Starts(opts, PKT_OFFSET) == [4, 18, 26];
    var offs: seq<nat> := [4, 18, 26];
    assert offs[1..] == [18, 26] && offs[1..][1..] == [26] && offs[1..][1..][1..] == [];
    assert CodeAt(SAMPLE_REPLY, 4) == 1 && CodeAt(SAMPLE_REPLY, 18) == 2 && CodeAt(SAMPLE_REPLY, 26) == 25;
    assert All(SAMPLE_REPLY, offs[1..][1..], IA_PD) == [26] + All(SAMPLE_REPLY, [], IA_PD);
    assert All(SAMPLE_REPLY, offs[1..], IA_PD) == [] + All(SAMPLE_REPLY, offs[1..][1..], IA_PD);
    assert All(SAMPLE_REPLY, offs, IA_PD) == [26];
  }

  /** What this reply calls for, in octets: on a little-endian host too, unless an
      odd number of exchanges has failed since. */
  lemma SampleAdvertisement()
    ensures var w := RaBytes([2, 0, 0, 0, 0, 1], Relay.RaFor(SAMPLE_IMAGE));
            && w[0..16] == [134, 0, 0, 0, 64, 0x48, 7, 8, 0, 0, 0, 0, 0, 0, 0, 0]
            && w[16..18] == [1, 1] && w[18..24] == [2, 0, 0, 0, 0, 1]
            && w[24..28] == [3, 4, 64, 0xC0] && w[28..32] == [0, 0, 0x1c, 0x20] && w[32..36] == [0, 0, 0x0e, 0x10]
            && w[36..40] == [0, 0, 0, 0] && w[40..56] == [0x20, 0x01, 0x0d, 0xb8, 0, 1, 2, 0, 0, 0, 0, 0, 0, 0, 0, 0]
            && w[56..60] == [24, 2, 56, 0] && w[60..64] == [0, 0, 0x1c, 0x20]
            && w[64..72] == [0x20, 0x01, 0x0d, 0xb8, 0, 1, 2, 0]
            && w[72..80] == [5, 1, 0, 0, 0, 0, 5, 220]
  {
    hide RaBytes, Be32, FromBe32, Relay.RaFor;
    var mac: NdpOptions.HardwareAddress, ra := [2, 0, 0, 0, 0, 1], Relay.RaFor(SAMPLE_IMAGE);
    var w := RaBytes(mac, ra);
    AdvertisementOctets(mac, ra);
    SampleLease();
    SampleLifetimes();
    Be32OfFromBe32(w, 28);
    Be32OfFromBe32(w, 32);
    Be32OfFromBe32(w, 60);
  }

  lemma SampleLease()
    ensures Relay.RaFor(SAMPLE_IMAGE) == Relay.Ra([0x20, 0x01, 0x0d, 0xb8, 0, 1, 2, 0, 0, 0, 0, 0, 0, 0, 0, 0], 64, 7200, 3600)
  {
    assert SAMPLE_IMAGE[9..25] == [0x20, 0x01, 0x0d, 0xb8, 0, 1, 2, 0, 0, 0, 0, 0, 0, 0, 0, 0];
  }

  lemma SampleLifetimes()
    ensures Be32(7200) == [0, 0, 0x1c, 0x20] && Be32(3600) == [0, 0, 0x0e, 0x10]
  {
  }

  // ---- advertisement ----

  const MTU: uint32 := 1500

  /** The advertisement on the wire. */
  function RaBytes(mac: NdpOptions.HardwareAddress, ra: Relay.Ra): (s: seq<byte>)
    ensures |s| == 80
  {
    NdpPackets.RaHeader(64, 1800, 0, 0)
    + NdpOptions.LinkLayerAddressOption(1, mac)
    + NdpOptions.PrefixInformationOption(ra.prefixLength, 0xC0, ra.valid, ra.preferred, ra.prefix)
    + NdpOptions.RouteInformationOption(2, 56, 0, ra.valid, ra.prefix[..8])
    + NdpOptions.MtuOption(MTU)
  }

  method SendRouterAdv(host: Host, mac: NdpOptions.HardwareAddress, linkLocal: Address, dst: Address,
                       prefix: Address, prefixLength: uint32, validTime: uint32, preferTime: uint32)
    returns (pkt: array<byte>)
    ensures pkt[..] == RaBytes(mac, Relay.Ra(prefix, prefixLength % 0x100, validTime, preferTime))
  {
    hide NdpOptions.IsOption, NdpOptions.PrefixInformationOption, NdpOptions.RouteInformationOption, NdpOptions.MtuOption,
         NdpOptions.LinkLayerAddressOption, NdpPackets.RaHeader, NdpPackets.OptionImage, NdpPackets.Images,
         NdpPackets.Readable, Concat;
    var prefixInfo := NdpOptions.CreatePrefixInformation(host, prefixLength % 0x100, 0xC0, validTime, preferTime, prefix);
    var routeInfo := NdpOptions.CreateRouteInformation(host, 56, 0x00, validTime, prefix);
    var mtu := NdpOptions.CreateMtu(host, MTU);
    var linkAddress := NdpOptions.CreateSourceLinkLayerAddress(mac);
    var options := [linkAddress, prefixInfo, routeInfo, mtu];
    OwnImages(options);
    ghost var images := [linkAddress[..], prefixInfo[..], routeInfo[..], mtu[..]];
    assert NdpPackets.Images(options) == images;
    FourImages(NdpPackets.RaHeader(64, 1800, 0, 0), linkAddress[..], prefixInfo[..], routeInfo[..], mtu[..]);
    var length;
    pkt, length := NdpPackets.CreateRAPacket(host, linkLocal, dst, 64, 1800, 0x00, 0x00, options);
  }

  /** An option with the size it announces is copied whole. */
  lemma OwnImages(options: seq<array<byte>>)
    requires forall i :: 0 <= i < |options| ==> NdpOptions.IsOption(options[i][..])
    ensures NdpPackets.Readable(options)
    ensures forall i :: 0 <= i < |options| ==> NdpPackets.Images(options)[i] == options[i][..]
  {
    forall i | 0 <= i < |options|
      ensures options[i].Length >= 2 && options[i].Length >= 8 * options[i][1] as int
    {
      assert NdpOptions.IsOption(options[i][..]);
    }
    forall i | 0 <= i < |options|
      ensures NdpPackets.Images(options)[i] == options[i][..]
    {
      assert NdpOptions.IsOption(options[i][..]);
    }
  }

  lemma FourImages(h: seq<byte>, a: seq<byte>, b: seq<byte>, c: seq<byte>, d: seq<byte>)
    ensures h + Concat([a, b, c, d]) == h + a + b + c + d
  {
    ConcatSnoc([], a);
    ConcatSnoc([a], b);
    ConcatSnoc([a, b], c);
    ConcatSnoc([a, b, c], d);
    assert [] + [a] == [a] && [a] + [b] == [a, b] && [a, b] + [c] == [a, b, c] && [a, b, c] + [d] == [a, b, c, d];
    assert Concat([]) + a == a;
    assert h + (a + b + c + d) == h + a + b + c + d;
  }

  /** A receiver that walks the advertisement finds the four options. */
  lemma AdvertisementDecodes(mac: NdpOptions.HardwareAddress, ra: Relay.Ra)
    ensures NdpPackets.ParseOptions(RaBytes(mac, ra)[NdpPackets.RA_HEADER_SIZE..]) ==
            Some([NdpOptions.LinkLayerAddressOption(1, mac),
                  NdpOptions.PrefixInformationOption(ra.prefixLength, 0xC0, ra.valid, ra.preferred, ra.prefix),
                  NdpOptions.RouteInformationOption(2, 56, 0, ra.valid, ra.prefix[..8]),
                  NdpOptions.MtuOption(MTU)])
  {
    hide NdpPackets.ParseOptions, NdpPackets.RaHeader, Be32, Concat;
    var a := NdpOptions.LinkLayerAddressOption(1, mac);
    var b := NdpOptions.PrefixInformationOption(ra.prefixLength, 0xC0, ra.valid, ra.preferred, ra.prefix);
    var c := NdpOptions.RouteInformationOption(2, 56, 0, ra.valid, ra.prefix[..8]);
    var d := NdpOptions.MtuOption(MTU);
    FourImages(NdpPackets.RaHeader(64, 1800, 0, 0), a, b, c, d);
    Parts(NdpPackets.RaHeader(64, 1800, 0, 0), Concat([a, b, c, d]));
    NdpPackets.WalkRecoversOptions([a, b, c, d]);
    AllKept(a, b, c, d);
  }

  lemma AllKept(a: seq<byte>, b: seq<byte>, c: seq<byte>, d: seq<byte>)
    requires a != [] && b != [] && c != [] && d != []
    ensures NdpPackets.NonEmpty([a, b, c, d]) == [a, b, c, d]
  {
    assert [d][1..] == [] && NdpPackets.NonEmpty([d]) == [d];
    assert [c, d][1..] == [d] && NdpPackets.NonEmpty([c, d]) == [c, d];
    assert [b, c, d][1..] == [c, d] && NdpPackets.NonEmpty([b, c, d]) == [b, c, d];
    assert [a, b, c, d][1..] == [b, c, d];
  }

  /** The 80 octets by offset: RFC 4861, sections 4.2, 4.6.1, 4.6.2 and 4.6.4, and
      RFC 4191, section 2.3. */
  lemma AdvertisementOctets(mac: NdpOptions.HardwareAddress, ra: Relay.Ra)
    ensures var w := RaBytes(mac, ra);
            && w[0..16] == [134, 0, 0, 0, 64, 0x48, 7, 8, 0, 0, 0, 0, 0, 0, 0, 0]
            && w[16..18] == [1, 1] && w[18..24] == mac
            && w[24..28] == [3, 4, ra.prefixLength, 0xC0]
            && FromBe32(w, 28) == ra.valid && FromBe32(w, 32) == ra.preferred
            && w[36..40] == [0, 0, 0, 0] && w[40..56] == ra.prefix
            && w[56..60] == [24, 2, 56, 0] && FromBe32(w, 60) == ra.valid && w[64..72] == ra.prefix[..8]
            && w[72..80] == [5, 1, 0, 0, 0, 0, 5, 220]
  {
    hide NdpPackets.RaHeader, Be32, FromBe32;
    var w := RaBytes(mac, ra);
    HeaderOctets();
    MtuOctets();
    var header := NdpPackets.RaHeader(64, 1800, 0, 0);
    var v, p := Be32(ra.valid), Be32(ra.preferred);
    var start := header + [1, 1] + mac;
    var middle: seq<byte> := [3, 4, ra.prefixLength, 0xC0];
    assert w == start + middle + v + p + [0, 0, 0, 0] + ra.prefix + ([24, 2, 56, 0] + v + ra.prefix[..8]) + NdpOptions.MtuOption(MTU);
    assert w[28..32] == v && w[32..36] == p && w[60..64] == v;
    FromBe32OfBe32(w, 28, ra.valid);
    FromBe32OfBe32(w, 32, ra.preferred);
    FromBe32OfBe32(w, 60, ra.valid);
  }

  lemma HeaderOctets()
    ensures NdpPackets.RaHeader(64, 1800, 0, 0) == [134, 0, 0, 0, 64, 0x48, 7, 8, 0, 0, 0, 0, 0, 0, 0, 0]
  {
  }

  lemma MtuOctets()
    ensures NdpOptions.MtuOption(MTU) == [5, 1, 0, 0, 0, 0, 5, 220]
  {
  }

  lemma SameOctets(v: uint32, s: seq<byte>, off: nat)
    requires off + 4 <= |s|
    ensures Be32(v) == s[off..off + 4] <==> v == FromBe32(s, off)
  {
    Be32OfFromBe32(s, off);
    if Be32(v) == s[off..off + 4] {
      FromBe32OfBe32(s, off, v);
    }
  }

  /** End to end: in every run, an advertisement sent after a reply carries the
      reply's prefix octets with length 64.  Its valid and preferred lifetimes
      are the reply's octets, exchanged in position, if and only if the host is
      big-endian, an even number of exchanges has failed since the reply, or both
      lifetimes read the same in either byte order. */
  lemma LeaseConserved(host: Host, mac: NdpOptions.HardwareAddress, events: seq<Relay.Event>, i: nat,
                       b: seq<byte>, size: nat, opts: seq<Opt>, image: Relay.Image)
    requires Holds(b, size, opts)
    requires var pds := WithCode(opts, IA_PD); pds != [] && OffersPrefix(pds[0], image)
    requires var s := Relay.Exec(host, Relay.Init(Relay.DhcpMode), events);
             i < |s.sent| && s.sent[i].after <= |s.outcomes|
             && Relay.LastImage(s.outcomes[..s.sent[i].after]) == ReplyImage(host, b, size)
    ensures var s := Relay.Exec(host, Relay.Init(Relay.DhcpMode), events);
            var wire := RaBytes(mac, s.sent[i].ra);
            && wire[40..56] == image[9..25] && wire[26] == 64
            && (wire[28..32] == image[4..8] && wire[32..36] == image[0..4] <==>
                || host.BigEndian?
                || Relay.FailuresSince(s.outcomes[..s.sent[i].after]) % 2 == 0
                || (Relay.Palindromic(FromBe32(image, 0)) && Relay.Palindromic(FromBe32(image, 4))))
  {
    hide Relay.Exec, Relay.Init, Relay.LastImage, Relay.FailuresSince, Relay.Palindromic, ReplyImage, Encode, WithCode,
         OffersPrefix, RaBytes, Be32, FromBe32;
    OfferedImageRead(host, b, size, opts, image);
    Relay.RaFaithful(host, events, i);
    var ra := Relay.Exec(host, Relay.Init(Relay.DhcpMode), events).sent[i].ra;
    AdvertisementOctets(mac, ra);
    Be32OfFromBe32(RaBytes(mac, ra), 28);
    Be32OfFromBe32(RaBytes(mac, ra), 32);
    assert RaBytes(mac, ra)[24..28][2] == RaBytes(mac, ra)[26];
    SameOctets(ra.valid, image, 4);
    SameOctets(ra.preferred, image, 0);
  }

  lemma EightyHarms()
    ensures !NdpChecksum.LengthOrderHarmless(LittleEndian, NdpChecksum.Truncate32(80))
  {
    hide NdpChecksum.HalfSum, NdpChecksum.Truncate32;
    HalfOfEighty();
    assert !NdpChecksum.MultipleOf257(80);
  }

  lemma HalfOfEighty()
    ensures NdpChecksum.Truncate32(80) == 80 && NdpChecksum.HalfSum(80) == 80
  {
  }

  /** The checksum computed over any advertisement this program sends is never
      the ICMPv6 checksum on a little-endian host. */
  lemma AdvertisementChecksumWrong(src: Address, dst: Address, mac: NdpOptions.HardwareAddress, ra: Relay.Ra)
    ensures var wire := RaBytes(mac, ra);
            Store16(LittleEndian, NdpChecksum.ReturnedChecksum(LittleEndian, src, dst, wire))
            != Be16(NdpChecksum.Icmpv6Checksum(src, dst, wire))
  {
    hide RaBytes, Store16, Be16, NdpChecksum.ReturnedChecksum, NdpChecksum.Icmpv6Checksum, NdpChecksum.NoCarry,
         NdpChecksum.LengthOrderHarmless, NdpChecksum.Truncate32;
    var wire := RaBytes(mac, ra);
    EightyHarms();
    NdpChecksum.ReturnedChecksumExact(LittleEndian, src, dst, wire);
  }

  // ---- the carry ----

  const CARRY_SOURCE: Address := [0xfe, 0x80, 0, 0, 0, 0, 0, 0, 0, 0, 0, 0, 0, 0, 0x01, 0xf1]
  const ALL_NODES: Address := [0xff, 0x02, 0, 0, 0, 0, 0, 0, 0, 0, 0, 0, 0, 0, 0, 0x01]

  /** The missing fold does harm: sent from fe80::1f1 to all nodes, every
      advertisement makes the partial sums carry, so that even a big-endian host,
      whose length order is right, returns a wrong checksum. */
  lemma AdvertisementCarries(mac: NdpOptions.HardwareAddress, ra: Relay.Ra)
    ensures !NdpChecksum.NoCarry(BigEndian, CARRY_SOURCE, ALL_NODES, RaBytes(mac, ra))
    ensures NdpChecksum.ReturnedChecksum(BigEndian, CARRY_SOURCE, ALL_NODES, RaBytes(mac, ra))
            != NdpChecksum.Icmpv6Checksum(CARRY_SOURCE, ALL_NODES, RaBytes(mac, ra))
  {
    hide RaBytes, NdpChecksum.ReturnedChecksum, NdpChecksum.Icmpv6Checksum;
    var wire := RaBytes(mac, ra);
    CarryHeader();
    BodyPositive(mac, ra);
    assert !NdpChecksum.NoCarry(BigEndian, CARRY_SOURCE, ALL_NODES, wire);
    NdpChecksum.ReturnedIsDue(BigEndian, CARRY_SOURCE, ALL_NODES, wire);
    NdpChecksum.DueOnWire(BigEndian, CARRY_SOURCE, ALL_NODES, wire);
  }

  /** The pseudo-header of an 80-octet message between these addresses. */
  lemma CarryHeader()
    ensures NdpChecksum.HeaderSum(BigEndian, CARRY_SOURCE, ALL_NODES, 80) == 0xFFFF
  {
    hide OnesComplement.Words, FromBe16;
    CarryAddresses();
    assert Store32(BigEndian, 80) == [0, 0, 0, 80];
    NdpChecksum.HeaderTotals(BigEndian, CARRY_SOURCE, ALL_NODES, [0, 0, 0, 80]);
    NdpChecksum.TwoWords(BigEndian, [0, 0, 0, 80]);
  }

  lemma CarryAddresses()
    ensures OnesComplement.Total(OnesComplement.Words(BigEndian, CARRY_SOURCE + ALL_NODES)) == 0x1_FF74
  {
    hide OnesComplement.Words, OnesComplement.Total;
    OnesComplement.SumSplit(BigEndian, CARRY_SOURCE, ALL_NODES);
    AddressTotal(CARRY_SOURCE);
    AddressTotal(ALL_NODES);
  }

  lemma AddressTotal(a: Address)
    ensures OnesComplement.Total(OnesComplement.Words(BigEndian, a)) ==
            FromBe16(a, 0) + FromBe16(a, 2) + FromBe16(a, 4) + FromBe16(a, 6)
            + FromBe16(a, 8) + FromBe16(a, 10) + FromBe16(a, 12) + FromBe16(a, 14)
  {
    hide OnesComplement.Words;
    OnesComplement.SumSplit(BigEndian, a[..4], a[4..]);
    OnesComplement.SumSplit(BigEndian, a[4..8], a[8..]);
    OnesComplement.SumSplit(BigEndian, a[8..12], a[12..]);
    CutAt(a, 0, 4);
    CutAt(a, 4, 8);
    CutAt(a, 8, 12);
    assert a[0..4] == a[..4] && a[0..] == a;
    NdpChecksum.TwoWords(BigEndian, a[..4]);
    NdpChecksum.TwoWords(BigEndian, a[4..8]);
    NdpChecksum.TwoWords(BigEndian, a[8..12]);
    NdpChecksum.TwoWords(BigEndian, a[12..]);
  }

  lemma CutAt(a: seq<byte>, i: nat, j: nat)
    requires i <= j <= |a|
    ensures a[i..] == a[i..j] + a[j..]
  {
  }

  lemma BodyPositive(mac: NdpOptions.HardwareAddress, ra: Relay.Ra)
    ensures NdpChecksum.BodySum(BigEndian, RaBytes(mac, ra)) > 0
  {
    var wire := RaBytes(mac, ra);
    assert wire[0] == NdpPackets.ND_ROUTER_ADVERT;
    OnesComplement.SumSplit(BigEndian, wire[..2], wire[2..]);
    NdpChecksum.OneWord(wire[..2]);
    assert wire == wire[..2] + wire[2..];
    OnesComplement.OnesCongruent(OnesComplement.Total(OnesComplement.Words(BigEndian, wire)));
  }

  // ---- the route's unmasked bits ----

  /** The route option announces a /56 and carries eight octets of the prefix; its
      reserved bits are zero if and only if the eighth octet is. */
  lemma RouteTail(mac: NdpOptions.HardwareAddress, ra: Relay.Ra)
    ensures NdpOptions.RouteInformationOption(2, 56, 0, ra.valid, ra.prefix[..8])[8..] == ra.prefix[..8]
    ensures NdpOptions.TailClear(56, ra.prefix[..8]) <==> ra.prefix[7] == 0
  {
    hide NdpOptions.TailClear;
    NdpOptions.TailClearExact(56, ra.prefix[..8]);
    forall j | 0 <= j < 7
      ensures NdpOptions.OctetClear(56, ra.prefix[..8], j)
    {
    }
    assert NdpOptions.OctetClear(56, ra.prefix[..8], 7) <==> ra.prefix[..8][7] == 0;
  }
}

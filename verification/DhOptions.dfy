/** DHCPv6 options (RFC 8415, section 21.1) on the wire and in memory, and the
    constructors of the options a client sends.  In memory an option's code and
    length are host words; the data already has its wire form. */
module DhOptions {
  import opened Bytes

  const CLIENTID: uint16 := 1
  const SERVERID: uint16 := 2
  const ELAPSED_TIME: uint16 := 8
  const RAPID_COMMIT: uint16 := 14
  const IA_PD: uint16 := 25
  const IAPREFIX: uint16 := 26
  const HEADER_SIZE := 4
  const DUID_EN: uint16 := 2

  type Data = d: seq<byte> | |d| <= 0xFFFF witness []

  datatype Opt = Opt(code: uint16, data: Data) {
    function Size(): nat {
      HEADER_SIZE + |data|
    }

    function Wire(): (s: seq<byte>)
      ensures |s| == Size()
    {
      Be16(code) + Be16(|data|) + data
    }

    function Memory(host: Host): (s: seq<byte>)
      ensures |s| == Size()
    {
      Store16(host, code) + Store16(host, |data|) + data
    }
  }

  /** The option at `off` of memory `m` can be read in full. */
  predicate Complete(host: Host, m: seq<byte>, off: nat) {
    off + HEADER_SIZE <= |m| && off + HEADER_SIZE + Load16(host, m, off + 2) <= |m|
  }

  /** The option a host finds at `off` of memory `m`. */
  function OptAt(host: Host, m: seq<byte>, off: nat): Opt
    requires Complete(host, m, off)
  {
    Opt(Load16(host, m, off), m[off + HEADER_SIZE..off + HEADER_SIZE + Load16(host, m, off + 2)])
  }

  lemma LoadStored16(host: Host, s: seq<byte>, off: nat, v: uint16)
    requires off + 2 <= |s| && s[off..off + 2] == Store16(host, v)
    ensures Load16(host, s, off) == v
  {
    var t := s[off..off + 2];
    assert t[0] == s[off] && t[1] == s[off + 1];
  }

  lemma StoreLoaded16(host: Host, s: seq<byte>, off: nat)
    requires off + 2 <= |s|
    ensures Store16(host, Load16(host, s, off)) == s[off..off + 2]
  {
    PairParts(s[off], s[off + 1]);
    PairParts(s[off + 1], s[off]);
  }

  /** A host finds an option at exactly the places that hold its memory image. */
  lemma MemoryRoundTrip(host: Host, m: seq<byte>, off: nat, o: Opt)
    ensures (Complete(host, m, off) && OptAt(host, m, off) == o)
            <==> off + o.Size() <= |m| && m[off..off + o.Size()] == o.Memory(host)
  {
    if off + o.Size() <= |m| && m[off..off + o.Size()] == o.Memory(host) {
      ImageRead(host, m, off, o);
    }
    if Complete(host, m, off) && OptAt(host, m, off) == o {
      ReadImage(host, m, off);
    }
  }

  lemma ImageRead(host: Host, m: seq<byte>, off: nat, o: Opt)
    requires off + o.Size() <= |m| && m[off..off + o.Size()] == o.Memory(host)
    ensures Complete(host, m, off) && OptAt(host, m, off) == o
  {
    hide Store16, Load16;
    var e := off + o.Size();
    Slice(m, off, e, 0, 2);
    Slice(m, off, e, 2, 4);
    Slice(m, off, e, 4, o.Size());
    Fields(Store16(host, o.code), Store16(host, |o.data|), o.data);
    LoadStored16(host, m, off, o.code);
    LoadStored16(host, m, off + 2, |o.data|);
  }

  lemma Fields(a: seq<byte>, b: seq<byte>, c: seq<byte>)
    requires |a| == |b| == 2
    ensures (a + b + c)[0..2] == a && (a + b + c)[2..4] == b && (a + b + c)[4..4 + |c|] == c
  {
    var s := a + b + c;
    assert s[0..2] == a;
    assert s[2..4] == b;
    assert s[4..4 + |c|] == c;
  }

  lemma ReadImage(host: Host, m: seq<byte>, off: nat)
    requires Complete(host, m, off)
    ensures var o := OptAt(host, m, off);
            && o.Size() == HEADER_SIZE + Load16(host, m, off + 2)
            && off + o.Size() <= |m| && m[off..off + o.Size()] == o.Memory(host)
  {
    hide Store16, Load16;
    StoreLoaded16(host, m, off);
    StoreLoaded16(host, m, off + 2);
    var e := off + HEADER_SIZE + Load16(host, m, off + 2);
    assert m[off..e] == m[off..off + 2] + m[off + 2..off + 4] + m[off + 4..e];
  }

  // ---- constructors ----

  /** `malloc` gives exactly the size asked for; the length field keeps the low
      16 bits, and without data only the header is written. */
  method CreateCustomOptPayload(host: Host, optionCode: uint16, optionData: Option<seq<byte>>, optionDataLength: nat)
    returns (payload: array<byte>)
    requires optionData.Some? ==> optionDataLength <= |optionData.value|
    ensures fresh(payload) && payload.Length == HEADER_SIZE + optionDataLength
    ensures payload[..4] == Store16(host, optionCode) + Store16(host, optionDataLength % 0x1_0000)
    ensures optionData.Some? ==> payload[4..] == optionData.value[..optionDataLength]
    ensures optionDataLength <= 0xFFFF ==> payload[..] == Opt(optionCode, payload[4..]).Memory(host)
  {
    hide Store16, Patch;
    payload := new byte[HEADER_SIZE + optionDataLength];
    Copy(payload, 0, Store16(host, optionCode));
    Copy(payload, 2, Store16(host, optionDataLength % 0x1_0000));
    assert payload[..4] == Store16(host, optionCode) + Store16(host, optionDataLength % 0x1_0000);
    if optionData.Some? {
      Copy(payload, 4, optionData.value[..optionDataLength]);
    }
    assert payload[..] == payload[..4] + payload[4..];
  }

  method CreateRapidCommit(host: Host) returns (payload: array<byte>)
    ensures fresh(payload) && payload[..] == Opt(RAPID_COMMIT, []).Memory(host)
  {
    payload := CreateCustomOptPayload(host, RAPID_COMMIT, None, 0);
    assert payload[4..] == [];
  }

  const ZERO_TIMES: seq<byte> := [0, 0, 0, 0, 0, 0, 0, 0]

  /** Identity association, both times zero, then the prefix options.  The
      allocation has no room for any: copying a non-empty list overruns it,
      which is a null result here. */
  method CreateIaPd(host: Host, id: uint32, prefixOptions: Option<seq<byte>>) returns (payload: array?<byte>)
    ensures payload == null <==> prefixOptions.Some? && prefixOptions.value != []
    ensures payload != null ==> fresh(payload) && payload[..] == Opt(IA_PD, Be32(id) + ZERO_TIMES).Memory(host)
  {
    hide Store16, Store32, Be16, Be32, HToBe32;
    var p := new byte[12 + HEADER_SIZE];
    StoreConverted32(host, id);
    StoreZero(host);
    Copy(p, 4, Store32(host, HToBe32(host, id)));
    assert p[4..8] == Be32(id);
    Copy(p, 8, Store32(host, 0));
    Copy(p, 12, Store32(host, 0));
    ghost var data := p[4..];
    assert data == Be32(id) + ZERO_TIMES;
    Copy(p, 0, Store16(host, IA_PD));
    var length := 12;
    if prefixOptions.Some? {
      if HEADER_SIZE + 12 + |prefixOptions.value| > p.Length {
        return null;
      }
      length := 12 + |prefixOptions.value|;
    }
    Copy(p, 2, Store16(host, length));
    assert p[4..] == data;
    assert p[..] == p[..4] + data;
    return p;
  }

  lemma StoreZero(host: Host)
    ensures Store32(host, 0) == [0, 0, 0, 0]
  {
  }

  /** RFC 8415, section 11.3: DUID type 2, enterprise number, identifier. */
  function EnterpriseDuid(enterprise: uint32, id: seq<byte>): seq<byte> {
    Be16(DUID_EN) + Be32(enterprise) + id
  }

  /** The identifier by offset. */
  lemma DuidLayout(enterprise: uint32, id: seq<byte>)
    ensures var d := EnterpriseDuid(enterprise, id);
            |d| == 6 + |id| && FromBe16(d, 0) == 2 && FromBe32(d, 2) == enterprise && d[6..] == id
  {
    hide Be16, Be32, FromBe16, FromBe32;
    var d := EnterpriseDuid(enterprise, id);
    assert d[0..2] == Be16(DUID_EN) && d[2..6] == Be32(enterprise);
    FromBe16OfBe16(d, 0, DUID_EN);
    FromBe32OfBe32(d, 2, enterprise);
  }

  method CreateClientIdentifierEn(host: Host, enterpriseNumber: uint32, id: seq<byte>) returns (payload: array?<byte>)
    ensures payload == null <==> id == []
    ensures payload != null ==>
              && fresh(payload)
              && payload[..] == Store16(host, CLIENTID) + Store16(host, (6 + |id|) % 0x1_0000)
                                + EnterpriseDuid(enterpriseNumber, id)
    ensures payload != null ==>
              && payload.Length == 10 + |id|
              && Load16(host, payload[..], 0) == 1 && Load16(host, payload[..], 2) == (6 + |id|) % 0x1_0000
              && FromBe16(payload[..], 4) == 2 && FromBe32(payload[..], 6) == enterpriseNumber && payload[10..] == id
  {
    hide Store16, Store32, Be16, Be32, HToBe16, HToBe32, Patch;
    if |id| <= 0 {
      return null;
    }
    var length := (6 + |id|) % 0x1_0000;
    var p := new byte[HEADER_SIZE + 2 + 4 + |id|];
    Copy(p, 0, Store16(host, CLIENTID));
    Copy(p, 2, Store16(host, length));
    ghost var header := p[..4];
    assert header == Store16(host, CLIENTID) + Store16(host, length);
    StoreConverted16(host, DUID_EN);
    Copy(p, 4, Store16(host, HToBe16(host, DUID_EN)));
    StoreConverted32(host, enterpriseNumber);
    Copy(p, 6, Store32(host, HToBe32(host, enterpriseNumber)));
    Copy(p, 10, id);
    assert p[..10 + |id|] == p[..];
    assert p[..] == header + EnterpriseDuid(enterpriseNumber, id);
    ClientFields(host, p[..], length, enterpriseNumber, id);
    return p;
  }

  lemma ClientFields(host: Host, p: seq<byte>, length: uint16, enterprise: uint32, id: seq<byte>)
    requires p == Store16(host, CLIENTID) + Store16(host, length) + EnterpriseDuid(enterprise, id)
    ensures |p| == 10 + |id| && Load16(host, p, 0) == 1 && Load16(host, p, 2) == length
    ensures FromBe16(p, 4) == 2 && FromBe32(p, 6) == enterprise && p[10..] == id
  {
    hide Be16, Be32, FromBe16, FromBe32, Store16, Load16;
    assert p == Store16(host, CLIENTID) + Store16(host, length) + (Be16(DUID_EN) + Be32(enterprise) + id);
    assert p[0..2] == Store16(host, CLIENTID) && p[2..4] == Store16(host, length);
    assert p[4..6] == Be16(DUID_EN) && p[6..10] == Be32(enterprise);
    LoadStored16(host, p, 0, CLIENTID);
    LoadStored16(host, p, 2, length);
    FromBe16OfBe16(p, 4, DUID_EN);
    FromBe32OfBe32(p, 6, enterprise);
  }

  method CreateElapsedTime(host: Host, time: uint16) returns (payload: array<byte>)
    ensures fresh(payload) && payload[..] == Opt(ELAPSED_TIME, Be16(time)).Memory(host)
  {
    payload := new byte[HEADER_SIZE + 2];
    Copy(payload, 0, Store16(host, ELAPSED_TIME));
    Copy(payload, 2, Store16(host, 2));
    StoreConverted16(host, time);
    Copy(payload, 4, Store16(host, HToBe16(host, time)));
    assert payload[..] == payload[..6];
  }
}

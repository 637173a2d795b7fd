/** Constructors of Neighbor Discovery options.  An option in memory is its
    wire image: type, length in units of eight octets, data. */
module NdpOptions {
  import opened Bytes

  /** An option image whose size is what its length octet announces. */
  predicate IsOption(s: seq<byte>) {
    |s| >= 8 && |s| == 8 * s[1] as int
  }

  // ---- layouts of RFC 4861, sections 4.6.1, 4.6.2 and 4.6.4, and RFC 4191, section 2.3 ----

  type HardwareAddress = a: seq<byte> | |a| == 6 witness seq(6, _ => 0)

  function LinkLayerAddressOption(kind: byte, address: HardwareAddress): seq<byte> {
    [kind, 1] + address
  }

  function PrefixInformationOption(prefixLength: byte, flags: byte, valid: uint32, preferred: uint32, prefix: Address)
    : (s: seq<byte>)
    ensures |s| == 32
  {
    [3, 4, prefixLength, flags] + Be32(valid) + Be32(preferred) + [0, 0, 0, 0] + prefix
  }

  function MtuOption(mtu: uint32): (s: seq<byte>)
    ensures |s| == 8
  {
    [5, 1, 0, 0] + Be32(mtu)
  }

  /** The leading octets of the prefix follow the lifetime. */
  function RouteInformationOption(length: byte, prefixLength: byte, preference: byte, lifetime: uint32, leading: seq<byte>)
    : seq<byte>
  {
    [24, length, prefixLength, preference] + Be32(lifetime) + leading
  }

  // ---- the same layouts by offset ----

  lemma LinkLayerAddressLayout(kind: byte, address: HardwareAddress)
    ensures var s := LinkLayerAddressOption(kind, address);
            |s| == 8 && s[0] == kind && s[1] == 1 && s[2..8] == address
  {
  }

  lemma PrefixInformationLayout(prefixLength: byte, flags: byte, valid: uint32, preferred: uint32, prefix: Address)
    ensures var s := PrefixInformationOption(prefixLength, flags, valid, preferred, prefix);
            && s[0] == 3 && s[1] == 4 && s[2] == prefixLength && s[3] == flags
            && FromBe32(s, 4) == valid && FromBe32(s, 8) == preferred
            && s[12..16] == [0, 0, 0, 0] && s[16..32] == prefix
  {
    hide Be32, FromBe32;
    var s := PrefixInformationOption(prefixLength, flags, valid, preferred, prefix);
    assert s[4..8] == Be32(valid) && s[8..12] == Be32(preferred);
    FromBe32OfBe32(s, 4, valid);
    FromBe32OfBe32(s, 8, preferred);
  }

  lemma MtuLayout(mtu: uint32)
    ensures var s := MtuOption(mtu);
            s[0] == 5 && s[1] == 1 && s[2] == 0 && s[3] == 0 && FromBe32(s, 4) == mtu
  {
    hide Be32, FromBe32;
    assert MtuOption(mtu)[4..8] == Be32(mtu);
    FromBe32OfBe32(MtuOption(mtu), 4, mtu);
  }

  lemma RouteInformationLayout(length: byte, prefixLength: byte, preference: byte, lifetime: uint32, leading: seq<byte>)
    ensures var s := RouteInformationOption(length, prefixLength, preference, lifetime, leading);
            && |s| == 8 + |leading| && s[0] == 24 && s[1] == length && s[2] == prefixLength && s[3] == preference
            && FromBe32(s, 4) == lifetime && s[8..] == leading
  {
    hide Be32, FromBe32;
    var s := RouteInformationOption(length, prefixLength, preference, lifetime, leading);
    assert s[4..8] == Be32(lifetime);
    FromBe32OfBe32(s, 4, lifetime);
  }

  // ---- the constructors ----

  /** `flags & 0xC0` */
  function TopTwoBits(flags: byte): byte {
    flags / 0x40 * 0x40
  }

  method CreateLinkLayerAddressCore(kind: byte, etherAddr: HardwareAddress) returns (option: array?<byte>)
    ensures option == null <==> kind != 1 && kind != 2
    ensures option != null ==> fresh(option) && option[..] == LinkLayerAddressOption(kind, etherAddr) && IsOption(option[..])
  {
    if kind != 1 && kind != 2 {
      return null;
    }
    option := new byte[2 + 6];
    option[0] := kind;
    option[1] := 1;
    assert option[..2] == [kind, 1];
    Copy(option, 2, etherAddr);
    assert option[..] == option[..8];
  }

  method CreateSourceLinkLayerAddress(etherAddr: HardwareAddress) returns (option: array<byte>)
    ensures fresh(option) && option[..] == LinkLayerAddressOption(1, etherAddr) && IsOption(option[..])
  {
    var made := CreateLinkLayerAddressCore(1, etherAddr);
    return made;
  }

  method CreateTargetLinkLayerAddress(etherAddr: HardwareAddress) returns (option: array<byte>)
    ensures fresh(option) && option[..] == LinkLayerAddressOption(2, etherAddr) && IsOption(option[..])
  {
    var made := CreateLinkLayerAddressCore(2, etherAddr);
    return made;
  }

  method CreatePrefixInformation(host: Host, prefixLength: byte, flags: byte, validLifetime: uint32,
                                 preferredLifetime: uint32, prefix: Address)
    returns (option: array<byte>)
    ensures fresh(option) && IsOption(option[..])
    ensures option[..] == PrefixInformationOption(prefixLength, TopTwoBits(flags), validLifetime, preferredLifetime, prefix)
    ensures option[3] / 64 == flags / 64 && option[3] % 64 == 0
  {
    option := new byte[2 + 30];
    option[0] := 3;
    option[1] := 4;
    option[2] := prefixLength;
    option[3] := TopTwoBits(flags);
    assert option[..4] == [3, 4, prefixLength, TopTwoBits(flags)];
    StoreConverted32(host, validLifetime);
    Copy(option, 4, Store32(host, HToBe32(host, validLifetime)));
    StoreConverted32(host, preferredLifetime);
    Copy(option, 8, Store32(host, HToBe32(host, preferredLifetime)));
    Copy(option, 12, [0, 0, 0, 0]);
    Copy(option, 16, prefix);
    assert option[..] == option[..32];
  }

  method CreateMtu(host: Host, mtu: uint32) returns (option: array<byte>)
    ensures fresh(option) && option[..] == MtuOption(mtu) && IsOption(option[..])
  {
    option := new byte[2 + 6];
    option[0] := 5;
    option[1] := 1;
    option[2], option[3] := 0, 0;
    assert option[..4] == [5, 1, 0, 0];
    StoreConverted32(host, mtu);
    Copy(option, 4, Store32(host, HToBe32(host, mtu)));
    assert option[..] == option[..8];
  }

  /** The length octet the route constructor computes. */
  function RoutePropLen(prefixLength: byte): (n: byte)
    ensures 1 <= n <= 5
  {
    if prefixLength == 0 then 1 else 1 + (prefixLength / 64 + 1)
  }

  /** The prefix argument is readable for `|prefix|` octets; the copy needs
      `8 * (RoutePropLen(prefixLength) - 1)` of them. */
  method CreateRouteInformation(host: Host, prefixLength: byte, routePreference: byte, routeLifetime: uint32, prefix: seq<byte>)
    returns (option: array<byte>)
    requires (RoutePropLen(prefixLength) - 1) * 8 <= |prefix|
    ensures fresh(option) && IsOption(option[..])
    ensures option[..] == RouteInformationOption(RoutePropLen(prefixLength), prefixLength, routePreference, routeLifetime,
                                                  prefix[..(RoutePropLen(prefixLength) - 1) * 8])
  {
    var propLen := 1;
    if prefixLength != 0 {
      propLen := propLen + prefixLength / 64 + 1;
    }
    option := new byte[propLen * 8];
    option[0] := 24;
    option[1] := propLen;
    option[2] := prefixLength;
    option[3] := routePreference;
    assert option[..4] == [24, propLen, prefixLength, routePreference];
    StoreConverted32(host, routeLifetime);
    Copy(option, 4, Store32(host, HToBe32(host, routeLifetime)));
    if prefixLength == 0 {
      assert option[..] == option[..8];
      return;
    }
    Copy(option, 8, prefix[..(propLen - 1) * 8]);
    assert option[..] == option[..propLen * 8];
  }

  // ---- RFC 4191, section 2.3 ----

  /** The lengths allowed for a prefix length of at most 128. */
  predicate RouteLengthAllowed(prefixLength: nat, length: nat) {
    && length in {1, 2, 3}
    && (prefixLength > 64 ==> length == 3)
    && (prefixLength > 0 ==> length >= 2)
  }

  /** The length octet is allowed, and the copy stays inside a 16-octet
      address, for every prefix length below 128 and for no other. */
  lemma RouteLengthExact(prefixLength: byte)
    ensures RouteLengthAllowed(prefixLength, RoutePropLen(prefixLength)) <==> prefixLength < 128
    ensures (RoutePropLen(prefixLength) - 1) * 8 <= 16 <==> prefixLength < 128
    ensures RoutePropLen(prefixLength) ==
            if prefixLength == 0 then 1 else if prefixLength < 64 then 2 else if prefixLength < 128 then 3
            else if prefixLength < 192 then 4 else 5
  {
  }

  // ---- the bits behind the prefix length ----

  /** An octet is a multiple of it if and only if only its first `k` bits are set. */
  function Weight(k: nat): nat
    requires k <= 8
    ensures Weight(k) > 0
    decreases 8 - k
  {
    if k == 8 then 1 else 2 * Weight(k + 1)
  }

  /** Bit `k` of a prefix, the most significant of octet 0 first. */
  function Bit(prefix: seq<byte>, k: nat): nat
    requires k < 8 * |prefix|
  {
    OctetBit(prefix[k / 8], k % 8)
  }

  function OctetBit(v: byte, k: nat): nat
    requires k < 8
  {
    v / Weight(k + 1) % 2
  }

  /** RFC 4191, section 2.3: the bits after the prefix length must be zero. */
  predicate TailClear(prefixLength: nat, carried: seq<byte>) {
    forall k :: prefixLength <= k < 8 * |carried| ==> Bit(carried, k) == 0
  }

  /** The octet at `j` has no bit set behind the prefix length. */
  predicate OctetClear(prefixLength: nat, carried: seq<byte>, j: nat)
    requires j < |carried|
  {
    if 8 * j >= prefixLength then carried[j] == 0
    else 8 * j + 8 <= prefixLength || carried[j] % Weight(prefixLength - 8 * j) == 0
  }

  /** The source does not mask.  For every prefix length, what it sends meets the
      requirement if and only if the octet the prefix ends in is a multiple of
      the weight of its last prefix bit and all octets behind it are zero. */
  lemma TailClearExact(prefixLength: nat, carried: seq<byte>)
    ensures TailClear(prefixLength, carried) <==> forall j :: 0 <= j < |carried| ==> OctetClear(prefixLength, carried, j)
  {
    hide OctetBit, OctetClear;
    forall j | 0 <= j < |carried|
      ensures OctetClear(prefixLength, carried, j) <==>
              forall k :: 0 <= k < 8 && prefixLength <= 8 * j + k ==> OctetBit(carried[j], k) == 0
    {
      OctetExact(prefixLength, carried, j);
    }
    if TailClear(prefixLength, carried) {
      forall j | 0 <= j < |carried|
        ensures OctetClear(prefixLength, carried, j)
      {
        forall k | 0 <= k < 8 && prefixLength <= 8 * j + k
          ensures OctetBit(carried[j], k) == 0
        {
          OfOctet(carried, j, k);
        }
      }
    }
    if forall j :: 0 <= j < |carried| ==> OctetClear(prefixLength, carried, j) {
      forall k | prefixLength <= k < 8 * |carried|
        ensures Bit(carried, k) == 0
      {
        assert OctetClear(prefixLength, carried, k / 8);
        assert k == 8 * (k / 8) + k % 8;
      }
    }
  }

  lemma OfOctet(carried: seq<byte>, j: nat, k: nat)
    requires j < |carried| && k < 8
    ensures Bit(carried, 8 * j + k) == OctetBit(carried[j], k)
  {
    assert (8 * j + k) / 8 == j && (8 * j + k) % 8 == k;
  }

  lemma OctetExact(prefixLength: nat, carried: seq<byte>, j: nat)
    requires j < |carried|
    ensures OctetClear(prefixLength, carried, j) <==>
            forall k :: 0 <= k < 8 && prefixLength <= 8 * j + k ==> OctetBit(carried[j], k) == 0
  {
    hide OctetBit;
    if 8 * j + 8 > prefixLength {
      var from := if 8 * j >= prefixLength then 0 else prefixLength - 8 * j;
      BitsFrom(carried[j], from);
      Weights();
    }
  }

  lemma Weights()
    ensures Weight(8) == 1 && Weight(7) == 2 && Weight(6) == 4 && Weight(5) == 8 && Weight(4) == 16
    ensures Weight(3) == 32 && Weight(2) == 64 && Weight(1) == 128 && Weight(0) == 256
  {
    assert Weight(4) == 16;
  }

  /** The bits of an octet from `k` on are zero if and only if it is a multiple of
      the weight of the bit before. */
  lemma {:induction false} BitsFrom(v: byte, k: nat)
    requires k <= 8
    ensures v % Weight(k) == 0 <==> forall i :: k <= i < 8 ==> OctetBit(v, i) == 0
    decreases 8 - k
  {
    if k < 8 {
      BitsFrom(v, k + 1);
      HalfWeight(v, k);
    }
  }

  lemma HalfWeight(v: byte, k: nat)
    requires k < 8
    ensures v % Weight(k) == 0 <==> OctetBit(v, k) == 0 && v % Weight(k + 1) == 0
  {
    hide Weight;
    WeightStep(k);
    var w := Weight(k + 1);
    var q, r := v / w, v % w;
    assert v == 2 * w * (q / 2) + (w * (q % 2) + r);
    assert q % 2 == 0 || q % 2 == 1;
    Remainder(v, 2 * w, q / 2, w * (q % 2) + r);
  }

  lemma WeightStep(k: nat)
    requires k < 8
    ensures Weight(k) == 2 * Weight(k + 1)
  {
  }

  lemma Remainder(v: nat, d: nat, q: nat, r: nat)
    requires v == d * q + r && r < d
    ensures v % d == r
  {
    var e: int := v / d - q;
    assert d * e == d * (v / d) - d * q == r - v % d;
    if e != 0 {
      Multiple(d, e);
      assert false;
    }
  }

  lemma Multiple(d: nat, e: int)
    requires e != 0
    ensures d * e >= d || d * e <= 0 - d
  {
    if e > 0 {
      AtLeastOnce(d, e);
    } else {
      AtLeastOnce(d, 0 - e);
      assert d * (0 - e) == 0 - d * e;
    }
  }

  lemma AtLeastOnce(d: nat, e: nat)
    requires e > 0
    ensures d * e >= d
  {
    assert d * (e - 1) >= 0;
  }
}

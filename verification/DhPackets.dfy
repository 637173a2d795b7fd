/** DHCPv6 messages (RFC 8415, sections 8 and 21.1): the two-pass builder and the
    parser that converts option headers in place. */
module DhPackets {
  import opened Bytes
  import opened DhOptions

  const PKT_OFFSET := 4
  const SOLICIT: byte := 1
  const ADVERTISE: byte := 2
  const REPLY: byte := 7
  const SIZE_T := 0x1_0000_0000_0000_0000

  type size_t = x: int | 0 <= x < SIZE_T

  type TransactionId = t: seq<byte> | |t| == 3 witness [0, 0, 0]

  /** An option pointer: a buffer and an offset into it. */
  datatype OptPtr = OptPtr(mem: array<byte>, off: nat)

  // ---- wire encoding of an option list ----

  function Encode(opts: seq<Opt>): seq<byte> {
    if opts == [] then [] else opts[0].Wire() + Encode(opts[1..])
  }

  /** The same list with headers in host order. */
  function InMemory(host: Host, opts: seq<Opt>): (s: seq<byte>)
    ensures |s| == |Encode(opts)|
  {
    if opts == [] then [] else opts[0].Memory(host) + InMemory(host, opts[1..])
  }

  /** Reference decoder: the options that tile `s`, if they do. */
  function Decode(s: seq<byte>): Option<seq<Opt>>
    decreases |s|
  {
    if s == [] then Some([])
    else if |s| < HEADER_SIZE || |s| < HEADER_SIZE + FromBe16(s, 2) then None
    else
      match Decode(s[HEADER_SIZE + FromBe16(s, 2)..])
      case None => None
      case Some(rest) => Some([Opt(FromBe16(s, 0), s[HEADER_SIZE..HEADER_SIZE + FromBe16(s, 2)])] + rest)
  }

  lemma WireFields(s: seq<byte>, o: Opt, rest: seq<byte>)
    requires s == o.Wire() + rest
    ensures |s| >= o.Size() && FromBe16(s, 0) == o.code && FromBe16(s, 2) == |o.data|
    ensures s[HEADER_SIZE..o.Size()] == o.data && s[o.Size()..] == rest
  {
    assert s[0] == Be16(o.code)[0] && s[1] == Be16(o.code)[1];
    assert s[2] == Be16(|o.data|)[0] && s[3] == Be16(|o.data|)[1];
    assert s[..o.Size()] == o.Wire();
  }

  lemma {:induction false} DecodeEncoded(opts: seq<Opt>)
    ensures Decode(Encode(opts)) == Some(opts)
  {
    if opts != [] {
      DecodeEncoded(opts[1..]);
      WireFields(Encode(opts), opts[0], Encode(opts[1..]));
      assert opts == [opts[0]] + opts[1..];
    }
  }

  lemma {:induction false} EncodeDecoded(s: seq<byte>)
    requires Decode(s).Some?
    ensures Encode(Decode(s).value) == s
    decreases |s|
  {
    hide FromBe16, Opt.Wire, Decode;
    DecodeFirst(s);
    if s != [] {
      var n := HEADER_SIZE + FromBe16(s, 2);
      EncodeDecoded(s[n..]);
      FirstOption(s);
      EncodeCons(Opt(FromBe16(s, 0), s[HEADER_SIZE..n]), Decode(s[n..]).value);
      assert s == s[..n] + s[n..];
    }
  }

  lemma DecodeFirst(s: seq<byte>)
    requires Decode(s).Some?
    ensures s == [] ==> Decode(s).value == []
    ensures s != [] ==>
              && |s| >= HEADER_SIZE && |s| >= HEADER_SIZE + FromBe16(s, 2)
              && var n := HEADER_SIZE + FromBe16(s, 2);
                 Decode(s[n..]).Some? && Decode(s).value == [Opt(FromBe16(s, 0), s[HEADER_SIZE..n])] + Decode(s[n..]).value
  {
    hide FromBe16;
  }

  lemma EncodeCons(o: Opt, rest: seq<Opt>)
    ensures Encode([o] + rest) == o.Wire() + Encode(rest)
  {
    assert ([o] + rest)[1..] == rest;
  }

  lemma FirstOption(s: seq<byte>)
    requires |s| >= HEADER_SIZE && |s| >= HEADER_SIZE + FromBe16(s, 2)
    ensures var n := HEADER_SIZE + FromBe16(s, 2);
            Opt(FromBe16(s, 0), s[HEADER_SIZE..n]).Wire() == s[..n]
  {
    var n := HEADER_SIZE + FromBe16(s, 2);
    Be16OfFromBe16(s, 0);
    Be16OfFromBe16(s, 2);
    assert s[..n] == s[0..2] + s[2..4] + s[4..n];
  }

  lemma {:induction false} EncodeSplit(a: seq<Opt>, b: seq<Opt>)
    ensures Encode(a + b) == Encode(a) + Encode(b)
  {
    if a == [] {
      assert a + b == b;
    } else {
      assert (a + b)[1..] == a[1..] + b;
      EncodeSplit(a[1..], b);
    }
  }

  lemma EncodePrefix(opts: seq<Opt>, i: nat)
    requires i < |opts|
    ensures Encode(opts[..i + 1]) == Encode(opts[..i]) + opts[i].Wire()
    ensures |Encode(opts[..i])| + opts[i].Size() <= |Encode(opts)|
  {
    assert opts[..i + 1] == opts[..i] + [opts[i]];
    EncodeSplit(opts[..i], [opts[i]]);
    assert Encode([opts[i]]) == opts[i].Wire() + Encode([]);
    assert opts == opts[..i + 1] + opts[i + 1..];
    EncodeSplit(opts[..i + 1], opts[i + 1..]);
  }

  // ---- header conversion ----

  /** Code and length at `o` converted between network and host order. */
  function HeaderSwapped(host: Host, b: seq<byte>, o: nat): (r: seq<byte>)
    requires o + HEADER_SIZE <= |b|
    ensures |r| == |b| && r[..o] == b[..o] && r[o + HEADER_SIZE..] == b[o + HEADER_SIZE..]
    ensures r[o..o + HEADER_SIZE] ==
            Store16(host, HToBe16(host, Load16(host, b, o))) + Store16(host, HToBe16(host, Load16(host, b, o + 2)))
  {
    Patch(b, o, Store16(host, HToBe16(host, Load16(host, b, o))) + Store16(host, HToBe16(host, Load16(host, b, o + 2))))
  }

  method SwapHeader(host: Host, buf: array<byte>, o: nat)
    requires o + HEADER_SIZE <= buf.Length
    modifies buf
    ensures buf[..] == HeaderSwapped(host, old(buf[..]), o)
  {
    hide Store16, HToBe16, Patch, Load16;
    var code := Load16(host, buf[..], o);
    PatchThenLoad(host, buf[..], o, Store16(host, HToBe16(host, code)));
    ghost var rest := Store16(host, HToBe16(host, Load16(host, buf[..], o + 2)));
    PatchTwice(buf[..], o, Store16(host, HToBe16(host, code)), rest);
    Copy(buf, o, Store16(host, HToBe16(host, code)));
    var length := Load16(host, buf[..], o + 2);
    Copy(buf, o + 2, Store16(host, HToBe16(host, length)));
  }

  lemma PatchTwice(b: seq<byte>, o: nat, s: seq<byte>, t: seq<byte>)
    requires o + |s| + |t| <= |b|
    ensures Patch(Patch(b, o, s), o + |s|, t) == Patch(b, o, s + t)
  {
  }

  lemma PatchThenLoad(host: Host, b: seq<byte>, o: nat, s: seq<byte>)
    requires |s| == 2 && o + 4 <= |b|
    ensures Load16(host, Patch(b, o, s), o + 2) == Load16(host, b, o + 2)
  {
  }

  lemma MemoryToWire(host: Host, b: seq<byte>, o: nat, opt: Opt)
    requires o + opt.Size() <= |b| && b[o..o + opt.Size()] == opt.Memory(host)
    ensures HeaderSwapped(host, b, o)[o..o + opt.Size()] == opt.Wire()
  {
    var m := b[o..o + opt.Size()];
    ImageRead(host, b, o, opt);
    StoreConverted16(host, opt.code);
    StoreConverted16(host, |opt.data|);
    assert m == m[..4] + opt.data;
    SplitAtHeader(HeaderSwapped(host, b, o), b, o, opt.data);
  }

  lemma SplitAtHeader(r: seq<byte>, b: seq<byte>, o: nat, data: seq<byte>)
    requires o + HEADER_SIZE + |data| <= |r| == |b| && r[o + HEADER_SIZE..] == b[o + HEADER_SIZE..]
    requires b[o..o + HEADER_SIZE + |data|][HEADER_SIZE..] == data
    ensures r[o..o + HEADER_SIZE + |data|] == r[o..o + HEADER_SIZE] + data
  {
    var n := o + HEADER_SIZE + |data|;
    assert r[o + HEADER_SIZE..n] == r[o + HEADER_SIZE..][..|data|];
    assert b[o + HEADER_SIZE..n] == b[o + HEADER_SIZE..][..|data|];
    assert r[o..n] == r[o..o + HEADER_SIZE] + r[o + HEADER_SIZE..n];
  }

  lemma WireToMemory(host: Host, b: seq<byte>, o: nat, opt: Opt)
    requires o + opt.Size() <= |b| && b[o..o + opt.Size()] == opt.Wire()
    ensures HeaderSwapped(host, b, o)[o..o + opt.Size()] == opt.Memory(host)
  {
    var w := b[o..o + opt.Size()];
    WireFields(w, opt, []);
    assert FromBe16(b, o) == FromBe16(w, 0) && FromBe16(b, o + 2) == FromBe16(w, 2);
    LoadConverted16(host, b, o);
    LoadConverted16(host, b, o + 2);
    assert w[4..] == opt.data;
    SplitAtHeader(HeaderSwapped(host, b, o), b, o, opt.data);
  }

  // ---- builder ----

  ghost predicate Readable(host: Host, p: OptPtr)
    reads p.mem
  {
    Complete(host, p.mem[..], p.off)
  }

  ghost function Pointed(host: Host, p: OptPtr): Opt
    requires Readable(host, p)
    reads p.mem
  {
    OptAt(host, p.mem[..], p.off)
  }

  ghost predicate AllReadable(host: Host, ptrs: seq<OptPtr>)
    reads set p | p in ptrs :: p.mem
  {
    forall i :: 0 <= i < |ptrs| ==> Readable(host, ptrs[i])
  }

  ghost function AllPointed(host: Host, ptrs: seq<OptPtr>): (r: seq<Opt>)
    requires AllReadable(host, ptrs)
    reads set p | p in ptrs :: p.mem
    ensures |r| == |ptrs|
  {
    seq(|ptrs|, i requires 0 <= i < |ptrs| && AllReadable(host, ptrs) reads set p | p in ptrs :: p.mem => Pointed(host, ptrs[i]))
  }

  method PacketLength(host: Host, ptrs: seq<OptPtr>) returns (length: nat)
    requires AllReadable(host, ptrs)
    ensures length == PKT_OFFSET + |Encode(AllPointed(host, ptrs))|
  {
    ghost var opts := AllPointed(host, ptrs);
    length := PKT_OFFSET;
    for i := 0 to |ptrs|
      invariant length == PKT_OFFSET + |Encode(opts[..i])|
    {
      EncodePrefix(opts, i);
      length := length + Load16(host, ptrs[i].mem[..], ptrs[i].off + 2) + HEADER_SIZE;
    }
    assert opts[..|ptrs|] == opts;
  }

  /** The packet is type, transaction id and the wire form of every option in
      order; no option's own memory changes. */
  method CreatePacket(host: Host, msgType: byte, transId: TransactionId, ptrs: seq<OptPtr>)
    returns (pkt: array<byte>, length: nat)
    requires AllReadable(host, ptrs)
    ensures fresh(pkt) && pkt.Length == length
    ensures pkt[..] == [msgType] + transId + Encode(old(AllPointed(host, ptrs)))
  {
    hide Opt.Wire, OptAt, Complete;
    length := PacketLength(host, ptrs);
    ghost var opts := AllPointed(host, ptrs);
    pkt := new byte[length];
    pkt[0] := msgType;
    Copy(pkt, 1, transId);
    ghost var header := pkt[..PKT_OFFSET];
    assert header == [msgType] + transId;
    var offset := 0;
    for i := 0 to |ptrs|
      invariant forall k :: 0 <= k < |ptrs| ==> ptrs[k].mem != pkt && ptrs[k].mem[..] == old(ptrs[k].mem[..])
      invariant offset == |Encode(opts[..i])| <= length - PKT_OFFSET
      invariant pkt[..PKT_OFFSET + offset] == header + Encode(opts[..i])
    {
      EncodePrefix(opts, i);
      assert header + Encode(opts[..i + 1]) == (header + Encode(opts[..i])) + opts[i].Wire();
      offset := CopyOption(host, pkt, offset, ptrs[i]);
    }
    assert opts[..|ptrs|] == opts;
    assert pkt[..length] == pkt[..];
  }

  /** One round of the copy loop: copy the payload, then convert the header in
      the copy. */
  method CopyOption(host: Host, pkt: array<byte>, offset: nat, p: OptPtr) returns (next: nat)
    requires Readable(host, p) && p.mem != pkt
    requires PKT_OFFSET + offset + Pointed(host, p).Size() <= pkt.Length
    modifies pkt
    ensures next == offset + old(Pointed(host, p)).Size()
    ensures pkt[..PKT_OFFSET + next] == old(pkt[..PKT_OFFSET + offset]) + old(Pointed(host, p)).Wire()
  {
    hide HeaderSwapped, Patch, Load16, Opt.Wire, Opt.Memory, Readable, Pointed;
    ghost var b, opt := pkt[..], Pointed(host, p);
    PointedImage(host, p);
    var size := Load16(host, p.mem[..], p.off + 2) + HEADER_SIZE;
    next := offset + size;
    CopiedOption(host, b, PKT_OFFSET + offset, opt);
    Place(host, pkt, PKT_OFFSET + offset, p.mem[p.off..p.off + size]);
    assert pkt[..PKT_OFFSET + next] == pkt[..][..PKT_OFFSET + next];
  }

  /** `memcpy` of a payload, and its header converted in the copy. */
  method Place(host: Host, pkt: array<byte>, at: nat, payload: seq<byte>)
    requires |payload| >= HEADER_SIZE && at + |payload| <= pkt.Length
    modifies pkt
    ensures pkt[..] == HeaderSwapped(host, Patch(old(pkt[..]), at, payload), at)
  {
    hide HeaderSwapped, Patch;
    Copy(pkt, at, payload);
    SwapHeader(host, pkt, at);
  }

  lemma PointedImage(host: Host, p: OptPtr)
    requires Readable(host, p)
    ensures var opt := Pointed(host, p);
            && p.off + HEADER_SIZE <= p.mem.Length && Load16(host, p.mem[..], p.off + 2) + HEADER_SIZE == opt.Size()
            && p.off + opt.Size() <= p.mem.Length && p.mem[p.off..p.off + opt.Size()] == opt.Memory(host)
  {
    hide Load16, Opt.Memory;
    ReadImage(host, p.mem[..], p.off);
    assert p.mem[..][p.off..p.off + Pointed(host, p).Size()] == p.mem[p.off..p.off + Pointed(host, p).Size()];
  }

  lemma CopiedOption(host: Host, b: seq<byte>, at: nat, opt: Opt)
    requires at + opt.Size() <= |b|
    ensures HeaderSwapped(host, Patch(b, at, opt.Memory(host)), at)[..at + opt.Size()] == b[..at] + opt.Wire()
  {
    var m := Patch(b, at, opt.Memory(host));
    MemoryToWire(host, m, at, opt);
    var r := HeaderSwapped(host, m, at);
    assert r[..at + opt.Size()] == r[..at] + r[at..at + opt.Size()];
  }

  /** The result `-1` as a `size_t`. */
  const FAILED: size_t := SIZE_T - 1

  /** A missing mandatory option or an unreadable clock fails without a packet;
      otherwise the three mandatory options come first, then the extra ones. */
  method CreateCustomizedSolicitPacket(host: Host, clientId: Option<OptPtr>, elapsedTime: Option<OptPtr>, iaPd: Option<OptPtr>,
                                       extra: seq<OptPtr>, clockWorks: bool, transId: TransactionId)
    returns (pkt: array?<byte>, length: nat)
    requires clientId.Some? && elapsedTime.Some? && iaPd.Some? ==>
               AllReadable(host, [clientId.value, elapsedTime.value, iaPd.value] + extra)
    ensures pkt == null <==> clientId == None || elapsedTime == None || iaPd == None || !clockWorks
    ensures pkt == null ==> length == 0xFFFF_FFFF_FFFF_FFFF
    ensures pkt != null ==>
              && fresh(pkt) && pkt.Length == length
              && pkt[..] == [SOLICIT] + transId
                            + Encode(old(AllPointed(host, [clientId.value, elapsedTime.value, iaPd.value] + extra)))
  {
    if clientId == None || elapsedTime == None || iaPd == None {
      return null, FAILED;
    }
    hide Encode, OptAt, Complete, Load16;
    ghost var all := [clientId.value, elapsedTime.value, iaPd.value] + extra;
    ghost var opts := AllPointed(host, all);
    var list := new OptPtr[|extra| + 3](_ => clientId.value);
    for i := 0 to |extra|
      invariant forall k :: 3 <= k < 3 + i ==> list[k] == extra[k - 3]
    {
      list[i + 3] := extra[i];
    }
    if !clockWorks {
      return null, FAILED;
    }
    list[0] := clientId.value;
    list[1] := elapsedTime.value;
    list[2] := iaPd.value;
    assert forall k :: 0 <= k < |all| ==> list[k] == all[k];
    assert list[..] == all;
    assert AllReadable(host, all) && AllPointed(host, all) == opts;
    pkt, length := CreatePacket(host, SOLICIT, transId, list[..]);
  }

  // ---- what the parser visits ----

  function OptSize(b: seq<byte>, o: nat): (n: nat)
    requires o + HEADER_SIZE <= |b|
    ensures HEADER_SIZE <= n <= HEADER_SIZE + 0xFFFF
  {
    HEADER_SIZE + FromBe16(b, o + 2)
  }

  /** Every header the parser touches, starting at `o` of a message of `size`
      octets, lies inside the buffer `b`.  The buffer may extend past the
      message, and a header may cross the message's end. */
  predicate ReadsInside(b: seq<byte>, o: nat, size: nat)
    decreases |b| - o
  {
    o + HEADER_SIZE <= |b| && (o + OptSize(b, o) < size ==> ReadsInside(b, o + OptSize(b, o), size))
  }

  /** The offsets visited, in order. */
  function Offsets(b: seq<byte>, o: nat, size: nat): (offs: seq<nat>)
    requires ReadsInside(b, o, size)
    decreases |b| - o
  {
    [o] + if o + OptSize(b, o) < size then Offsets(b, o + OptSize(b, o), size) else []
  }

  /** The option code at `o`; no option code is zero. */
  function CodeAt(b: seq<byte>, o: nat): uint16 {
    if o + HEADER_SIZE <= |b| then FromBe16(b, o) else 0
  }

  /** The buffer after converting the headers at the given offsets. */
  function Converted(host: Host, b: seq<byte>, offs: seq<nat>): (r: seq<byte>)
    ensures |r| == |b|
    decreases |offs|
  {
    if offs == [] then b
    else Converted(host, if offs[0] + HEADER_SIZE <= |b| then HeaderSwapped(host, b, offs[0]) else b, offs[1..])
  }

  /** The last of the offsets holding an option with the given code, or `found`. */
  function Last(found: Option<nat>, b: seq<byte>, offs: seq<nat>, code: uint16): Option<nat>
    decreases |offs|
  {
    if offs == [] then found
    else Last(if CodeAt(b, offs[0]) == code then Some(offs[0]) else found, b, offs[1..], code)
  }

  /** All offsets holding an option with the given code, in order. */
  function All(b: seq<byte>, offs: seq<nat>, code: uint16): seq<nat> {
    if offs == [] then []
    else (if CodeAt(b, offs[0]) == code then [offs[0]] else []) + All(b, offs[1..], code)
  }

  /** What the parser holds between two options. */
  datatype Progress = Progress(memory: seq<byte>, client: Option<nat>, server: Option<nat>, iaPds: seq<nat>)

  function Visit(host: Host, st: Progress, o: nat): (r: Progress)
    requires o + HEADER_SIZE <= |st.memory|
    ensures |r.memory| == |st.memory|
  {
    var code := FromBe16(st.memory, o);
    Progress(HeaderSwapped(host, st.memory, o),
             if code == CLIENTID then Some(o) else st.client,
             if code == SERVERID then Some(o) else st.server,
             st.iaPds + if code == IA_PD then [o] else [])
  }

  // ---- parse result ----

  class PayloadNode {
    var value: nat
    var next: PayloadNode?

    constructor (value: nat)
      ensures this.value == value && next == null
    {
      this.value := value;
      next := null;
    }
  }

  class ParsedOptions {
    var success: bool
    var clientIdentifier: Option<nat>
    var serverIdentifier: Option<nat>
    var iaPdList: PayloadNode?
    ghost var nodes: seq<PayloadNode>

    constructor ()
      ensures Valid() && nodes == [] && IaPds() == []
      ensures !success && clientIdentifier == None && serverIdentifier == None
    {
      success := false;
      clientIdentifier, serverIdentifier, iaPdList := None, None, null;
      nodes := [];
    }

    /** The list starting at `iaPdList` is exactly `nodes`: no node occurs twice
        and the last one ends it. */
    ghost predicate Valid()
      reads this`iaPdList, this`nodes, nodes
    {
      && iaPdList == (if nodes == [] then null else nodes[0])
      && (forall i :: 0 <= i < |nodes| - 1 ==> nodes[i].next == nodes[i + 1])
      && (nodes != [] ==> nodes[|nodes| - 1].next == null)
      && (forall i, j :: 0 <= i < j < |nodes| ==> nodes[i] != nodes[j])
    }

    ghost function IaPds(): (r: seq<nat>)
      reads this`nodes, nodes
      ensures |r| == |nodes|
    {
      Values(nodes)
    }

    static ghost function Values(nodes: seq<PayloadNode>): (r: seq<nat>)
      reads nodes
      ensures |r| == |nodes|
    {
      seq(|nodes|, i requires 0 <= i < |nodes| reads nodes => nodes[i].value)
    }

    /** Walks to the null pointer at the end and puts a new node there. */
    method AppendIaPd(option: nat)
      requires Valid()
      modifies this`iaPdList, this`nodes, nodes
      ensures Valid() && |nodes| == |old(nodes)| + 1 && nodes[..|old(nodes)|] == old(nodes)
      ensures fresh(nodes[|old(nodes)|])
      ensures IaPds() == old(IaPds()) + [option]
      ensures forall n :: n in old(nodes) ==> n.value == old(n.value)
    {
      var newNode := new PayloadNode(option);
      if iaPdList == null {
        iaPdList := newNode;
      } else {
        var current := iaPdList;
        ghost var i := 0;
        while current.next != null
          invariant Valid() && nodes == old(nodes)
          invariant 0 <= i < |nodes| && current == nodes[i]
          invariant i + 1 < |nodes| ==> current.next == nodes[i + 1]
          decreases |nodes| - i
        {
          current := current.next;
          i := i + 1;
        }
        current.next := newNode;
      }
      assert forall i :: 0 <= i < |nodes| - 1 ==> nodes[i].next == nodes[i + 1];
      nodes := nodes + [newNode];
    }
  }

  /** `size_t` subtraction, which wraps. */
  function SizeMinus(a: size_t, b: size_t): size_t {
    if a >= b then a - b else a - b + SIZE_T
  }

  /** The two tests before the loop. */
  predicate Admitted(b: seq<byte>, size: nat) {
    size != PKT_OFFSET && |b| > 0 && (b[0] == ADVERTISE || b[0] == REPLY)
  }

  /** Which messages pass, in numbers. */
  lemma AdmittedTypes(b: seq<byte>, size: nat)
    ensures Admitted(b, size) <==> size != 4 && b != [] && (b[0] == 2 || b[0] == 7)
  {
  }

  ghost function Current(pkt: array<byte>, result: ParsedOptions): Progress
    reads pkt, result, result.nodes
  {
    Progress(pkt[..], result.clientIdentifier, result.serverIdentifier, result.IaPds())
  }

  /** One round of the loop: the header at `reader` is converted in place and
      the option recorded. */
  method VisitOption(host: Host, pkt: array<byte>, reader: nat, result: ParsedOptions) returns (optPayloadLength: nat)
    requires reader + HEADER_SIZE <= pkt.Length && result.Valid()
    modifies pkt, result, result.nodes
    ensures Current(pkt, result) == Visit(host, old(Current(pkt, result)), reader)
    ensures optPayloadLength == OptSize(old(pkt[..]), reader)
    ensures result.Valid() && old(result.nodes) <= result.nodes
    ensures forall i :: |old(result.nodes)| <= i < |result.nodes| ==> fresh(result.nodes[i])
  {
    hide HeaderSwapped, FromBe16, Load16, ParsedOptions.Valid;
    SwappedFields(host, pkt[..], reader);
    SwapHeader(host, pkt, reader);
    var code := Load16(host, pkt[..], reader);
    optPayloadLength := Load16(host, pkt[..], reader + 2) + HEADER_SIZE;
    if code == CLIENTID {
      result.clientIdentifier := Some(reader);
    } else if code == SERVERID {
      result.serverIdentifier := Some(reader);
    } else if code == IA_PD {
      result.success := false;
      result.AppendIaPd(reader);
    }
  }

  /** After conversion the host reads what the wire says. */
  lemma SwappedFields(host: Host, b: seq<byte>, o: nat)
    requires o + HEADER_SIZE <= |b|
    ensures var s := HeaderSwapped(host, b, o);
            Load16(host, s, o) == FromBe16(b, o) && Load16(host, s, o + 2) == FromBe16(b, o + 2)
  {
    LoadConverted16(host, b, o);
    LoadConverted16(host, b, o + 2);
    var s := HeaderSwapped(host, b, o);
    var header := Store16(host, FromBe16(b, o)) + Store16(host, FromBe16(b, o + 2));
    assert s[o..o + 2] == header[..2] && s[o + 2..o + 4] == header[2..];
    LoadStored16(host, s, o, FromBe16(b, o));
    LoadStored16(host, s, o + 2, FromBe16(b, o + 2));
  }

  /** Subtracting an option's length from the unread count keeps it equal to the
      distance to the message's end, modulo the width of `size_t`.  It reaches
      zero only when the option ends the message: an overrun wraps round to a
      non-zero count. */
  lemma UnreadWraps(size: size_t, reader: size_t, n: size_t)
    requires (reader < size || reader == PKT_OFFSET) && size != PKT_OFFSET && reader + n < SIZE_T
    requires HEADER_SIZE <= n <= HEADER_SIZE + 0xFFFF
    ensures SizeMinus(SizeMinus(size, reader), n) == SizeMinus(size, reader + n)
    ensures SizeMinus(size, reader + n) == 0 <==> reader + n == size
  {
  }

  lemma NothingUnread(base: nat, size: size_t)
    requires base <= SIZE_T / 2
    ensures SizeMinus(size, PKT_OFFSET) == 0 <==> size == PKT_OFFSET
    ensures Followed(base, size) == PKT_OFFSET <==> size == PKT_OFFSET
    ensures Followed(base, size) == size || Followed(base, size) == 0
  {
  }

  /** The loop as a recursion over the options. */
  function ParseFrom(host: Host, st: Progress, o: nat, size: nat): Progress
    requires ReadsInside(st.memory, o, size)
    decreases |st.memory| - o
  {
    var n := OptSize(st.memory, o);
    SwapKeepsTail(host, st.memory, o, size);
    if o + n < size then ParseFrom(host, Visit(host, st, o), o + n, size) else Visit(host, st, o)
  }

  lemma {:induction false} SameTailReads(b: seq<byte>, m: seq<byte>, o: nat, p: nat, size: nat)
    requires |b| == |m| && p <= o && p <= |b| && b[p..] == m[p..] && ReadsInside(b, o, size)
    ensures ReadsInside(m, o, size) && OptSize(m, o) == OptSize(b, o) && FromBe16(m, o) == FromBe16(b, o)
    ensures Offsets(m, o, size) == Offsets(b, o, size)
    decreases |b| - o
  {
    assert forall i :: p <= i < |b| ==> m[i] == m[p..][i - p] == b[p..][i - p] == b[i];
    if o + OptSize(b, o) < size {
      SameTailReads(b, m, o + OptSize(b, o), p, size);
    }
  }

  lemma SwapKeepsTail(host: Host, b: seq<byte>, o: nat, size: nat)
    requires ReadsInside(b, o, size)
    ensures var n, m := OptSize(b, o), HeaderSwapped(host, b, o);
            && (o + n < size ==>
                  && ReadsInside(m, o + n, size) && ReadsInside(b, o + n, size)
                  && Offsets(m, o + n, size) == Offsets(b, o + n, size))
            && Offsets(b, o, size) == [o] + if o + n < size then Offsets(b, o + n, size) else []
  {
    var n, m := OptSize(b, o), HeaderSwapped(host, b, o);
    if o + n < size {
      SameTailReads(b, m, o + n, o + HEADER_SIZE, size);
    }
  }

  lemma ParseFromStep(host: Host, st: Progress, o: nat, size: nat)
    requires ReadsInside(st.memory, o, size)
    ensures o + HEADER_SIZE <= |st.memory|
    ensures var n, next := OptSize(st.memory, o), Visit(host, st, o);
            if o + n < size
            then ReadsInside(next.memory, o + n, size) && ParseFrom(host, st, o, size) == ParseFrom(host, next, o + n, size)
            else ParseFrom(host, st, o, size) == next
  {
    hide HeaderSwapped, OptSize, Offsets;
    SwapKeepsTail(host, st.memory, o, size);
  }

  lemma {:induction false} SameTailCodes(b: seq<byte>, m: seq<byte>, offs: seq<nat>, p: nat, found: Option<nat>, code: uint16)
    requires |b| == |m| && p <= |b| && b[p..] == m[p..]
    requires forall i :: 0 <= i < |offs| ==> offs[i] >= p
    ensures All(m, offs, code) == All(b, offs, code)
    ensures Last(found, m, offs, code) == Last(found, b, offs, code)
    decreases |offs|
  {
    if offs != [] {
      assert forall i :: p <= i < |b| ==> m[i] == m[p..][i - p] == b[p..][i - p] == b[i];
      SameTailCodes(b, m, offs[1..], p, if CodeAt(b, offs[0]) == code then Some(offs[0]) else found, code);
    }
  }

  lemma {:induction false} OffsetsAscend(b: seq<byte>, o: nat, size: nat)
    requires ReadsInside(b, o, size)
    ensures forall i :: 0 <= i < |Offsets(b, o, size)| ==> Offsets(b, o, size)[i] >= o
    decreases |b| - o
  {
    if o + OptSize(b, o) < size {
      OffsetsAscend(b, o + OptSize(b, o), size);
    }
  }

  /** The loop converts every visited header and records every visited option,
      as read from the message before any conversion. */
  lemma {:induction false} ParseFromMeaning(host: Host, st: Progress, o: nat, size: nat)
    requires ReadsInside(st.memory, o, size)
    ensures var b, offs := st.memory, Offsets(st.memory, o, size);
            ParseFrom(host, st, o, size) ==
            Progress(Converted(host, b, offs), Last(st.client, b, offs, CLIENTID), Last(st.server, b, offs, SERVERID),
                     st.iaPds + All(b, offs, IA_PD))
    decreases |st.memory| - o
  {
    hide HeaderSwapped, ParseFrom, FromBe16, ReadsInside, Converted, Last, All, Offsets;
    ParseFromStep(host, st, o, size);
    var b, n, next := st.memory, OptSize(st.memory, o), Visit(host, st, o);
    SwapKeepsTail(host, b, o, size);
    var rest := if o + n < size then Offsets(b, o + n, size) else [];
    FirstVisit(host, st, o, rest);
    if o + n < size {
      ParseFromMeaning(host, next, o + n, size);
      OffsetsAscend(b, o + n, size);
      SameTailCodes(b, next.memory, rest, o + HEADER_SIZE, next.client, CLIENTID);
      SameTailCodes(b, next.memory, rest, o + HEADER_SIZE, next.server, SERVERID);
      SameTailCodes(b, next.memory, rest, o + HEADER_SIZE, None, IA_PD);
    } else {
      NoVisit(host, next.memory, next.client);
      NoVisit(host, b, next.client);
      NoVisit(host, b, next.server);
      assert next.iaPds + [] == next.iaPds;
    }
  }

  lemma NoVisit(host: Host, b: seq<byte>, found: Option<nat>)
    ensures Converted(host, b, []) == b && forall code :: All(b, [], code) == [] && Last(found, b, [], code) == found
  {
  }

  lemma FirstVisit(host: Host, st: Progress, o: nat, rest: seq<nat>)
    requires o + HEADER_SIZE <= |st.memory|
    ensures var b, next := st.memory, Visit(host, st, o);
            && Converted(host, b, [o] + rest) == Converted(host, next.memory, rest)
            && Last(st.client, b, [o] + rest, CLIENTID) == Last(next.client, b, rest, CLIENTID)
            && Last(st.server, b, [o] + rest, SERVERID) == Last(next.server, b, rest, SERVERID)
            && st.iaPds + All(b, [o] + rest, IA_PD) == next.iaPds + All(b, rest, IA_PD)
  {
    assert ([o] + rest)[1..] == rest;
    var hit := if CodeAt(st.memory, o) == IA_PD then [o] else [];
    assert st.iaPds + (hit + All(st.memory, rest, IA_PD)) == (st.iaPds + hit) + All(st.memory, rest, IA_PD);
  }

  /** What parsing a message leaves in memory and in the result. */
  function Parsed(host: Host, b: seq<byte>, size: nat): Progress
    requires ReadsInside(b, PKT_OFFSET, size)
  {
    var offs := Offsets(b, PKT_OFFSET, size);
    Progress(Converted(host, b, offs), Last(None, b, offs, CLIENTID), Last(None, b, offs, SERVERID), All(b, offs, IA_PD))
  }

  lemma ParsedMeaning(host: Host, b: seq<byte>, size: nat)
    requires ReadsInside(b, PKT_OFFSET, size)
    ensures Parsed(host, b, size) == ParseFrom(host, Progress(b, None, None, []), PKT_OFFSET, size)
  {
    ParseFromMeaning(host, Progress(b, None, None, []), PKT_OFFSET, size);
    var pds := All(b, Offsets(b, PKT_OFFSET, size), IA_PD);
    assert [] + pds == pds;
  }

  /** The parser reads or writes past the end of the buffer. */
  predicate LeavesBuffer(b: seq<byte>, size: nat) {
    size != PKT_OFFSET && (b == [] || (Admitted(b, size) && !ReadsInside(b, PKT_OFFSET, size)))
  }

  /** A header that is not inside the buffer is the only way to leave it. */
  lemma {:induction false} TailReadsAlike(b: seq<byte>, m: seq<byte>, o: nat, p: nat, size: nat)
    requires |b| == |m| && p <= o && p <= |b| && b[p..] == m[p..]
    ensures ReadsInside(b, o, size) <==> ReadsInside(m, o, size)
    decreases |b| - o
  {
    if o + HEADER_SIZE <= |b| {
      assert forall i :: p <= i < |b| ==> m[i] == m[p..][i - p] == b[p..][i - p] == b[i];
      if o + OptSize(b, o) < size {
        TailReadsAlike(b, m, o + OptSize(b, o), p, size);
      }
    }
  }

  lemma InsideStep(host: Host, b: seq<byte>, o: nat, size: nat)
    ensures o + HEADER_SIZE > |b| ==> !ReadsInside(b, o, size)
    ensures o + HEADER_SIZE <= |b| ==>
              (ReadsInside(b, o, size) <==>
               (o + OptSize(b, o) < size ==> ReadsInside(HeaderSwapped(host, b, o), o + OptSize(b, o), size)))
  {
    hide HeaderSwapped, FromBe16;
    if o + HEADER_SIZE <= |b| {
      TailReadsAlike(b, HeaderSwapped(host, b, o), o + OptSize(b, o), o + HEADER_SIZE, size);
    }
  }

  /** A round at `o` that consumed `n` octets and left `next`: whether the run
      stays inside the buffer, and what it yields, is unchanged. */
  predicate RoundLeads(host: Host, st: Progress, o: nat, size: nat, n: nat, next: Progress) {
    if o + n >= size then ReadsInside(st.memory, o, size) && ParseFrom(host, st, o, size) == next
    else
      && (ReadsInside(st.memory, o, size) <==> ReadsInside(next.memory, o + n, size))
      && (ReadsInside(st.memory, o, size) ==> ParseFrom(host, st, o, size) == ParseFrom(host, next, o + n, size))
  }

  /** What one round does to a run that may or may not leave the buffer. */
  lemma RoundStep(host: Host, st: Progress, o: nat, size: nat)
    ensures o + HEADER_SIZE > |st.memory| ==> !ReadsInside(st.memory, o, size)
    ensures o + HEADER_SIZE <= |st.memory| ==> RoundLeads(host, st, o, size, OptSize(st.memory, o), Visit(host, st, o))
  {
    hide HeaderSwapped, FromBe16, ParseFrom;
    InsideStep(host, st.memory, o, size);
    if ReadsInside(st.memory, o, size) {
      ParseFromStep(host, st, o, size);
    }
  }

  /** The size the loop's stop test follows for a buffer at address `base`: the
      sum of address and size wraps, and a wrapped one lies below the message, so
      that the loop stops after its first round. */
  function Followed(base: nat, size: size_t): nat {
    if base + size < SIZE_T then size else 0
  }

  /** `readerPtr > pkt + size`, on addresses. */
  predicate PastEnd(base: nat, reader: nat, size: size_t) {
    (base + reader) % SIZE_T > (base + size) % SIZE_T
  }

  lemma StopTest(base: nat, reader: nat, size: size_t)
    requires base + reader < SIZE_T && reader > 0
    ensures PastEnd(base, reader, size) <==> reader > Followed(base, size)
  {
    assert (base + reader) % SIZE_T == base + reader;
    if base + size < SIZE_T {
      assert (base + size) % SIZE_T == base + size;
    } else {
      assert (base + size) % SIZE_T == base + size - SIZE_T;
    }
  }

  /** The loop.  Without it leaving the buffer, every option is visited. */
  method VisitAll(host: Host, base: nat, pkt: array<byte>, size: size_t, parsed: ParsedOptions) returns (stayed: bool)
    requires base + pkt.Length <= SIZE_T / 2 && size != PKT_OFFSET && parsed.Valid()
    modifies pkt, parsed, parsed.nodes
    ensures stayed <==> ReadsInside(old(pkt[..]), PKT_OFFSET, Followed(base, size))
    ensures stayed ==> Current(pkt, parsed) == ParseFrom(host, old(Current(pkt, parsed)), PKT_OFFSET, Followed(base, size))
    ensures parsed.Valid() && old(parsed.nodes) <= parsed.nodes
    ensures forall i :: |old(parsed.nodes)| <= i < |parsed.nodes| ==> fresh(parsed.nodes[i])
  {
    hide Visit, ReadsInside, ParseFrom, OptSize, HeaderSwapped, FromBe16, PastEnd, Followed, SizeMinus, ParsedOptions.Valid;
    NothingUnread(base, size);
    ghost var bound := Followed(base, size);
    var reader, unread := PKT_OFFSET, SizeMinus(size, PKT_OFFSET);
    ghost var inside := ReadsInside(pkt[..], PKT_OFFSET, bound);
    ghost var goal := if inside then ParseFrom(host, Current(pkt, parsed), PKT_OFFSET, bound) else Current(pkt, parsed);
    while true
      invariant (reader == PKT_OFFSET || reader < bound) && unread == SizeMinus(size, reader)
      invariant ReadsInside(pkt[..], reader, bound) == inside
      invariant inside ==> ParseFrom(host, Current(pkt, parsed), reader, bound) == goal
      invariant parsed.Valid() && old(parsed.nodes) <= parsed.nodes
      invariant forall i :: |old(parsed.nodes)| <= i < |parsed.nodes| ==> fresh(parsed.nodes[i])
      decreases pkt.Length - reader
    {
      RoundStep(host, Current(pkt, parsed), reader, bound);
      if reader + HEADER_SIZE > pkt.Length {
        return false;
      }
      var optPayloadLength := VisitOption(host, pkt, reader, parsed);
      UnreadWraps(size, reader, optPayloadLength);
      unread := SizeMinus(unread, optPayloadLength);
      if unread <= 0 {
        return true;
      }
      reader := reader + optPayloadLength;
      StopTest(base, reader, size);
      if PastEnd(base, reader, size) {
        return true;
      }
    }
  }

  /** Parses a message of `size` octets at the start of `pkt`.  Whatever lengths
      the options declare, the loop ends and reports success, unless it leaves
      the buffer, which is undefined behaviour in the source and here a null
      result.  The buffer lies at address `base`, in the lower half of the address
      space.  A message of any type but ADVERTISE (2) and REPLY (7) is refused:
      nothing is recorded and no octet changed. */
  method ParseOptions(host: Host, base: nat, pkt: array<byte>, size: size_t) returns (result: ParsedOptions?)
    requires base + pkt.Length <= SIZE_T / 2
    modifies pkt
    ensures result == null <==>
            && size != 4
            && (pkt.Length == 0
                || (old(pkt[..])[0] in {2, 7} && !ReadsInside(old(pkt[..]), 4, Followed(base, size))))
    ensures result != null ==>
              && fresh(result) && result.Valid() && (forall i :: 0 <= i < |result.nodes| ==> fresh(result.nodes[i]))
              && (result.success <==> size != 4 && old(pkt[..])[0] in {2, 7})
    ensures result != null && !result.success ==>
              && pkt[..] == old(pkt[..]) && result.iaPdList == null && result.nodes == []
              && result.clientIdentifier == None && result.serverIdentifier == None
    ensures result != null && result.success ==> Current(pkt, result) == Parsed(host, old(pkt[..]), Followed(base, size))
  {
    hide ReadsInside, ParseFrom, Parsed, Followed, SizeMinus;
    NothingUnread(base, size);
    var unread := SizeMinus(size, PKT_OFFSET);
    var parsed := new ParsedOptions();
    if unread <= 0 {
      return parsed;
    }
    if pkt.Length == 0 {
      return null;
    }
    if pkt[0] != ADVERTISE && pkt[0] != REPLY {
      return parsed;
    }
    ghost var b := pkt[..];
    var stayed := VisitAll(host, base, pkt, size, parsed);
    if !stayed {
      return null;
    }
    ParsedMeaning(host, b, Followed(base, size));
    parsed.success := true;
    return parsed;
  }

  // ---- termination over arbitrary lengths ----

  /** Each round consumes at least a header, whatever length it declares, so
      the rounds are bounded by the message; if every header read also lies
      inside the message, by a quarter of its options region.  A message that
      ends before its options makes a single round. */
  lemma {:induction false} RoundBound(b: seq<byte>, o: nat, size: nat)
    requires ReadsInside(b, o, size)
    ensures var offs := Offsets(b, o, size);
            && offs != []
            && (o >= size ==> offs == [o])
            && (o < size ==>
                  && HEADER_SIZE * |offs| < size - o + HEADER_SIZE
                  && o + HEADER_SIZE * (|offs| - 1) <= offs[|offs| - 1] < size
                  && (offs[|offs| - 1] + HEADER_SIZE <= size ==> HEADER_SIZE * |offs| <= size - o))
    decreases |b| - o
  {
    var n := OptSize(b, o);
    if o + n < size {
      RoundBound(b, o + n, size);
      var rest := Offsets(b, o + n, size);
      assert Offsets(b, o, size) == [o] + rest;
      assert ([o] + rest)[|rest|] == rest[|rest| - 1];
    }
  }

  /** A buffer three octets longer than the message always suffices, however
      the message is cut off. */
  lemma {:induction false} SlackSuffices(b: seq<byte>, o: nat, size: nat)
    requires size + 3 <= |b| && o < size
    ensures ReadsInside(b, o, size)
    decreases |b| - o
  {
    if o + OptSize(b, o) < size {
      SlackSuffices(b, o + OptSize(b, o), size);
    }
  }

  // ---- which buffers are large enough ----

  /** The capacity that keeps the parser inside the buffer for every message of
      `size` octets. */
  function RequiredCapacity(size: nat): nat {
    if size == PKT_OFFSET then 0
    else if size > PKT_OFFSET + HEADER_SIZE then size + 3
    else PKT_OFFSET + HEADER_SIZE
  }

  /** A reply whose options, empty but for the first, put the last header on the
      last octet of the message. */
  function CutOff(capacity: nat, size: nat): (b: seq<byte>)
    requires capacity > 0
    ensures |b| == capacity
  {
    seq(capacity, i => if i == 0 then REPLY else if i == 7 then (size + 3) % HEADER_SIZE else 0)
  }

  lemma {:induction false} EmptyOptionsWalk(b: seq<byte>, o: nat, size: nat)
    requires forall i :: o <= i < |b| ==> b[i] == 0
    requires o < size && (size - 1 - o) % HEADER_SIZE == 0
    ensures ReadsInside(b, o, size) ==> size + 3 <= |b|
    decreases size - o
  {
    if o + HEADER_SIZE <= |b| && o + HEADER_SIZE < size {
      EmptyOptionsWalk(b, o + HEADER_SIZE, size);
    }
  }

  /** The parser stays inside every admitted buffer of a given capacity if and
      only if that capacity is the required one or more. */
  lemma CapacityExact(capacity: nat, size: nat)
    requires capacity > 0
    ensures (forall b: seq<byte> :: |b| == capacity && Admitted(b, size) ==> ReadsInside(b, PKT_OFFSET, size))
            <==> capacity >= RequiredCapacity(size)
  {
    if capacity >= RequiredCapacity(size) {
      forall b: seq<byte> | |b| == capacity && Admitted(b, size)
        ensures ReadsInside(b, PKT_OFFSET, size)
      {
        if size > PKT_OFFSET + HEADER_SIZE {
          SlackSuffices(b, PKT_OFFSET, size);
        }
      }
    } else {
      var b := CutOff(capacity, size);
      assert Admitted(b, size);
      if capacity >= PKT_OFFSET + HEADER_SIZE {
        assert b[6] == 0 && b[7] == (size + 3) % HEADER_SIZE;
        var o := PKT_OFFSET + OptSize(b, PKT_OFFSET);
        assert o == 8 + (size + 3) % HEADER_SIZE && (size - 1 - o) % HEADER_SIZE == 0;
        EmptyOptionsWalk(b, o, size);
      }
      assert !ReadsInside(b, PKT_OFFSET, size);
    }
  }

  /** A message that fills its buffer leaves no slack: for every capacity of 9 or
      more there is an admitted one that makes the parser leave the buffer. */
  lemma FullBufferOverruns(capacity: nat)
    requires capacity > PKT_OFFSET + HEADER_SIZE
    ensures exists b: seq<byte> :: |b| == capacity && Admitted(b, capacity) && !ReadsInside(b, PKT_OFFSET, capacity)
  {
    CapacityExact(capacity, capacity);
  }

  const OVERRUNNING: seq<byte> := [ADVERTISE, 0, 0, 0, 0, 99, 0, 0, 0, 0, 0]

  /** One such input, with two octets of slack behind a message of nine. */
  lemma NineOctetsOverrun()
    ensures Admitted(OVERRUNNING, 9) && |OVERRUNNING| == 11 && !ReadsInside(OVERRUNNING, PKT_OFFSET, 9)
  {
    assert OptSize(OVERRUNNING, 4) == 4;
    assert !ReadsInside(OVERRUNNING, 8, 9);
  }

  /** A message shorter than its own header is admitted, because the unread count
      wraps, and one option is read from wholly outside it. */
  lemma ShortMessageAdmitted(b: seq<byte>, size: nat)
    requires size < PKT_OFFSET && |b| >= PKT_OFFSET + HEADER_SIZE && (b[0] == ADVERTISE || b[0] == REPLY)
    ensures Admitted(b, size) && ReadsInside(b, PKT_OFFSET, size)
    ensures Offsets(b, PKT_OFFSET, size) == [PKT_OFFSET]
  {
  }

  /** A size whose sum with the buffer's address wraps, such as a result of -1,
      is admitted as well and makes exactly one round: the parser converts and
      records the first option only, and leaves the buffer if and only if that
      has no room for its header. */
  lemma WrappedSizeOneRound(base: nat, b: seq<byte>, size: size_t)
    requires base + |b| <= SIZE_T / 2 && base + size >= SIZE_T && |b| > 0 && (b[0] == ADVERTISE || b[0] == REPLY)
    ensures Admitted(b, size) && Admitted(b, Followed(base, size))
    ensures LeavesBuffer(b, Followed(base, size)) <==> |b| < PKT_OFFSET + HEADER_SIZE
    ensures |b| >= PKT_OFFSET + HEADER_SIZE ==> Offsets(b, PKT_OFFSET, Followed(base, size)) == [PKT_OFFSET]
  {
  }

  // ---- how the loop ends ----

  /** Where the last option visited says it ends. */
  function LoopEnd(b: seq<byte>, o: nat, size: nat): nat
    requires ReadsInside(b, o, size)
    decreases |b| - o
  {
    if o + OptSize(b, o) < size then LoopEnd(b, o + OptSize(b, o), size) else o + OptSize(b, o)
  }

  /** The loop leaves through a zero unread count if and only if the options tile
      the message; otherwise the last option, recorded all the same, overruns it. */
  lemma {:induction false} ExactEnd(b: seq<byte>, o: nat, size: nat)
    requires ReadsInside(b, o, size) && o < size <= |b|
    ensures LoopEnd(b, o, size) >= size
    ensures LoopEnd(b, o, size) == size <==> Decode(b[o..size]).Some?
    decreases |b| - o
  {
    var s, n := b[o..size], OptSize(b, o);
    if |s| >= HEADER_SIZE {
      assert s[2] == b[o + 2] && s[3] == b[o + 3];
      if o + n < size {
        ExactEnd(b, o + n, size);
        assert s[n..] == b[o + n..size];
      } else if o + n == size {
        assert s[n..] == [];
      }
    }
  }

  /** The visited offsets of a message the loop ends exactly are those of the
      options that tile it. */
  lemma ExactVisits(b: seq<byte>, o: nat, size: nat)
    requires ReadsInside(b, o, size) && o < size <= |b| && LoopEnd(b, o, size) == size
    ensures Decode(b[o..size]).Some? && Offsets(b, o, size) == Starts(Decode(b[o..size]).value, o)
  {
    ExactEnd(b, o, size);
    EncodeDecoded(b[o..size]);
    VisitsEncoded(b, o, size, Decode(b[o..size]).value);
  }

  const TOO_LONG: seq<byte> := [REPLY, 0, 0, 0, 0, 25, 0, 99]

  /** An IA_PD that claims 99 octets it does not have is recorded. */
  lemma OverrunRecorded(host: Host)
    ensures Admitted(TOO_LONG, 8) && ReadsInside(TOO_LONG, PKT_OFFSET, 8)
    ensures Decode(TOO_LONG[PKT_OFFSET..]) == None && Parsed(host, TOO_LONG, 8).iaPds == [PKT_OFFSET]
  {
    var offs := Offsets(TOO_LONG, PKT_OFFSET, 8);
    assert offs == [PKT_OFFSET];
    assert CodeAt(TOO_LONG, PKT_OFFSET) == IA_PD;
    assert All(TOO_LONG, [PKT_OFFSET], IA_PD) == [PKT_OFFSET] + All(TOO_LONG, [PKT_OFFSET][1..], IA_PD);
    var s := TOO_LONG[PKT_OFFSET..];
    assert |s| == 4 && FromBe16(s, 2) == 99;
  }

  // ---- round trips ----

  /** Where the options of a list start when the first starts at `o`. */
  function Starts(opts: seq<Opt>, o: nat): (offs: seq<nat>)
    ensures |offs| == |opts|
  {
    if opts == [] then [] else [o] + Starts(opts[1..], o + opts[0].Size())
  }

  /** A well-formed options region is visited option by option. */
  lemma {:induction false} VisitsEncoded(b: seq<byte>, o: nat, size: nat, opts: seq<Opt>)
    requires o <= size <= |b| && b[o..size] == Encode(opts) && opts != []
    ensures ReadsInside(b, o, size) && Offsets(b, o, size) == Starts(opts, o)
    decreases |opts|
  {
    hide Opt.Wire, FromBe16, OptSize;
    var n := opts[0].Size();
    EncodedAt(b, o, size, opts);
    if opts[1..] != [] {
      assert Encode(opts[1..]) != [];
      VisitsEncoded(b, o + n, size, opts[1..]);
    } else {
      assert Starts(opts[1..], o + n) == [];
    }
  }

  /** Conversion turns the region into the same options with host headers and
      touches nothing else. */
  lemma {:induction false} ConvertsEncoded(host: Host, b: seq<byte>, o: nat, size: nat, opts: seq<Opt>)
    requires o <= size <= |b| && b[o..size] == Encode(opts)
    ensures var c := Converted(host, b, Starts(opts, o));
            c[..o] == b[..o] && c[o..size] == InMemory(host, opts) && c[size..] == b[size..]
    decreases |opts|
  {
    hide HeaderSwapped, Converted, Opt.Wire, Opt.Memory, CodeAt, OptSize, FromBe16, Last, All;
    NoVisit(host, b, None);
    if opts != [] {
      var n := opts[0].Size();
      EncodedAt(b, o, size, opts);
      WireToMemory(host, b, o, opts[0]);
      var m := HeaderSwapped(host, b, o);
      TailKept(b, m, o + HEADER_SIZE, o + n, size);
      ConvertsEncoded(host, m, o + n, size, opts[1..]);
      var rest := Starts(opts[1..], o + n);
      ConvertedCons(host, b, o, rest);
      Assemble(Converted(host, m, rest), m, o, o + n, size);
    }
  }

  lemma ConvertedCons(host: Host, b: seq<byte>, o: nat, rest: seq<nat>)
    requires o + HEADER_SIZE <= |b|
    ensures Converted(host, b, [o] + rest) == Converted(host, HeaderSwapped(host, b, o), rest)
  {
    assert ([o] + rest)[1..] == rest;
  }

  lemma Assemble(c: seq<byte>, m: seq<byte>, o: nat, p: nat, size: nat)
    requires o <= p <= size <= |c| == |m| && c[..p] == m[..p]
    ensures c[..o] == m[..o] && c[o..size] == m[o..p] + c[p..size]
  {
    assert c[..o] == c[..p][..o] && m[..o] == m[..p][..o];
    assert c[o..p] == c[..p][o..] && m[o..p] == m[..p][o..];
  }

  lemma TailKept(b: seq<byte>, m: seq<byte>, p: nat, q: nat, size: nat)
    requires p <= q <= size <= |b| == |m| && m[p..] == b[p..]
    ensures m[q..size] == b[q..size] && m[size..] == b[size..]
  {
    forall i | p <= i < |b|
      ensures m[i] == b[i]
    {
      assert m[p..][i - p] == b[p..][i - p];
    }
  }

  // ---- what the recorded pointers denote ----

  predicate AllComplete(host: Host, m: seq<byte>, offs: seq<nat>) {
    forall i :: 0 <= i < |offs| ==> Complete(host, m, offs[i])
  }

  /** The options behind a list of pointers into `m`. */
  function OptsAt(host: Host, m: seq<byte>, offs: seq<nat>): (r: seq<Opt>)
    requires AllComplete(host, m, offs)
    ensures |r| == |offs|
  {
    seq(|offs|, i requires 0 <= i < |offs| => OptAt(host, m, offs[i]))
  }

  function WithCode(opts: seq<Opt>, code: uint16): seq<Opt> {
    if opts == [] then []
    else (if opts[0].code == code then [opts[0]] else []) + WithCode(opts[1..], code)
  }

  lemma InMemoryAt(host: Host, m: seq<byte>, o: nat, size: nat, opts: seq<Opt>)
    requires o <= size <= |m| && m[o..size] == InMemory(host, opts) && opts != []
    ensures Complete(host, m, o) && OptAt(host, m, o) == opts[0]
    ensures o + opts[0].Size() <= size && m[o + opts[0].Size()..size] == InMemory(host, opts[1..])
  {
    hide Opt.Memory, OptAt, Complete;
    var s, n := m[o..size], opts[0].Size();
    Parts(opts[0].Memory(host), InMemory(host, opts[1..]));
    Slice(m, o, size, 0, n);
    Slice(m, o, size, n, size - o);
    assert s[..n] == s[0..n] && s[n..] == s[n..size - o];
    ImageRead(host, m, o, opts[0]);
  }

  /** Every option is found at its start. */
  lemma {:induction false} StartsPoint(host: Host, m: seq<byte>, o: nat, size: nat, opts: seq<Opt>)
    requires o <= size <= |m| && m[o..size] == InMemory(host, opts)
    ensures AllComplete(host, m, Starts(opts, o)) && OptsAt(host, m, Starts(opts, o)) == opts
    decreases |opts|
  {
    hide Opt.Wire, Opt.Memory, Complete, OptAt;
    if opts != [] {
      InMemoryAt(host, m, o, size, opts);
      var rest := Starts(opts[1..], o + opts[0].Size());
      StartsPoint(host, m, o + opts[0].Size(), size, opts[1..]);
      OptsAtCons(host, m, o, rest);
      assert [opts[0]] + opts[1..] == opts;
    }
  }

  lemma OptsAtCons(host: Host, m: seq<byte>, o: nat, rest: seq<nat>)
    requires Complete(host, m, o) && AllComplete(host, m, rest)
    ensures AllComplete(host, m, [o] + rest) && OptsAt(host, m, [o] + rest) == [OptAt(host, m, o)] + OptsAt(host, m, rest)
  {
  }

  /** The offsets picked by code denote exactly the options with that code. */
  lemma {:induction false} PicksEncoded(host: Host, b: seq<byte>, m: seq<byte>, o: nat, size: nat, opts: seq<Opt>, code: uint16)
    requires o <= size <= |b| == |m| && b[o..size] == Encode(opts) && m[o..size] == InMemory(host, opts)
    ensures var picked := All(b, Starts(opts, o), code);
            AllComplete(host, m, picked) && OptsAt(host, m, picked) == WithCode(opts, code)
    decreases |opts|
  {
    hide Opt.Wire, Opt.Memory, Complete, OptAt, CodeAt, All, OptSize, FromBe16, Encode;
    if opts == [] {
      NoVisit(host, b, None);
    } else {
      var n := opts[0].Size();
      InMemoryAt(host, m, o, size, opts);
      EncodedAt(b, o, size, opts);
      PicksEncoded(host, b, m, o + n, size, opts[1..], code);
      var rest := Starts(opts[1..], o + n);
      AllCons(b, o, rest, code);
      if opts[0].code == code {
        OptsAtCons(host, m, o, All(b, rest, code));
      }
    }
  }

  lemma AllCons(b: seq<byte>, o: nat, rest: seq<nat>, code: uint16)
    ensures All(b, [o] + rest, code) == if CodeAt(b, o) == code then [o] + All(b, rest, code) else All(b, rest, code)
  {
    assert ([o] + rest)[1..] == rest;
    assert [] + All(b, rest, code) == All(b, rest, code);
  }

  lemma EncodedAt(b: seq<byte>, o: nat, size: nat, opts: seq<Opt>)
    requires o <= size <= |b| && b[o..size] == Encode(opts) && opts != []
    ensures o + opts[0].Size() <= size && CodeAt(b, o) == opts[0].code && OptSize(b, o) == opts[0].Size()
    ensures b[o..o + opts[0].Size()] == opts[0].Wire()
    ensures b[o + opts[0].Size()..size] == Encode(opts[1..])
  {
    hide Opt.Wire;
    var s, n := b[o..size], opts[0].Size();
    WireFields(s, opts[0], Encode(opts[1..]));
    Parts(opts[0].Wire(), Encode(opts[1..]));
    Slice(b, o, size, 0, n);
    Slice(b, o, size, n, size - o);
    assert s[n..] == s[n..size - o];
    assert forall k :: 0 <= k < HEADER_SIZE ==> s[k] == b[o + k];
  }

  /** The first option of a list with the given code. */
  function FirstAt(opts: seq<Opt>, code: uint16): (i: nat)
    requires WithCode(opts, code) != []
    ensures i < |opts| && opts[i] == WithCode(opts, code)[0] && opts[i].code == code
    ensures forall j :: 0 <= j < i ==> opts[j].code != code
  {
    if opts[0].code == code then 0 else 1 + FirstAt(opts[1..], code)
  }

  /** The first pointer kept for a code points at the start of the first option
      with that code. */
  lemma {:induction false} FirstPicked(b: seq<byte>, o: nat, size: nat, opts: seq<Opt>, code: uint16)
    requires o <= size <= |b| && b[o..size] == Encode(opts) && WithCode(opts, code) != []
    ensures var picked := All(b, Starts(opts, o), code);
            picked != [] && picked[0] == o + |Encode(opts[..FirstAt(opts, code)])|
    decreases |opts|
  {
    hide Opt.Wire, CodeAt, All, OptSize, FromBe16;
    EncodedAt(b, o, size, opts);
    var n := opts[0].Size();
    AllCons(b, o, Starts(opts[1..], o + n), code);
    if opts[0].code == code {
      assert opts[..0] == [];
    } else {
      FirstPicked(b, o + n, size, opts[1..], code);
      var i := FirstAt(opts[1..], code);
      assert opts[..i + 1] == [opts[0]] + opts[1..][..i];
      EncodeCons(opts[0], opts[1..][..i]);
    }
  }

  /** The pointer kept for a code is the last of those picked. */
  lemma {:induction false} LastOfAll(found: Option<nat>, b: seq<byte>, offs: seq<nat>, code: uint16)
    ensures var picked := All(b, offs, code);
            Last(found, b, offs, code) == if picked == [] then found else Some(picked[|picked| - 1])
    decreases |offs|
  {
    if offs != [] {
      LastOfAll(if CodeAt(b, offs[0]) == code then Some(offs[0]) else found, b, offs[1..], code);
    }
  }

  /** A recorded pointer is null when there is no candidate, and otherwise
      denotes the last one. */
  predicate DenotesLast(host: Host, m: seq<byte>, p: Option<nat>, candidates: seq<Opt>) {
    match p
    case None => candidates == []
    case Some(o) => candidates != [] && Complete(host, m, o) && OptAt(host, m, o) == candidates[|candidates| - 1]
  }

  lemma LastDenotes(host: Host, b: seq<byte>, m: seq<byte>, size: nat, opts: seq<Opt>, code: uint16)
    requires PKT_OFFSET <= size <= |b| == |m|
    requires b[PKT_OFFSET..size] == Encode(opts) && m[PKT_OFFSET..size] == InMemory(host, opts)
    ensures DenotesLast(host, m, Last(None, b, Starts(opts, PKT_OFFSET), code), WithCode(opts, code))
  {
    var offs := Starts(opts, PKT_OFFSET);
    PicksEncoded(host, b, m, PKT_OFFSET, size, opts, code);
    LastOfAll(None, b, offs, code);
    var picked := All(b, offs, code);
    if picked != [] {
      assert OptsAt(host, m, picked)[|picked| - 1] == OptAt(host, m, picked[|picked| - 1]);
    }
  }

  /** Build, then parse: a message whose options region encodes a non-empty list
      is visited exactly option by option; afterwards the region holds the
      concatenated payloads in host form, nothing else has changed, the visited
      pointers denote the list, the recorded ones its last client identifier,
      its last server identifier and all its IA_PD options in order. */
  lemma ParseEncoded(host: Host, b: seq<byte>, size: nat, opts: seq<Opt>)
    requires PKT_OFFSET <= size <= |b| && b[PKT_OFFSET..size] == Encode(opts) && opts != []
    ensures ReadsInside(b, PKT_OFFSET, size)
    ensures var p, offs := Parsed(host, b, size), Offsets(b, PKT_OFFSET, size);
            && |p.memory| == |b| && p.memory[..PKT_OFFSET] == b[..PKT_OFFSET] && p.memory[size..] == b[size..]
            && p.memory[PKT_OFFSET..size] == InMemory(host, opts)
            && AllComplete(host, p.memory, offs) && OptsAt(host, p.memory, offs) == opts
            && DenotesLast(host, p.memory, p.client, WithCode(opts, 1))
            && DenotesLast(host, p.memory, p.server, WithCode(opts, 2))
            && AllComplete(host, p.memory, p.iaPds) && OptsAt(host, p.memory, p.iaPds) == WithCode(opts, 25)
  {
    VisitsEncoded(b, PKT_OFFSET, size, opts);
    ConvertsEncoded(host, b, PKT_OFFSET, size, opts);
    var m := Converted(host, b, Starts(opts, PKT_OFFSET));
    StartsPoint(host, m, PKT_OFFSET, size, opts);
    PicksEncoded(host, b, m, PKT_OFFSET, size, opts, IA_PD);
    LastDenotes(host, b, m, size, opts, CLIENTID);
    LastDenotes(host, b, m, size, opts, SERVERID);
  }

  lemma EncodeEmpty(opts: seq<Opt>)
    ensures Encode(opts) == [] <==> opts == []
  {
  }

  /** The round trip on what the builder produces: the message is admitted and
      ends as type, transaction id and the payloads exactly as they lay in the
      caller's memory. */
  lemma BuildParseRoundTrip(host: Host, msgType: byte, transId: TransactionId, opts: seq<Opt>)
    requires (msgType == ADVERTISE || msgType == REPLY) && opts != []
    ensures var b := [msgType] + transId + Encode(opts);
            && Admitted(b, |b|) && ReadsInside(b, PKT_OFFSET, |b|)
            && Parsed(host, b, |b|).memory == [msgType] + transId + InMemory(host, opts)
            && AllComplete(host, Parsed(host, b, |b|).memory, Starts(opts, PKT_OFFSET))
            && OptsAt(host, Parsed(host, b, |b|).memory, Starts(opts, PKT_OFFSET)) == opts
  {
    hide Parsed, ReadsInside, OptsAt, AllComplete, DenotesLast, Opt.Wire, Opt.Memory, Starts, Offsets, Encode, InMemory;
    var header := [msgType] + transId;
    var b := header + Encode(opts);
    Parts(header, Encode(opts));
    assert b[0] == msgType;
    assert b[PKT_OFFSET..|b|] == Encode(opts);
    EncodeEmpty(opts);
    ParseEncoded(host, b, |b|, opts);
    VisitsEncoded(b, PKT_OFFSET, |b|, opts);
    var m := Parsed(host, b, |b|).memory;
    assert m == m[..PKT_OFFSET] + m[PKT_OFFSET..|b|] + m[|b|..];
  }

  /** Parse, then rebuild: any message whose options tile it is recovered byte
      for byte from its type, its transaction id and the visited pointers. */
  lemma RebuildParsed(host: Host, b: seq<byte>, size: nat)
    requires PKT_OFFSET < size <= |b| && Decode(b[PKT_OFFSET..size]).Some?
    ensures ReadsInside(b, PKT_OFFSET, size)
    ensures var m, offs := Parsed(host, b, size).memory, Offsets(b, PKT_OFFSET, size);
            AllComplete(host, m, offs) && [b[0]] + b[1..PKT_OFFSET] + Encode(OptsAt(host, m, offs)) == b[..size]
  {
    hide Parsed, Offsets, ReadsInside, OptsAt, Complete, DenotesLast, Opt.Wire;
    var opts := Decode(b[PKT_OFFSET..size]).value;
    EncodeDecoded(b[PKT_OFFSET..size]);
    assert opts != [];
    ParseEncoded(host, b, size, opts);
    assert b[..size] == [b[0]] + b[1..PKT_OFFSET] + b[PKT_OFFSET..size];
  }
}

/** Building UDP datagrams in place (kernel/src/net/protocols/{eth,udp}.rs, ip/{v4,v6,ip}.rs): the
    headers are written through a splitting cursor, and lengths and checksums are patched in later. */
module UdpBuilders {
  import opened Machine
  import opened Checksum
  import opened Cursors
  import opened Frames

  /* ---- The bytes of a datagram under construction ------------------------------------------------- */

  /** The fields that are filled in late; `ipLen` is the total length for IPv4, the payload length for IPv6. */
  datatype Late = Late(ipLen: u16, ipCrc: Bytes, udpLen: u16, udpCrc: u16)

  const Unfilled := Late(0, [0, 0], 0, 0)

  function IpBytes(a: Address, protocol: byte, late: Late): Bytes {
    if a.srcIp.V4? then Ipv4Header(a, late.ipLen, protocol, late.ipCrc) else Ipv6Header(a, late.ipLen, protocol)
  }

  function IpHeaderLen(a: Address): nat { if a.srcIp.V4? then 20 else 40 }

  function Layout(a: Address, late: Late, data: Bytes): Bytes {
    EthHeader(a) + IpBytes(a, 0x11, late) + UdpHeader(a, late.udpLen, late.udpCrc) + data
  }

  /** A header checksum that also covers whatever its own field held before. */
  function IpCrcOver(a: Address, ipLen: u16, crc: Bytes): Bytes {
    var sum: u16 := 0xFFFF - Ones(WordSum(Ipv4Header(a, ipLen, 0x11, crc)));
    [sum % 0x100, sum / 0x100]
  }

  function UdpCrcOver(a: Address, data: Bytes, crc: u16): u16
    requires |data| + 8 <= 0xFFFF
  {
    Complement(Ones(WordSum(PseudoHeader(a, |data| + 8)) + WordSum(UdpHeader(a, |data| + 8, crc)) + WordSum(data)))
  }

  /** What finalizing makes of the late fields. */
  function Finalized(a: Address, data: Bytes, late: Late): Late
    requires |data| + 28 <= 0xFFFF
  {
    if a.srcIp.V4? then Late(|data| + 28, IpCrcOver(a, |data| + 28, late.ipCrc), |data| + 8, late.udpCrc)
    else Late(|data| + 8, late.ipCrc, |data| + 8, UdpCrcOver(a, data, late.udpCrc))
  }

  /** Finalizing once, from unfilled fields, gives the frame. */
  lemma FinalizedOnceIsFrame(a: Address, data: Bytes)
    requires |data| + 28 <= 0xFFFF
    ensures Layout(a, Finalized(a, data, Unfilled), data) == Frame(a, data)
  {
    hide EthHeader, Ipv4Header, Ipv6Header, UdpHeader, PseudoHeader, Ones, WordSum, Complement;
  }

  /** The sum of pseudo-header, UDP header with an empty checksum field, and data. */
  function UnsignedSum(a: Address, data: Bytes): nat
    requires |data| + 8 <= 0xFFFF
  {
    WordSum(PseudoHeader(a, |data| + 8) + UdpHeader(a, |data| + 8, 0) + data)
  }

  /** The ones-complement sum that the receiver of a datagram with this checksum computes. */
  function ReceivedSum(a: Address, data: Bytes, crc: u16): u16
    requires |data| + 8 <= 0xFFFF
  {
    Ones(WordSum(PseudoHeader(a, |data| + 8) + UdpHeader(a, |data| + 8, crc) + data))
  }

  /** The builder finalizes again when it is dropped. Over IPv6 the second pass sums over the checksum of
      the first and always stores 0xFFFF. The packet still verifies exactly when the sum of what was to
      be sent is a multiple of 0xFFFF. */
  lemma FinalizedTwice(a: Address, data: Bytes)
    requires a.Valid() && SameFamily(a) && a.srcIp.V6? && |data| + 28 <= 0xFFFF
    ensures var once := Finalized(a, data, Unfilled); var twice := Finalized(a, data, once);
      && ReceivedSum(a, data, once.udpCrc) == 0xFFFF
      && twice == once.(udpCrc := 0xFFFF)
      && (ReceivedSum(a, data, twice.udpCrc) == 0xFFFF <==> UnsignedSum(a, data) % 0xFFFF == 0)
  {
    hide WordSum, Ones, PseudoHeader, UdpHeader, Complement;
    UdpCrcVerifies(a, data, 0xFFFF);
    UdpCrcOverItself(a, data);
    assert UdpCrcOver(a, data, 0) == UdpCrc(a, data);
    SumOfPacket(a, data, 0);
    HeaderSum(a, |data| + 8);
    FullComplement(UnsignedSum(a, data));
  }

  lemma FullComplement(sum: nat)
    requires sum > 0
    ensures Complement(Ones(sum)) == 0xFFFF <==> sum % 0xFFFF == 0
  {
    var q, r := (sum - 1) / 0xFFFF, (sum - 1) % 0xFFFF;
    if r == 0xFFFE {
      DivModUnique(sum, q + 1, 0, 0xFFFF);
    } else {
      DivModUnique(sum, q, r + 1, 0xFFFF);
    }
  }

  lemma HeaderSum(a: Address, len: u16)
    ensures var s: int, d: int := a.srcPort, a.dstPort; WordSum(UdpHeader(a, len, 0)) == s + d + len
  {
    hide WordSum, Be16;
    var x, y, z, e := Be16(a.srcPort), Be16(a.dstPort), Be16(len), Be16(0);
    BePair(a.srcPort);
    BePair(a.dstPort);
    BePair(len);
    BePair(0);
    WordSumConcat(x + y + z, e);
    WordSumConcat(x + y, z);
    WordSumConcat(x, y);
  }

  lemma BePair(x: u16)
    ensures |Be16(x)| == 2 && WordSum(Be16(x)) == x
  {
    WordSumOf(x);
  }

  lemma {:induction false} ZerosSum(n: nat)
    ensures WordSum(seq(n, _ => 0)) == 0
  {
    if n >= 2 {
      assert seq(n, _ => 0)[2..] == seq(n - 2, _ => 0);
      ZerosSum(n - 2);
    }
  }

  /** An empty datagram between two unspecified addresses verifies after the first pass, and not after
      the second. */
  lemma SecondPassBreaks() returns (a: Address, data: Bytes)
    ensures a.Valid() && SameFamily(a) && a.srcIp.V6? && |data| + 28 <= 0xFFFF
    ensures var once := Finalized(a, data, Unfilled); var twice := Finalized(a, data, once);
      ReceivedSum(a, data, once.udpCrc) == 0xFFFF && ReceivedSum(a, data, twice.udpCrc) != 0xFFFF
  {
    var zeros: Bytes := seq(16, _ => 0);
    a, data := Address(seq(6, _ => 0), seq(6, _ => 0), V6(zeros), V6(zeros), 0, 0), [];
    hide WordSum, PseudoHeader, UdpHeader, Finalized, ReceivedSum;
    FinalizedTwice(a, data);
    SumOfPacket(a, data, 0);
    HeaderSum(a, 8);
    ZeroPseudoSum(a);
    EmptySum();
    assert UnsignedSum(a, data) == 0x21;
  }

  lemma ZeroPseudoSum(a: Address)
    requires a.srcIp.octets == a.dstIp.octets == seq(16, _ => 0)
    ensures WordSum(PseudoHeader(a, 8)) == 0x19
  {
    var rest: Bytes := [0, 0, 0, 8, 0, 0, 0, 0x11];
    assert PseudoHeader(a, 8) == seq(32, _ => 0) + rest;
    hide WordSum, PseudoHeader;
    ZerosSum(32);
    WordSumConcat(seq(32, _ => 0), rest);
    RestSum();
  }

  lemma EmptySum()
    ensures WordSum([]) == 0
  {
  }

  lemma RestSum()
    ensures WordSum([0, 0, 0, 8, 0, 0, 0, 0x11]) == 0x19
  {
    var b: Bytes := [0, 0, 0, 8, 0, 0, 0, 0x11];
    assert b[2..] == [0, 8, 0, 0, 0, 0x11] && b[2..][2..] == [0, 0, 0, 0x11] && b[2..][2..][2..] == [0, 0x11];
    assert WordSum([0, 0x11]) == 0x11 by { EmptySum(); assert [0, 0x11][2..] == []; }
  }

  lemma UdpCrcOverItself(a: Address, data: Bytes)
    requires a.Valid() && SameFamily(a) && a.srcIp.V6? && |data| + 28 <= 0xFFFF
    ensures UdpCrcOver(a, data, UdpCrc(a, data)) == 0xFFFF
  {
    hide WordSum, Ones, PseudoHeader, UdpHeader, Complement;
    var crc := UdpCrc(a, data);
    UdpCrcVerifies(a, data, crc);
    SumOfPacket(a, data, crc);
    PatchedSum(a, |data| + 8, crc);
    ComplementOfAll();
  }

  lemma ComplementOfAll()
    ensures Complement(0xFFFF) == 0xFFFF
  {
  }

  /* ---- Patching a field ------------------------------------------------------------------------------ */

  /** Overwriting inside the middle section changes that section only. */
  lemma OverlayMiddle<T>(front: seq<T>, mid: seq<T>, back: seq<T>, at: nat, d: seq<T>)
    requires at + |d| <= |mid|
    ensures Overlay(front + mid + back, |front| + at, d) == front + Overlay(mid, at, d) + back
  {
  }

  lemma IpLengths(a: Address, protocol: byte, late: Late)
    requires a.Valid() && SameFamily(a) && |late.ipCrc| == 2
    ensures |IpBytes(a, protocol, late)| == IpHeaderLen(a)
  {
  }

  lemma IpPatchLen(a: Address, protocol: byte, late: Late, x: u16)
    requires a.Valid() && SameFamily(a) && |late.ipCrc| == 2
    ensures |IpBytes(a, protocol, late)| == IpHeaderLen(a)
    ensures Overlay(IpBytes(a, protocol, late), if a.srcIp.V4? then 2 else 4, Be16(x)) == IpBytes(a, protocol, late.(ipLen := x))
  {
    assert |Be16(x)| == |Be16(late.ipLen)| == 2;
    hide Be16;
  }

  lemma IpPatchProtocol(a: Address, late: Late)
    requires a.Valid() && SameFamily(a) && |late.ipCrc| == 2
    ensures |IpBytes(a, 0, late)| == IpHeaderLen(a)
    ensures Overlay(IpBytes(a, 0, late), if a.srcIp.V4? then 9 else 6, [0x11]) == IpBytes(a, 0x11, late)
    ensures Overlay(IpBytes(a, 0x11, late), if a.srcIp.V4? then 9 else 6, [0x11]) == IpBytes(a, 0x11, late)
  {
  }

  lemma IpPatchCrc(a: Address, late: Late, crc: Bytes)
    requires a.Valid() && SameFamily(a) && a.srcIp.V4? && |late.ipCrc| == 2 && |crc| == 2
    ensures |IpBytes(a, 0x11, late)| == 20
    ensures Overlay(IpBytes(a, 0x11, late), 10, crc) == IpBytes(a, 0x11, late.(ipCrc := crc))
  {
  }

  lemma UdpPatch(a: Address, len: u16, crc: u16, x: u16)
    ensures |UdpHeader(a, len, crc)| == 8
    ensures Overlay(UdpHeader(a, len, crc), 4, Be16(x)) == UdpHeader(a, x, crc)
    ensures Overlay(UdpHeader(a, len, crc), 6, Be16(x)) == UdpHeader(a, len, x)
  {
  }

  /* ---- Writing the headers -------------------------------------------------------------------------- */

  /** `eth::Builder::new`. */
  method BuildEth(c: PacketCursor, a: Address) returns (r: Option<()>)
    requires c.Valid() && a.Valid()
    modifies c.packet, c.packet.raw, c.inner
    ensures c.Valid() && c.inner.lo == old(c.inner.lo)
    ensures r.Some? <==> old(c.packet.length) + 12 <= MAX_PACKET_LEN
    ensures r.Some? ==> c.packet.Bytes() == old(c.packet.Bytes()) + a.dstMac + a.srcMac
  {
    hide IpBytes, Be16, Cursor.Valid, Packet.Valid, Packet.Bytes;
    var _ :- c.Write(a.dstMac);
    var _ :- c.Write(a.srcMac);
    r := Some(());
  }

  /** Where the IP header lies and where in it the late fields are. */
  datatype IpBuilder =
    | BuilderV4(hdr: nat, len: nat, prot: nat, crc: nat)
    | BuilderV6(hdr: nat, len: nat, prot: nat)
  {
    predicate PlacedFor(a: Address) {
      if a.srcIp.V4? then BuilderV4? && len == 2 && prot == 9 && crc == 10
      else BuilderV6? && len == 4 && prot == 6
    }
  }

  const FixedV4: Bytes := [0x45, 0, 0, 0, 0, 0, 0, 0, 64, 0, 0, 0]
  const FixedV6: Bytes := [0x60, 0, 0, 0, 0, 0, 0, 64]

  lemma FixedThenAddresses(a: Address, b: Bytes)
    requires a.Valid() && SameFamily(a)
    ensures b + (if a.srcIp.V4? then FixedV4 else FixedV6) + a.srcIp.octets + a.dstIp.octets == b + IpBytes(a, 0, Unfilled)
  {
    assert Be16(0) == [0, 0];
  }

  lemma PartsOfV4(b: Bytes)
    ensures b + [0x45] + [0] + Be16(0) + [0, 0, 0, 0] + [64] + [0] + Be16(0) == b + FixedV4 && |Be16(0)| == 2
  {
  }

  lemma PartsOfV6(b: Bytes)
    ensures b + [0x60] + [0] + Be16(0) + Be16(0) + [0] + [64] == b + FixedV6 && |Be16(0)| == 2
  {
  }

  /** The first twelve bytes of an IPv4 header; returns where its length, protocol and checksum are. */
  method WriteFixedV4(c: PacketCursor) returns (r: Option<(nat, nat, nat)>)
    requires c.Valid() && c.inner.pos == 0
    modifies c.packet, c.packet.raw, c.inner
    ensures c.Valid() && c.inner.lo == old(c.inner.lo)
    ensures r.Some? <==> old(c.packet.length) + 12 <= MAX_PACKET_LEN
    ensures r.Some? ==> r.value == (2, 9, 10) && c.packet.Bytes() == old(c.packet.Bytes()) + FixedV4
                        && c.packet.length == old(c.packet.length) + 12 && c.inner.pos == 12
  {
    hide Be16, Cursor.Valid, Packet.Valid, Packet.Bytes;
    PartsOfV4(old(c.packet.Bytes()));
    var _ :- c.Write([4 * 0x10 + 5]);
    var _ :- c.Write([0]);
    var len :- c.Write(Be16(0));
    var _ :- c.Write([0, 0, 0, 0]);
    var _ :- c.Write([64]);
    var prot :- c.Write([0]);
    var crc :- c.Write(Be16(0));
    r := Some((len, prot, crc));
  }

  /** The first eight bytes of an IPv6 header; returns where its length and next header are. */
  method WriteFixedV6(c: PacketCursor) returns (r: Option<(nat, nat)>)
    requires c.Valid() && c.inner.pos == 0
    modifies c.packet, c.packet.raw, c.inner
    ensures c.Valid() && c.inner.lo == old(c.inner.lo)
    ensures r.Some? <==> old(c.packet.length) + 8 <= MAX_PACKET_LEN
    ensures r.Some? ==> r.value == (4, 6) && c.packet.Bytes() == old(c.packet.Bytes()) + FixedV6
                        && c.packet.length == old(c.packet.length) + 8 && c.inner.pos == 8
  {
    hide Be16, Cursor.Valid, Packet.Valid, Packet.Bytes;
    PartsOfV6(old(c.packet.Bytes()));
    var _ :- c.Write([6 * 0x10]);
    var _ :- c.Write([0]);
    var _ :- c.Write(Be16(0));
    var len :- c.Write(Be16(0));
    var prot :- c.Write([0]);
    var _ :- c.Write([64]);
    r := Some((len, prot));
  }

  /** The source and destination addresses, which end both kinds of header. */
  method WriteAddresses(c: PacketCursor, a: Address) returns (r: Option<()>)
    requires c.Valid() && a.Valid() && SameFamily(a)
    modifies c.packet, c.packet.raw, c.inner
    ensures c.Valid() && c.inner.lo == old(c.inner.lo)
    ensures r.Some? <==> old(c.packet.length) + (IpHeaderLen(a) - if a.srcIp.V4? then 12 else 8) <= MAX_PACKET_LEN
    ensures r.Some? ==> c.packet.Bytes() == old(c.packet.Bytes()) + a.srcIp.octets + a.dstIp.octets
                        && c.packet.length == old(c.packet.length) + |a.srcIp.octets + a.dstIp.octets|
                        && c.inner.pos == old(c.inner.pos) + |a.srcIp.octets + a.dstIp.octets|
  {
    hide Cursor.Valid, Packet.Valid, Packet.Bytes;
    var _ :- c.Write(a.srcIp.octets);
    var _ :- c.Write(a.dstIp.octets);
    r := Some(());
  }

  /** `BuilderV4::new`. */
  method BuildV4(c: PacketCursor, a: Address) returns (r: Option<IpBuilder>)
    requires c.Valid() && a.Valid() && a.srcIp.V4? && a.dstIp.V4? && c.inner.pos == 0
    modifies c.packet, c.packet.raw, c.inner
    ensures c.Valid()
    ensures r.Some? <==> old(c.packet.length) + 20 <= MAX_PACKET_LEN
    ensures r.Some? ==> c.inner.pos == 0 && r.value.PlacedFor(a) && r.value.hdr == old(c.packet.length)
                        && c.packet.Bytes() == old(c.packet.Bytes()) + IpBytes(a, 0, Unfilled)
  {
    hide IpBytes, Be16, Cursor.Valid, Packet.Valid, Packet.Bytes;
    FixedThenAddresses(a, old(c.packet.Bytes()));
    var at :- WriteFixedV4(c);
    var _ :- WriteAddresses(c, a);
    var hdr := c.SplitAtCurrent();
    r := Some(BuilderV4(hdr, at.0, at.1, at.2));
  }

  /** `BuilderV6::new`. */
  method BuildV6(c: PacketCursor, a: Address) returns (r: Option<IpBuilder>)
    requires c.Valid() && a.Valid() && a.srcIp.V6? && a.dstIp.V6? && c.inner.pos == 0
    modifies c.packet, c.packet.raw, c.inner
    ensures c.Valid()
    ensures r.Some? <==> old(c.packet.length) + 40 <= MAX_PACKET_LEN
    ensures r.Some? ==> c.inner.pos == 0 && r.value.PlacedFor(a) && r.value.hdr == old(c.packet.length)
                        && c.packet.Bytes() == old(c.packet.Bytes()) + IpBytes(a, 0, Unfilled)
  {
    hide IpBytes, Be16, Cursor.Valid, Packet.Valid, Packet.Bytes;
    FixedThenAddresses(a, old(c.packet.Bytes()));
    var at :- WriteFixedV6(c);
    var _ :- WriteAddresses(c, a);
    var hdr := c.SplitAtCurrent();
    r := Some(BuilderV6(hdr, at.0, at.1));
  }

  /** The IP stage on top of Ethernet. The type is written first and its result ignored; if it did not
      fit then neither does the header. Addresses of two families are refused. */
  method BuildIp(c: PacketCursor, a: Address) returns (r: Option<IpBuilder>)
    requires c.Valid() && a.Valid()
    modifies c.packet, c.packet.raw, c.inner
    ensures c.Valid()
    ensures r.Some? <==> SameFamily(a) && old(c.packet.length) + 2 + IpHeaderLen(a) <= MAX_PACKET_LEN
    ensures r.Some? ==> c.inner.pos == 0 && r.value.PlacedFor(a) && r.value.hdr == old(c.packet.length) + 2
                        && c.packet.Bytes() == old(c.packet.Bytes()) + Be16(EthType(a)) + IpBytes(a, 0, Unfilled)
  {
    hide IpBytes, Cursor.Valid, Packet.Valid, Packet.Bytes;
    if a.srcIp.V4? && a.dstIp.V4? {
      var _ := c.Write(Be16(0x0800));
      var _ := c.SplitAtCurrent();
      r := BuildV4(c, a);
    } else if a.srcIp.V6? && a.dstIp.V6? {
      var _ := c.Write(Be16(0x86DD));
      var _ := c.SplitAtCurrent();
      r := BuildV6(c, a);
    } else {
      r := None;
    }
  }

  /** The transport protocol, patched into the finished IP header. */
  method SetProtocol(packet: Packet, ip: IpBuilder, ghost a: Address, ghost front: Bytes, ghost was: byte)
    requires packet.Valid() && a.Valid() && SameFamily(a) && ip.PlacedFor(a) && ip.hdr == |front|
    requires was == 0 || was == 0x11
    requires packet.Bytes() == front + IpBytes(a, was, Unfilled)
    modifies packet.raw
    ensures packet.Valid() && packet.Bytes() == front + IpBytes(a, 0x11, Unfilled)
  {
    hide IpBytes;
    IpPatchProtocol(a, Unfilled);
    OverlayMiddle(front, IpBytes(a, was, Unfilled), [], ip.prot, [0x11]);
    packet.Patch(ip.hdr + ip.prot, [0x11]);
  }

  /** The four header fields, then the split; returns where the header, its length and its checksum are. */
  method BuildUdp(c: PacketCursor, a: Address) returns (r: Option<(nat, nat, nat)>)
    requires c.Valid() && c.inner.pos == 0
    modifies c.packet, c.packet.raw, c.inner
    ensures c.Valid()
    ensures r.Some? <==> old(c.packet.length) + 8 <= MAX_PACKET_LEN
    ensures r.Some? ==> c.inner.pos == 0 && r.value == (old(c.packet.length), 4, 6)
                        && c.packet.Bytes() == old(c.packet.Bytes()) + UdpHeader(a, 0, 0)
  {
    hide Be16, Cursor.Valid, Packet.Valid, Packet.Bytes;
    PartsOfUdp(a, old(c.packet.Bytes()));
    var _ :- c.Write(Be16(a.srcPort));
    var _ :- c.Write(Be16(a.dstPort));
    var len :- c.Write(Be16(0));
    var crc :- c.Write(Be16(0));
    var hdr := c.SplitAtCurrent();
    r := Some((hdr, len, crc));
  }

  lemma PartsOfUdp(a: Address, b: Bytes)
    ensures |Be16(a.srcPort)| == |Be16(a.dstPort)| == |Be16(0)| == 2
    ensures b + Be16(a.srcPort) + Be16(a.dstPort) + Be16(0) + Be16(0) == b + UdpHeader(a, 0, 0)
  {
  }

  /** `packet.cursor()` and the three builders on top of each other, until the payload can be written. */
  method CreateUdp(packet: Packet, a: Address) returns (r: Option<UdpBuilder>)
    requires packet.Valid() && packet.length <= MAX_PACKET_LEN && a.Valid()
    modifies packet, packet.raw
    ensures r.Some? <==> SameFamily(a) && old(packet.length) + 14 + IpHeaderLen(a) + 8 <= MAX_PACKET_LEN
    ensures r.Some? ==> fresh(r.value) && fresh(r.value.payload) && fresh(r.value.payload.inner) && r.value.payload.packet == packet
    ensures r.Some? ==> r.value.Valid() && r.value.front == old(packet.Bytes()) && r.value.addr == a
                        && r.value.late == Unfilled && r.value.data == []
  {
    hide IpBytes, UdpHeader, EthHeader, Cursor.Valid, Packet.Valid, Packet.Bytes;
    ghost var front := packet.Bytes();
    var c := new PacketCursor(packet);
    var _ :- BuildEth(c, a);
    var ip :- BuildIp(c, a);
    ghost var headed := front + EthHeader(a);
    EthOf(a, front);
    SetProtocol(packet, ip, a, headed, 0);
    SetProtocol(packet, ip, a, headed, 0x11);
    LayoutOf(a, front);
    var udp :- BuildUdp(c, a);
    var b := new UdpBuilder(c, a, ip, udp.0, udp.1, udp.2, front);
    r := Some(b);
  }

  lemma EthOf(a: Address, front: Bytes)
    requires a.Valid()
    ensures |EthHeader(a)| == 14 && front + a.dstMac + a.srcMac + Be16(EthType(a)) == front + EthHeader(a)
  {
  }

  lemma LayoutOf(a: Address, front: Bytes)
    requires a.Valid() && SameFamily(a)
    ensures |IpBytes(a, 0x11, Unfilled)| == IpHeaderLen(a)
    ensures front + EthHeader(a) + IpBytes(a, 0x11, Unfilled) + UdpHeader(a, 0, 0) == front + Layout(a, Unfilled, [])
  {
    IpLengths(a, 0x11, Unfilled);
    hide EthHeader, IpBytes, UdpHeader;
  }

  class UdpBuilder {
    const payload: PacketCursor
    const addr: Address
    const ip: IpBuilder
    const hdr: nat
    const lenAt: nat
    const crcAt: nat
    ghost const front: Bytes  // what the packet held before
    ghost var late: Late
    ghost var data: Bytes     // the payload written so far

    ghost predicate Valid()
      reads this, payload, payload.packet, payload.packet.raw, payload.inner
    {
      && payload.Valid() && addr.Valid() && SameFamily(addr)
      && ip.PlacedFor(addr) && lenAt == 4 && crcAt == 6
      && ip.hdr == |front| + 14 && hdr == ip.hdr + IpHeaderLen(addr)
      && payload.inner.pos == |data| && |late.ipCrc| == 2
      && payload.packet.Bytes() == front + Layout(addr, late, data)
    }

    constructor (c: PacketCursor, a: Address, ip: IpBuilder, hdr: nat, lenAt: nat, crcAt: nat, ghost front: Bytes)
      requires c.Valid() && a.Valid() && SameFamily(a) && ip.PlacedFor(a) && lenAt == 4 && crcAt == 6
      requires ip.hdr == |front| + 14 && hdr == ip.hdr + IpHeaderLen(a) && c.inner.pos == 0
      requires c.packet.Bytes() == front + Layout(a, Unfilled, [])
      ensures Valid() && payload == c && addr == a && this.front == front && late == Unfilled && data == []
    {
      payload, addr, this.ip, this.hdr, this.lenAt, this.crcAt := c, a, ip, hdr, lenAt, crcAt;
      this.front, late, data := front, Unfilled, [];
    }

    /** Appends to the payload, or changes nothing if the frame would become too long. */
    method Write(d: Bytes) returns (at: Option<nat>)
      requires Valid() && |d| <= MAX_SLICE
      modifies this`data, payload.packet, payload.packet.raw, payload.inner
      ensures Valid() && data == old(data) + if at.Some? then d else []
      ensures at.Some? <==> old(payload.packet.length) + |d| <= MAX_PACKET_LEN
      ensures payload.packet.length == old(payload.packet.length) + if at.Some? then |d| else 0
    {
      hide EthHeader, IpBytes, UdpHeader, Cursor.Valid, Packet.Valid, Packet.Bytes;
      at := payload.Write(d);
      if at.Some? {
        assert Layout(addr, late, data) + d == Layout(addr, late, data + d);
        assert front + Layout(addr, late, data) + d == front + Layout(addr, late, data + d);
        data := data + d;
      } else {
        assert data + [] == data;
      }
    }

    /** The UDP length, as `write_len` computes and stores it. */
    method WriteLen() returns (size: u16)
      requires Valid()
      modifies this`late, payload.packet.raw
      ensures Valid() && size == |data| + 8 && late == old(late).(udpLen := size)
    {
      hide EthHeader, IpBytes, UdpHeader, Packet.Valid, Packet.Bytes;
      Sections(front, addr, late, data);
      size := 8 + payload.inner.pos;
      ghost var next := late.(udpLen := size);
      UdpSectionPatched(front, addr, late, data, lenAt, size, next);
      payload.packet.Patch(hdr + lenAt, Be16(size));
      late := next;
    }

    /** The length in the IP header, and over IPv4 its checksum. */
    method FinalizeIp(len: u16)
      requires Valid() && len == |data| + 8
      modifies this`late, payload.packet.raw
      ensures Valid() && late == old(late).(ipLen := if addr.srcIp.V4? then len + 20 else len,
                                            ipCrc := if addr.srcIp.V4? then IpCrcOver(addr, len + 20, old(late).ipCrc) else old(late).ipCrc)
    {
      hide Layout, EthHeader, IpBytes, UdpHeader, IpCrcOver, Packet.Valid, Packet.Bytes;
      Sections(front, addr, late, data);
      if ip.BuilderV4? {
        WriteIpLen(20 + len);
        WriteIpCrc();
      } else {
        WriteIpLen(len);
      }
    }

    method WriteIpLen(len: u16)
      requires Valid()
      modifies this`late, payload.packet.raw
      ensures Valid() && late == old(late).(ipLen := len)
    {
      hide Layout, EthHeader, IpBytes, UdpHeader, Cursor.Valid, Packet.Valid, Packet.Bytes;
      Sections(front, addr, late, data);
      ghost var next := late.(ipLen := len);
      IpPatchLen(addr, 0x11, late, len);
      IpSectionPatched(front, addr, late, data, ip.len, Be16(len), next);
      payload.packet.Patch(ip.hdr + ip.len, Be16(len));
      late := next;
    }

    /** The IPv4 header checksum, stored in the byte order of the machine. */
    method WriteIpCrc()
      requires Valid() && addr.srcIp.V4?
      modifies this`late, payload.packet.raw
      ensures Valid() && late == old(late).(ipCrc := IpCrcOver(addr, old(late).ipLen, old(late).ipCrc))
    {
      hide Layout, EthHeader, Ipv4Header, UdpHeader, Ones, WordSum, Cursor.Valid, Packet.Valid, Packet.Bytes;
      Sections(front, addr, late, data);
      var header := payload.packet.Bytes()[ip.hdr..ip.hdr + 20];
      assert header == IpBytes(addr, 0x11, late);
      var sum := Compute(header);
      var stored: u16 := 0xFFFF - sum;
      var crc := [stored % 0x100, stored / 0x100];
      ghost var next := late.(ipCrc := crc);
      IpPatchCrc(addr, late, crc);
      IpSectionPatched(front, addr, late, data, ip.crc, crc, next);
      payload.packet.Patch(ip.hdr + ip.crc, crc);
      late := next;
    }

    /** The UDP checksum over IPv6: three parts are summed and folded on their own. */
    method WriteCrc()
      requires Valid() && late.udpLen == |data| + 8
      modifies this`late, payload.packet.raw
      ensures Valid()
      ensures late == old(late).(udpCrc := if addr.srcIp.V4? then old(late).udpCrc else UdpCrcOver(addr, data, old(late).udpCrc))
    {
      hide Layout, EthHeader, IpBytes, UdpHeader, Fold, Ones, WordSum, Complement, PseudoHeader, Packet.Valid, Packet.Bytes;
      Sections(front, addr, late, data);
      if ip.BuilderV6? {
        var len: u16 := 8 + payload.inner.pos;
        var bytes := payload.packet.Bytes();
        assert bytes[hdr..hdr + 8] == UdpHeader(addr, late.udpLen, late.udpCrc);
        assert bytes[hdr + 8..] == data;
        PseudoLength(addr, len);
        var crc := PacketCrc(PseudoHeader(addr, len), bytes[hdr..hdr + 8], bytes[hdr + 8..]);
        ghost var next := late.(udpCrc := crc);
        UdpSectionPatched(front, addr, late, data, crcAt, crc, next);
        payload.packet.Patch(hdr + crcAt, Be16(crc));
        late := next;
      }
    }

    /** Fills in every late field from what the packet holds now. */
    method Finalize()
      requires Valid()
      modifies this`late, payload.packet.raw
      ensures Valid() && late == Finalized(addr, data, old(late))
    {
      hide Layout, EthHeader, IpBytes, UdpHeader, IpCrcOver, UdpCrcOver, Packet.Valid, Packet.Bytes;
      Sections(front, addr, late, data);
      var len := WriteLen();
      FinalizeIp(len);
      WriteCrc();
    }
  }

  lemma PseudoLength(a: Address, len: u16)
    requires a.Valid()
    ensures |PseudoHeader(a, len)| <= 40
  {
  }

  /** Folding three parts one by one, adding, folding again and complementing. */
  method PacketCrc(pseudo: Bytes, header: Bytes, data: Bytes) returns (crc: u16)
    requires |pseudo| <= 0xFFFF && |header| <= 0xFFFF && |data| <= 0xFFFF
    ensures crc == Complement(Ones(WordSum(pseudo) + WordSum(header) + WordSum(data)))
  {
    hide Fold, Ones, WordSum;
    var a: int := Compute(pseudo);
    var b: int := Compute(header);
    var c: int := Compute(data);
    var acc: u32 := a + b + c;
    FoldIsOnes(acc);
    OnesOfParts(WordSum(pseudo), WordSum(header), WordSum(data));
    crc := Complement(Fold(acc));
  }

  /** A datagram split around its IP header and around its UDP header. */
  lemma Sections(front: Bytes, a: Address, late: Late, data: Bytes)
    requires a.Valid() && SameFamily(a) && |late.ipCrc| == 2
    ensures var whole := front + Layout(a, late, data);
      && |EthHeader(a)| == 14 && |IpBytes(a, 0x11, late)| == IpHeaderLen(a) && |UdpHeader(a, late.udpLen, late.udpCrc)| == 8
      && whole == (front + EthHeader(a)) + IpBytes(a, 0x11, late) + (UdpHeader(a, late.udpLen, late.udpCrc) + data)
      && whole == (front + EthHeader(a) + IpBytes(a, 0x11, late)) + UdpHeader(a, late.udpLen, late.udpCrc) + data
      && |whole| == |front| + 14 + IpHeaderLen(a) + 8 + |data|
  {
    IpLengths(a, 0x11, late);
    EthOf(a, front);
    UdpPatch(a, late.udpLen, late.udpCrc, 0);
    hide EthHeader, IpBytes, UdpHeader;
  }

  /** Patching the length or the checksum of the UDP header. */
  lemma UdpSectionPatched(front: Bytes, a: Address, late: Late, data: Bytes, at: nat, x: u16, next: Late)
    requires a.Valid() && SameFamily(a) && |late.ipCrc| == 2
    requires (at == 4 && next == late.(udpLen := x)) || (at == 6 && next == late.(udpCrc := x))
    ensures |Be16(x)| == 2 && |Layout(a, late, data)| == 14 + IpHeaderLen(a) + 8 + |data|
    ensures Overlay(front + Layout(a, late, data), |front| + 14 + IpHeaderLen(a) + at, Be16(x)) == front + Layout(a, next, data)
  {
    assert |Be16(x)| == 2;
    assert IpBytes(a, 0x11, late) == IpBytes(a, 0x11, next);
    hide EthHeader, IpBytes, UdpHeader, Be16, Layout;
    Sections(front, a, late, data);
    Sections(front, a, next, data);
    UdpPatch(a, late.udpLen, late.udpCrc, x);
    OverlayMiddle(front + EthHeader(a) + IpBytes(a, 0x11, late), UdpHeader(a, late.udpLen, late.udpCrc), data, at, Be16(x));
  }

  /** Patching the IP header. */
  lemma IpSectionPatched(front: Bytes, a: Address, late: Late, data: Bytes, at: nat, d: Bytes, next: Late)
    requires a.Valid() && SameFamily(a) && |late.ipCrc| == |next.ipCrc| == 2
    requires next.udpLen == late.udpLen && next.udpCrc == late.udpCrc
    requires at + |d| <= IpHeaderLen(a) == |IpBytes(a, 0x11, late)|
    requires Overlay(IpBytes(a, 0x11, late), at, d) == IpBytes(a, 0x11, next)
    ensures |Layout(a, late, data)| == 14 + IpHeaderLen(a) + 8 + |data|
    ensures Overlay(front + Layout(a, late, data), |front| + 14 + at, d) == front + Layout(a, next, data)
  {
    hide EthHeader, IpBytes, UdpHeader, Layout;
    Sections(front, a, late, data);
    Sections(front, a, next, data);
    OverlayMiddle(front + EthHeader(a), IpBytes(a, 0x11, late), UdpHeader(a, late.udpLen, late.udpCrc) + data, at, d);
  }

  /* ---- Sending ---------------------------------------------------------------------------------------- */

  const PACKET_MIN_SIZE := 64

  /** The zero padding of short packets at the start of `send`. */
  method PadToMinimum(packet: Packet)
    requires packet.Valid() && packet.length <= MAX_PACKET_LEN
    modifies packet, packet.raw
    ensures packet.Valid() && packet.length == Max(old(packet.length), PACKET_MIN_SIZE)
    ensures packet.Bytes() == old(packet.Bytes()) + seq(packet.length - old(packet.length), _ => 0)
  {
    var len := packet.length;
    if len < PACKET_MIN_SIZE {
      var c := new PacketCursor(packet);
      var _ := c.SplitAtCurrent();
      var left := c.SplitAt(PACKET_MIN_SIZE - len);
      packet.Patch(left.value.0, seq(PACKET_MIN_SIZE - len, _ => 0));
      assert packet.Bytes()[..len] == old(packet.Bytes());
    }
    assert packet.Bytes() == old(packet.Bytes()) + seq(packet.length - len, _ => 0);
  }

  /** A datagram built into an empty packet, finalized once and padded, parses back to its addresses,
      ports and payload; it can be built exactly when it fits into a frame. */
  method BuildDatagram(packet: Packet, a: Address, payload: Bytes) returns (ok: bool)
    requires packet.Valid() && packet.length == 0 && a.Valid() && |payload| <= MAX_SLICE
    modifies packet, packet.raw
    ensures ok <==> SameFamily(a) && 14 + IpHeaderLen(a) + 8 + |payload| <= MAX_PACKET_LEN
    ensures ok ==> packet.Valid() && Delivers(packet.Bytes(), a, payload)
    ensures ok ==> Frame(a, payload) <= packet.Bytes() && |packet.Bytes()| == Max(|Frame(a, payload)|, PACKET_MIN_SIZE)
  {
    hide Frame, Layout, EthHeader, IpBytes, UdpHeader, Finalized, Delivers, Cursor.Valid, Packet.Valid, Packet.Bytes;
    var created := CreateUdp(packet, a);
    if created.None? {
      return false;
    }
    var b := created.value;
    Sections([], a, Unfilled, []);
    var at := b.Write(payload);
    if at.None? {
      return false;
    }
    b.Finalize();
    FinalizedOnceIsFrame(a, payload);
    assert b.front == [] && b.data == payload;
    assert packet.Bytes() == Frame(a, payload);
    PadToMinimum(packet);
    FrameRoundTrip(a, payload, seq(packet.length - |Frame(a, payload)|, _ => 0));
    ok := true;
  }
}

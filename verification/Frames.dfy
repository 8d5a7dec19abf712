/** Ethernet, IPv4, IPv6 and UDP headers (kernel/src/net/protocols): the parsers as the source has
    them, the layout of a finished frame, and the round trip between the two.

    References: RFC 768, section 3.1 of RFC 791, section 3 of RFC 8200. */
module Frames {
  import opened Machine
  import opened Checksum

  type Bytes = seq<byte>

  datatype ParseError =
    | TruncatedPacket | UnsupportedVersion | InvalidIpHeader | IpOptionsUnsupported | InvalidIpProtocol
    | FragmentationUnsupported | InvalidLength

  /** An IP address as its octets in network order. */
  datatype Ip = V4(octets: Bytes) | V6(octets: Bytes) {
    predicate Valid() { |octets| == if V4? then 4 else 16 }
  }

  datatype Address = Address(srcMac: Bytes, dstMac: Bytes, srcIp: Ip, dstIp: Ip, srcPort: u16, dstPort: u16) {
    predicate Valid() {
      |srcMac| == 6 && |dstMac| == 6 && srcIp.Valid() && dstIp.Valid()
    }
  }

  function Be16(x: u16): Bytes { [x / 0x100, x % 0x100] }

  function Word(hi: byte, lo: byte): u16 {
    var h: int := hi;
    h * 0x100 + lo
  }

  /** `slice.get(from..to)`. */
  function Get(b: Bytes, from: nat, to: nat): Option<Bytes>
    requires from <= to
  {
    if to <= |b| then Some(b[from..to]) else None
  }

  /* ---- Parsers -------------------------------------------------------------------------------------- */

  datatype Eth = Eth(dstMac: Bytes, srcMac: Bytes, ethType: u16, payload: Bytes)

  function ParseEth(raw: Bytes): Result<Eth, ParseError> {
    match (Get(raw, 0, 6), Get(raw, 6, 12), Get(raw, 12, 14))
    case (Some(dst), Some(src), Some(t)) => Ok(Eth(dst, src, Word(t[0], t[1]), raw[14..]))
    case _ => Err(TruncatedPacket)
  }

  datatype IpHeader = IpHeader(eth: Eth, srcIp: Ip, dstIp: Ip, protocol: byte, payload: Bytes)

  function ParseIpv4(raw: Bytes): Result<IpHeader, ParseError> {
    var eth := ParseEth(raw);
    if eth.Err? then Err(eth.error)
    else if eth.value.ethType != 0x0800 then Err(UnsupportedVersion)
    else if |eth.value.payload| < 20 then Err(InvalidIpHeader)
    else
      var h := eth.value.payload[..20];
      if h[0] / 0x10 != 4 then Err(UnsupportedVersion)
      else if h[0] % 0x10 != 5 then Err(IpOptionsUnsupported)
      else
        var total := Word(h[2], h[3]);
        var flags := h[6] / 0x20;
        if flags / 4 == 1 || flags % 2 == 1 then Err(FragmentationUnsupported)
        else if Word(h[6], h[7]) % 0x2000 != 0 then Err(FragmentationUnsupported)
        else if total < 20 || total > |eth.value.payload| then Err(InvalidLength)
        else Ok(IpHeader(eth.value, V4(h[12..16]), V4(h[16..20]), h[9], eth.value.payload[20..total]))
  }

  function ParseIpv6(raw: Bytes): Result<IpHeader, ParseError> {
    var eth := ParseEth(raw);
    if eth.Err? then Err(eth.error)
    else if eth.value.ethType != 0x86DD then Err(UnsupportedVersion)
    else if |eth.value.payload| < 40 then Err(InvalidIpHeader)
    else
      var h := eth.value.payload[..40];
      if h[0] / 0x10 != 6 then Err(UnsupportedVersion)
      else
        var len := Word(h[4], h[5]);
        if len + 40 > |eth.value.payload| then Err(InvalidLength)
        else Ok(IpHeader(eth.value, V6(h[8..24]), V6(h[24..40]), h[6], eth.value.payload[40..40 + len]))
  }

  datatype Udp = Udp(ip: IpHeader, srcPort: u16, dstPort: u16, payload: Bytes)

  function ParseUdp(raw: Bytes): Result<Udp, ParseError> {
    var v4 := ParseIpv4(raw);
    var ip := if v4.Ok? then v4 else ParseIpv6(raw);
    if ip.Err? then Err(ip.error)
    else if ip.value.protocol != 0x11 then Err(InvalidIpProtocol)
    else if |ip.value.payload| < 8 then Err(TruncatedPacket)
    else
      var h := ip.value.payload[..8];
      var len := Word(h[4], h[5]);
      if len < 8 || len > |ip.value.payload| then Err(InvalidLength)
      else Ok(Udp(ip.value, Word(h[0], h[1]), Word(h[2], h[3]), ip.value.payload[8..len]))
  }

  /* ---- Layout of a finished frame ------------------------------------------------------------------ */

  function EthType(a: Address): u16 { if a.srcIp.V4? then 0x0800 else 0x86DD }

  function EthHeader(a: Address): Bytes {
    a.dstMac + a.srcMac + Be16(EthType(a))
  }

  /** `crc` are the two bytes in which the source stores the header checksum. */
  function Ipv4Header(a: Address, total: u16, protocol: byte, crc: Bytes): Bytes {
    [0x45, 0] + Be16(total) + [0, 0, 0, 0, 64, protocol] + crc + a.srcIp.octets + a.dstIp.octets
  }

  function Ipv6Header(a: Address, len: u16, protocol: byte): Bytes {
    [0x60, 0, 0, 0] + Be16(len) + [protocol, 64] + a.srcIp.octets + a.dstIp.octets
  }

  function UdpHeader(a: Address, len: u16, crc: u16): Bytes {
    Be16(a.srcPort) + Be16(a.dstPort) + Be16(len) + Be16(crc)
  }

  /** The pseudo-header of section 8.1 of RFC 8200. */
  function PseudoHeader(a: Address, len: u16): Bytes {
    a.srcIp.octets + a.dstIp.octets + [0, 0] + Be16(len) + [0, 0, 0, 0x11]
  }

  /** The checksum over an IPv4 header whose checksum field is still zero, low byte first. */
  function Ipv4Crc(a: Address, total: u16): Bytes {
    var sum: u16 := 0xFFFF - Ones(WordSum(Ipv4Header(a, total, 0x11, [0, 0])));
    [sum % 0x100, sum / 0x100]
  }

  function UdpCrc(a: Address, payload: Bytes): u16
    requires |payload| + 8 <= 0xFFFF
  {
    if a.srcIp.V4? then 0
    else Complement(Ones(WordSum(PseudoHeader(a, |payload| + 8)) + WordSum(UdpHeader(a, |payload| + 8, 0)) + WordSum(payload)))
  }

  function IpPart(a: Address, payload: Bytes): Bytes
    requires |payload| + 28 <= 0xFFFF
  {
    if a.srcIp.V4? then Ipv4Header(a, |payload| + 28, 0x11, Ipv4Crc(a, |payload| + 28))
    else Ipv6Header(a, |payload| + 8, 0x11)
  }

  function Frame(a: Address, payload: Bytes): Bytes
    requires |payload| + 28 <= 0xFFFF
  {
    EthHeader(a) + IpPart(a, payload) + UdpHeader(a, |payload| + 8, UdpCrc(a, payload)) + payload
  }

  /* ---- Round trip ------------------------------------------------------------------------------------- */

  lemma WordOfBe16(x: u16)
    ensures Word(Be16(x)[0], Be16(x)[1]) == x
  {
  }

  lemma EthRoundTrip(a: Address, rest: Bytes)
    requires a.Valid()
    ensures ParseEth(EthHeader(a) + rest) == Ok(Eth(a.dstMac, a.srcMac, EthType(a), rest))
  {
    var t := EthType(a);
    var raw := EthHeader(a) + rest;
    WordOfBe16(t);
    assert raw[0..6] == a.dstMac && raw[6..12] == a.srcMac && raw[12..14] == Be16(t) && raw[14..] == rest;
  }

  lemma Ipv4RoundTrip(a: Address, total: u16, crc: Bytes, data: Bytes, padding: Bytes)
    requires a.Valid() && a.srcIp.V4? && a.dstIp.V4? && |crc| == 2 && total == 20 + |data|
    ensures ParseIpv4(EthHeader(a) + (Ipv4Header(a, total, 0x11, crc) + data + padding)) ==
      Ok(IpHeader(Eth(a.dstMac, a.srcMac, 0x0800, Ipv4Header(a, total, 0x11, crc) + data + padding), a.srcIp, a.dstIp, 0x11, data))
  {
    var hdr := Ipv4Header(a, total, 0x11, crc);
    var rest := hdr + data + padding;
    Ipv4Fields(a, total, crc);
    EthRoundTrip(a, rest);
    Ipv4OfRest(EthHeader(a) + rest) by {
      hide *;
      PrefixAt(hdr, data + padding, rest);
      assert |rest| == total + |padding|;
    }
    hide *;
    assert rest == hdr + (data + padding);
    PrefixAt(hdr, data + padding, rest);
    assert rest[20..total] == data;
  }

  /** The checks of the parser once the Ethernet header is off. */
  lemma Ipv4OfRest(raw: Bytes)
    requires ParseEth(raw).Ok?
    requires var p := ParseEth(raw).value.payload;
      && ParseEth(raw).value.ethType == 0x0800 && |p| >= 20 && p[0] == 0x45 && p[6] == 0 && p[7] == 0
      && 20 <= Word(p[2], p[3]) <= |p|
    ensures var e := ParseEth(raw).value; var p := e.payload;
      ParseIpv4(raw) == Ok(IpHeader(e, V4(p[..20][12..16]), V4(p[..20][16..20]), p[9], p[20..Word(p[2], p[3])]))
  {
    hide ParseEth, Word;
    var p := ParseEth(raw).value.payload;
    var h := p[..20];
    assert h[0] == 0x45 && h[6] == 0 && h[7] == 0 && h[2] == p[2] && h[3] == p[3] && h[9] == p[9];
    ZeroWord();
  }

  lemma PrefixAt(front: Bytes, back: Bytes, whole: Bytes)
    requires whole == front + back
    ensures whole[..|front|] == front && forall i :: 0 <= i < |front| ==> whole[i] == front[i]
  {
  }

  lemma ZeroWord()
    ensures Word(0, 0) == 0
  {
  }

  lemma Ipv4Fields(a: Address, total: u16, crc: Bytes)
    requires a.Valid() && a.srcIp.V4? && a.dstIp.V4? && |crc| == 2
    ensures var h := Ipv4Header(a, total, 0x11, crc);
      && |h| == 20 && h[0] == 0x45 && Word(h[2], h[3]) == total && h[6] == 0 && h[7] == 0 && h[9] == 0x11
      && h[12..16] == a.srcIp.octets && h[16..20] == a.dstIp.octets
  {
    WordOfBe16(total);
  }

  lemma Ipv6Fields(a: Address, len: u16)
    requires a.Valid() && a.srcIp.V6? && a.dstIp.V6?
    ensures var h := Ipv6Header(a, len, 0x11);
      && |h| == 40 && h[0] == 0x60 && Word(h[4], h[5]) == len && h[6] == 0x11
      && h[8..24] == a.srcIp.octets && h[24..40] == a.dstIp.octets
  {
    WordOfBe16(len);
  }

  lemma Ipv6RoundTrip(a: Address, len: u16, data: Bytes, padding: Bytes)
    requires a.Valid() && a.srcIp.V6? && a.dstIp.V6? && len == |data|
    ensures var raw := EthHeader(a) + (Ipv6Header(a, len, 0x11) + data + padding);
      && ParseIpv4(raw).Err?
      && ParseIpv6(raw) ==
         Ok(IpHeader(Eth(a.dstMac, a.srcMac, 0x86DD, Ipv6Header(a, len, 0x11) + data + padding), a.srcIp, a.dstIp, 0x11, data))
  {
    var hdr := Ipv6Header(a, len, 0x11);
    var rest := hdr + data + padding;
    EthRoundTrip(a, rest);
    hide ParseEth, EthHeader, Word;
    Ipv6Fields(a, len);
    assert rest[..40] == hdr && rest[40..40 + len] == data;
  }

  lemma UdpFields(a: Address, len: u16, crc: u16)
    ensures var h := UdpHeader(a, len, crc);
      |h| == 8 && Word(h[0], h[1]) == a.srcPort && Word(h[2], h[3]) == a.dstPort && Word(h[4], h[5]) == len
  {
    WordOfBe16(a.srcPort);
    WordOfBe16(a.dstPort);
    WordOfBe16(len);
  }

  /** Addresses of the same family: the only ones that the builder accepts. */
  predicate SameFamily(a: Address) { a.srcIp.V4? == a.dstIp.V4? }

  /** Parsing these bytes as UDP gives this datagram. */
  predicate Delivers(raw: Bytes, a: Address, payload: Bytes) {
    var r := ParseUdp(raw);
    && r.Ok? && r.value.payload == payload
    && r.value.srcPort == a.srcPort && r.value.dstPort == a.dstPort
    && r.value.ip.srcIp == a.srcIp && r.value.ip.dstIp == a.dstIp
    && r.value.ip.eth.srcMac == a.srcMac && r.value.ip.eth.dstMac == a.dstMac
  }

  /** Parsing a frame returns what it was built from, also when it has been padded. */
  lemma FrameRoundTrip(a: Address, payload: Bytes, padding: Bytes)
    requires a.Valid() && SameFamily(a) && |payload| + 28 <= 0xFFFF
    ensures Delivers(Frame(a, payload) + padding, a, payload)
  {
    hide ParseIpv4, ParseIpv6, EthHeader, Ipv4Header, Ipv6Header, Ipv4Crc, UdpHeader, UdpCrc, Word;
    var len := |payload| + 8;
    var crc := UdpCrc(a, payload);
    var data := UdpHeader(a, len, crc) + payload;
    UdpFields(a, len, crc);
    assert data[..8] == UdpHeader(a, len, crc) && data[8..len] == payload;
    if a.srcIp.V4? {
      var v4 := Ipv4Crc(a, |payload| + 28);
      Ipv4CrcLength(a, |payload| + 28);
      assert Frame(a, payload) + padding == EthHeader(a) + (Ipv4Header(a, |payload| + 28, 0x11, v4) + data + padding);
      Ipv4RoundTrip(a, |payload| + 28, v4, data, padding);
    } else {
      assert Frame(a, payload) + padding == EthHeader(a) + (Ipv6Header(a, len, 0x11) + data + padding);
      Ipv6RoundTrip(a, len, data, padding);
    }
  }

  lemma Ipv4CrcLength(a: Address, total: u16)
    ensures |Ipv4Crc(a, total)| == 2
  {
  }

  /* ---- What is accepted -------------------------------------------------------------------------------- */

  /** A whole IPv4 packet without options or fragmentation (only "don't fragment" may be set), by offsets
      into the frame. */
  predicate IsIpv4(raw: Bytes) {
    && |raw| >= 34 && Word(raw[12], raw[13]) == 0x0800 && raw[14] == 0x45
    && (Word(raw[20], raw[21]) == 0 || Word(raw[20], raw[21]) == 0x4000)
    && 20 <= Word(raw[16], raw[17]) && 14 + Word(raw[16], raw[17]) <= |raw|
  }

  predicate IsIpv6(raw: Bytes) {
    && |raw| >= 54 && Word(raw[12], raw[13]) == 0x86DD && raw[14] / 0x10 == 6
    && 54 + Word(raw[18], raw[19]) <= |raw|
  }

  /** UDP in a packet whose data are `raw[at..end]`. */
  predicate IsUdp(raw: Bytes, protocol: byte, at: nat, end: nat)
    requires at <= end <= |raw|
  {
    protocol == 0x11 && at + 8 <= end && 8 <= Word(raw[at + 4], raw[at + 5]) && at + Word(raw[at + 4], raw[at + 5]) <= end
  }

  lemma EthAccepts(raw: Bytes)
    ensures ParseEth(raw).Ok? <==> |raw| >= 14
    ensures |raw| >= 14 ==> ParseEth(raw).value == Eth(raw[..6], raw[6..12], Word(raw[12], raw[13]), raw[14..])
  {
    assert |raw| >= 14 ==> raw[12..14][0] == raw[12] && raw[12..14][1] == raw[13];
  }

  lemma FragmentField(hi: byte, lo: byte)
    ensures !(hi / 0x20 / 4 == 1 || hi / 0x20 % 2 == 1) && Word(hi, lo) % 0x2000 == 0
            <==> Word(hi, lo) == 0 || Word(hi, lo) == 0x4000
  {
    var top: int := hi / 0x20;
    var rest: int := (hi % 0x20) * 0x100 + lo;
    assert Word(hi, lo) == top * 0x2000 + rest && 0 <= rest < 0x2000;
    DivModUnique(Word(hi, lo), top, rest, 0x2000);
  }

  lemma Ipv4Accepts(raw: Bytes)
    ensures ParseIpv4(raw).Ok? <==> IsIpv4(raw)
    ensures IsIpv4(raw) ==>
      ParseIpv4(raw).value == IpHeader(ParseEth(raw).value, V4(raw[26..30]), V4(raw[30..34]), raw[23], raw[34..14 + Word(raw[16], raw[17])])
  {
    EthAccepts(raw);
    hide ParseEth, Word;
    if |raw| >= 34 {
      var p := raw[14..];
      var h := p[..20];
      assert p == raw[14..|raw|] && h == p[0..20];
      assert h[0] == raw[14] && h[2] == raw[16] && h[3] == raw[17] && h[6] == raw[20] && h[7] == raw[21] && h[9] == raw[23];
      SliceOfSlice(raw, 14, |raw|, 0, 20);
      SliceOfSlice(raw, 14, 34, 12, 16);
      SliceOfSlice(raw, 14, 34, 16, 20);
      assert h[0] == 0x45 <==> h[0] / 0x10 == 4 && h[0] % 0x10 == 5;
      FragmentField(raw[20], raw[21]);
      var total := Word(raw[16], raw[17]);
      if 20 <= total <= |p| { SliceOfSlice(raw, 14, |raw|, 20, total); }
    }
  }

  lemma Ipv6Accepts(raw: Bytes)
    ensures ParseIpv6(raw).Ok? <==> IsIpv6(raw)
    ensures IsIpv6(raw) ==>
      ParseIpv6(raw).value == IpHeader(ParseEth(raw).value, V6(raw[22..38]), V6(raw[38..54]), raw[20], raw[54..54 + Word(raw[18], raw[19])])
  {
    EthAccepts(raw);
    hide ParseEth, Word;
    if |raw| >= 54 {
      var p := raw[14..];
      var h := p[..40];
      assert p == raw[14..|raw|] && h == p[0..40];
      assert h[0] == raw[14] && h[4] == raw[18] && h[5] == raw[19] && h[6] == raw[20];
      SliceOfSlice(raw, 14, |raw|, 0, 40);
      SliceOfSlice(raw, 14, 54, 8, 24);
      SliceOfSlice(raw, 14, 54, 24, 40);
      var len := Word(raw[18], raw[19]);
      if 40 + len <= |p| { SliceOfSlice(raw, 14, |raw|, 40, 40 + len); }
    }
  }

  /** Exactly the well-formed datagrams are accepted, and the payload is the slice that their length
      fields enclose, never anything outside the IP packet. */
  lemma UdpAccepts(raw: Bytes)
    ensures ParseUdp(raw).Ok? <==>
      || (IsIpv4(raw) && IsUdp(raw, raw[23], 34, 14 + Word(raw[16], raw[17])))
      || (IsIpv6(raw) && IsUdp(raw, raw[20], 54, 54 + Word(raw[18], raw[19])))
    ensures ParseUdp(raw).Ok? ==> var at := if IsIpv4(raw) then 34 else 54;
      && |raw| >= at + 8 && 8 <= Word(raw[at + 4], raw[at + 5]) && at + Word(raw[at + 4], raw[at + 5]) <= |raw|
      && ParseUdp(raw).value.payload == raw[at + 8..at + Word(raw[at + 4], raw[at + 5])]
      && ParseUdp(raw).value.srcPort == Word(raw[at], raw[at + 1]) && ParseUdp(raw).value.dstPort == Word(raw[at + 2], raw[at + 3])
  {
    Ipv4Accepts(raw);
    Ipv6Accepts(raw);
    assert !(IsIpv4(raw) && IsIpv6(raw));
    hide ParseIpv4, ParseIpv6, ParseEth, Word;
    if IsIpv4(raw) {
      UdpInSlice(raw, 34, 14 + Word(raw[16], raw[17]));
    } else if IsIpv6(raw) {
      UdpInSlice(raw, 54, 54 + Word(raw[18], raw[19]));
    }
  }

  /** Why an IPv4 packet is refused: the first thing that is wrong with it, by offsets into the frame. */
  lemma Ipv4Errors(raw: Bytes)
    ensures ParseIpv4(raw) == Err(TruncatedPacket) <==> |raw| < 14
    ensures ParseIpv4(raw) == Err(UnsupportedVersion) <==>
      |raw| >= 14 && (Word(raw[12], raw[13]) != 0x0800 || (|raw| >= 34 && raw[14] / 0x10 != 4))
    ensures ParseIpv4(raw) == Err(InvalidIpHeader) <==> 14 <= |raw| < 34 && Word(raw[12], raw[13]) == 0x0800
    ensures ParseIpv4(raw) == Err(IpOptionsUnsupported) <==>
      |raw| >= 34 && Word(raw[12], raw[13]) == 0x0800 && raw[14] / 0x10 == 4 && raw[14] % 0x10 != 5
    ensures ParseIpv4(raw) == Err(FragmentationUnsupported) <==>
      && |raw| >= 34 && Word(raw[12], raw[13]) == 0x0800 && raw[14] == 0x45
      && Word(raw[20], raw[21]) != 0 && Word(raw[20], raw[21]) != 0x4000
  {
    EthAccepts(raw);
    assert |raw| < 14 ==> ParseEth(raw) == Err(TruncatedPacket);
    hide ParseEth, Word;
    if |raw| >= 34 {
      var h := raw[14..][..20];
      assert h[0] == raw[14] && h[2] == raw[16] && h[3] == raw[17] && h[6] == raw[20] && h[7] == raw[21];
      assert h[0] == 0x45 <==> h[0] / 0x10 == 4 && h[0] % 0x10 == 5;
      FragmentField(raw[20], raw[21]);
    }
  }

  /** Where the data of an IP packet are. */
  function DataOf(raw: Bytes): (r: Option<(nat, nat, byte)>)
    ensures r.Some? ==> r.value.0 <= r.value.1 <= |raw|
  {
    if IsIpv4(raw) then Some((34, 14 + Word(raw[16], raw[17]), raw[23]))
    else if IsIpv6(raw) then Some((54, 54 + Word(raw[18], raw[19]), raw[20]))
    else None
  }

  /** Why a frame is refused as a datagram. What is wrong with an IPv4 packet is not told: the second attempt, as IPv6,
      reports its own reason, so that it is always the version. */
  lemma UdpErrors(raw: Bytes)
    ensures var d := DataOf(raw);
      && (ParseUdp(raw) == Err(UnsupportedVersion) <==>
            |raw| >= 14 && d.None? && (Word(raw[12], raw[13]) != 0x86DD || (|raw| >= 54 && raw[14] / 0x10 != 6)))
      && (ParseUdp(raw) == Err(InvalidIpHeader) <==> 14 <= |raw| < 54 && Word(raw[12], raw[13]) == 0x86DD)
      && (ParseUdp(raw) == Err(InvalidIpProtocol) <==> d.Some? && d.value.2 != 0x11)
      && (ParseUdp(raw) == Err(TruncatedPacket) <==> |raw| < 14 || (d.Some? && d.value.2 == 0x11 && d.value.1 < d.value.0 + 8))
      && (ParseUdp(raw) == Err(InvalidLength) <==>
            if d.None? then |raw| >= 54 && Word(raw[12], raw[13]) == 0x86DD && raw[14] / 0x10 == 6
            else d.value.2 == 0x11 && d.value.0 + 8 <= d.value.1
                 && !(8 <= Word(raw[d.value.0 + 4], raw[d.value.0 + 5]) <= d.value.1 - d.value.0))
  {
    Ipv4Accepts(raw);
    Ipv6Accepts(raw);
    Ipv6Errors(raw);
    hide ParseIpv4, ParseIpv6, Word;
    if IsIpv4(raw) {
      UdpInSlice(raw, 34, 14 + Word(raw[16], raw[17]));
    } else if IsIpv6(raw) {
      UdpInSlice(raw, 54, 54 + Word(raw[18], raw[19]));
    }
  }

  lemma Ipv6Errors(raw: Bytes)
    ensures ParseIpv6(raw) == Err(TruncatedPacket) <==> |raw| < 14
    ensures ParseIpv6(raw) == Err(UnsupportedVersion) <==>
      |raw| >= 14 && (Word(raw[12], raw[13]) != 0x86DD || (|raw| >= 54 && raw[14] / 0x10 != 6))
    ensures ParseIpv6(raw) == Err(InvalidIpHeader) <==> 14 <= |raw| < 54 && Word(raw[12], raw[13]) == 0x86DD
    ensures ParseIpv6(raw) == Err(InvalidLength) <==>
      |raw| >= 54 && Word(raw[12], raw[13]) == 0x86DD && raw[14] / 0x10 == 6 && 54 + Word(raw[18], raw[19]) > |raw|
    ensures ParseIpv6(raw).Err? ==> ParseIpv6(raw).error in {TruncatedPacket, UnsupportedVersion, InvalidIpHeader, InvalidLength}
  {
    EthAccepts(raw);
    assert |raw| < 14 ==> ParseEth(raw) == Err(TruncatedPacket);
    hide ParseEth, Word;
    if |raw| >= 54 {
      var h := raw[14..][..40];
      assert h[0] == raw[14] && h[4] == raw[18] && h[5] == raw[19];
    }
  }

  lemma UdpInSlice(raw: Bytes, at: nat, end: nat)
    requires at <= end <= |raw|
    ensures var p := raw[at..end];
      |p| >= 8 ==>
        && (forall i :: 0 <= i < 8 ==> p[..8][i] == raw[at + i])
        && forall len :: 8 <= len <= |p| ==> p[8..len] == raw[at + 8..at + len]
  {
    var p := raw[at..end];
    forall len | 8 <= len <= |p| ensures p[8..len] == raw[at + 8..at + len] {
      SliceOfSlice(raw, at, end, 8, len);
    }
  }

  lemma SliceOfSlice(raw: Bytes, at: nat, end: nat, from: nat, to: nat)
    requires at <= end <= |raw| && from <= to <= end - at
    ensures raw[at..end][from..to] == raw[at + from..at + to]
  {
    var a, b := raw[at..end][from..to], raw[at + from..at + to];
    assert |a| == |b| && forall i :: 0 <= i < |a| ==> a[i] == b[i];
  }

  /* ---- The UDP checksum over IPv6 ------------------------------------------------------------------- */

  lemma PatchedSum(a: Address, len: u16, crc: u16)
    ensures WordSum(UdpHeader(a, len, crc)) == WordSum(UdpHeader(a, len, 0)) + crc
  {
    var front := Be16(a.srcPort) + Be16(a.dstPort) + Be16(len);
    WordSumConcat(front, Be16(crc));
    WordSumConcat(front, Be16(0));
    WordSumOf(crc);
    WordSumOf(0);
  }

  lemma WordSumOf(x: u16)
    ensures WordSum(Be16(x)) == x
  {
    assert WordSum(Be16(x)[2..]) == 0;
  }

  /** Over IPv6, the ones-complement sum of pseudo-header, header and payload is 0xFFFF, odd payloads
      included; the stored checksum is not zero, and it is the only non-zero one with this property. */
  lemma UdpCrcVerifies(a: Address, payload: Bytes, other: u16)
    requires a.Valid() && SameFamily(a) && a.srcIp.V6? && |payload| + 28 <= 0xFFFF
    ensures var len := |payload| + 8; var crc := UdpCrc(a, payload);
      && crc != 0
      && Ones(WordSum(PseudoHeader(a, len) + UdpHeader(a, len, crc) + payload)) == 0xFFFF
      && (other != 0 && Ones(WordSum(PseudoHeader(a, len) + UdpHeader(a, len, other) + payload)) == 0xFFFF ==> other == crc)
  {
    hide WordSum, Ones, PseudoHeader, UdpHeader, Complement;
    var len := |payload| + 8;
    var crc := UdpCrc(a, payload);
    SumOfPacket(a, payload, crc);
    SumOfPacket(a, payload, other);
    ComplementIsTheChecksum(WordSum(PseudoHeader(a, len)) + WordSum(UdpHeader(a, len, 0)) + WordSum(payload), other);
  }

  lemma SumOfPacket(a: Address, payload: Bytes, crc: u16)
    requires a.Valid() && SameFamily(a) && |payload| + 8 <= 0xFFFF
    ensures var len := |payload| + 8;
      WordSum(PseudoHeader(a, len) + UdpHeader(a, len, crc) + payload) ==
      WordSum(PseudoHeader(a, len)) + WordSum(UdpHeader(a, len, 0)) + WordSum(payload) + crc
  {
    var len := |payload| + 8;
    hide WordSum;
    assert |PseudoHeader(a, len)| % 2 == 0 && |UdpHeader(a, len, crc)| == 8;
    WordSumConcat(PseudoHeader(a, len) + UdpHeader(a, len, crc), payload);
    WordSumConcat(PseudoHeader(a, len), UdpHeader(a, len, crc));
    PatchedSum(a, len, crc);
  }

  /** On the bytes of a finished IPv6 frame: the ones-complement sum of both addresses, the length and protocol of the
      pseudo-header, and everything behind the IP header is 0xFFFF. */
  lemma FrameBytesSum(a: Address, payload: Bytes)
    requires a.Valid() && SameFamily(a) && a.srcIp.V6? && |payload| + 28 <= 0xFFFF
    ensures var raw := Frame(a, payload);
      && |raw| == 54 + 8 + |payload| && Word(raw[58], raw[59]) == |raw| - 54
      && Ones(WordSum(raw[22..54]) + (|raw| - 54) + 0x11 + WordSum(raw[54..])) == 0xFFFF
  {
    hide WordSum, Ones, PseudoHeader, UdpHeader, Frame, Word, UdpCrc;
    var len, crc := |payload| + 8, UdpCrc(a, payload);
    UdpCrcVerifies(a, payload, crc);
    FrameSlices(a, payload);
    UdpFields(a, len, crc);
    PseudoSum(a, len);
    var pseudo, udp := PseudoHeader(a, len), UdpHeader(a, len, crc) + payload;
    assert pseudo + UdpHeader(a, len, crc) + payload == pseudo + udp;
    WordSumConcat(pseudo, udp);
    assert udp[4] == UdpHeader(a, len, crc)[4] && udp[5] == UdpHeader(a, len, crc)[5];
  }

  lemma FrameSlices(a: Address, payload: Bytes)
    requires a.Valid() && SameFamily(a) && a.srcIp.V6? && |payload| + 28 <= 0xFFFF
    ensures var raw := Frame(a, payload); var udp := UdpHeader(a, |payload| + 8, UdpCrc(a, payload)) + payload;
      && |raw| == 54 + 8 + |payload| && |udp| == 8 + |payload| && raw[22..54] == a.srcIp.octets + a.dstIp.octets && raw[54..] == udp
      && raw[58] == udp[4] && raw[59] == udp[5]
  {
    var raw, crc := Frame(a, payload), UdpCrc(a, payload);
    var ip, udp := Ipv6Header(a, |payload| + 8, 0x11), UdpHeader(a, |payload| + 8, crc) + payload;
    UdpFields(a, |payload| + 8, crc);
    Ipv6Addresses(a, |payload| + 8);
    assert |EthHeader(a)| == 14;
    hide EthHeader, Ipv6Header, UdpHeader, UdpCrc;
    FourParts(EthHeader(a), ip, UdpHeader(a, |payload| + 8, crc), payload);
    hide Frame;
    Sliced(EthHeader(a), ip, udp, raw);
    SliceOfSlice(raw, 14, 54, 8, 40);
  }

  lemma FourParts(x: Bytes, y: Bytes, z: Bytes, w: Bytes)
    ensures x + y + z + w == x + y + (z + w)
  {
  }

  lemma Sliced(x: Bytes, y: Bytes, z: Bytes, whole: Bytes)
    requires whole == x + y + z
    ensures whole[|x|..|x| + |y|] == y && whole[|x| + |y|..] == z && forall i :: 0 <= i < |z| ==> whole[|x| + |y| + i] == z[i]
  {
  }

  lemma Ipv6Addresses(a: Address, len: u16)
    requires a.Valid() && a.srcIp.V6? && a.dstIp.V6?
    ensures |Ipv6Header(a, len, 0x11)| == 40 && Ipv6Header(a, len, 0x11)[8..40] == a.srcIp.octets + a.dstIp.octets
  {
  }

  lemma PseudoSum(a: Address, len: u16)
    requires a.Valid() && SameFamily(a)
    ensures |PseudoHeader(a, len)| % 2 == 0
    ensures WordSum(PseudoHeader(a, len)) == WordSum(a.srcIp.octets + a.dstIp.octets) + len + 0x11
  {
    var ips, rest := a.srcIp.octets + a.dstIp.octets, [0, 0] + Be16(len) + [0, 0, 0, 0x11];
    assert PseudoHeader(a, len) == ips + rest && |ips| % 2 == 0 && |Be16(len)| == 2;
    WordSumOf(len);
    WordSumOf(0);
    ProtocolSum();
    assert Be16(0) == [0, 0];
    hide WordSum, PseudoHeader, Be16;
    WordSumConcat(ips, rest);
    WordSumConcat([0, 0] + Be16(len), [0, 0, 0, 0x11]);
    WordSumConcat([0, 0], Be16(len));
  }

  lemma ProtocolSum()
    ensures WordSum([0, 0, 0, 0x11]) == 0x11
  {
    var b: Bytes := [0, 0, 0, 0x11];
    assert b[2..] == [0, 0x11] && b[2..][2..] == [];
  }

  /** The bytes of the IP header that no parser looks at, or that it only checks: version and header length, no
      options, no identification, not fragmented, 64 hops. */
  lemma FixedBytes(a: Address, payload: Bytes)
    requires a.Valid() && SameFamily(a) && |payload| + 28 <= 0xFFFF
    ensures var raw := Frame(a, payload);
      if a.srcIp.V4? then |raw| >= 34 && raw[14..16] == [0x45, 0] && raw[18..24] == [0, 0, 0, 0, 64, 0x11]
      else |raw| >= 54 && raw[14..18] == [0x60, 0, 0, 0] && raw[20..22] == [0x11, 64]
  {
    var ip := IpPart(a, payload);
    var rest := UdpHeader(a, |payload| + 8, UdpCrc(a, payload)) + payload;
    var raw := Frame(a, payload);
    FixedInHeader(a, payload);
    assert |EthHeader(a)| == 14;
    hide EthHeader, UdpHeader, UdpCrc, IpPart;
    assert raw == EthHeader(a) + ip + rest;
    hide Frame;
    Sliced(EthHeader(a), ip, rest, raw);
    if a.srcIp.V4? {
      SliceOfSlice(raw, 14, 34, 0, 2);
      SliceOfSlice(raw, 14, 34, 4, 10);
    } else {
      SliceOfSlice(raw, 14, 54, 0, 4);
      SliceOfSlice(raw, 14, 54, 6, 8);
    }
  }

  lemma FixedInHeader(a: Address, payload: Bytes)
    requires a.Valid() && SameFamily(a) && |payload| + 28 <= 0xFFFF
    ensures var ip := IpPart(a, payload);
      if a.srcIp.V4? then |ip| == 20 && ip[0..2] == [0x45, 0] && ip[4..10] == [0, 0, 0, 0, 64, 0x11]
      else |ip| == 40 && ip[0..4] == [0x60, 0, 0, 0] && ip[6..8] == [0x11, 64]
  {
    hide WordSum, Ones;
  }

  /* ---- The IPv4 header checksum ----------------------------------------------------------------------------- */

  /** The checksum field adds its own value to the sum of the header. */
  lemma Ipv4Sum(a: Address, total: u16, hi: byte, lo: byte)
    requires a.Valid() && SameFamily(a) && a.srcIp.V4?
    ensures WordSum(Ipv4Header(a, total, 0x11, [hi, lo])) == WordSum(Ipv4Header(a, total, 0x11, [0, 0])) + Word(hi, lo)
    ensures WordSum(Ipv4Header(a, total, 0x11, [0, 0])) > 0
  {
    var front := [0x45, 0] + Be16(total) + [0, 0, 0, 0, 64, 0x11];
    var ips := a.srcIp.octets + a.dstIp.octets;
    assert Ipv4Header(a, total, 0x11, [hi, lo]) == front + ([hi, lo] + ips);
    assert Ipv4Header(a, total, 0x11, [0, 0]) == front + ([0, 0] + ips);
    WordSumConcat(front, [hi, lo] + ips);
    WordSumConcat(front, [0, 0] + ips);
    WordSumConcat([hi, lo], ips);
    WordSumConcat([0, 0], ips);
    assert [hi, lo][2..] == [] && [0, 0][2..] == [];
    assert front[0] == 0x45;
  }

  /** The checksum is stored low byte first. Read back high byte first, as receivers do, the header verifies exactly
      when the two bytes are equal; with its bytes exchanged it always would. */
  lemma Ipv4CrcVerifiesIff(a: Address, total: u16)
    requires a.Valid() && SameFamily(a) && a.srcIp.V4?
    ensures var crc := Ipv4Crc(a, total);
      && |crc| == 2
      && Ones(WordSum(Ipv4Header(a, total, 0x11, [crc[1], crc[0]]))) == 0xFFFF
      && (Ones(WordSum(Ipv4Header(a, total, 0x11, crc))) == 0xFFFF <==> crc[0] == crc[1])
  {
    var sum := WordSum(Ipv4Header(a, total, 0x11, [0, 0]));
    var stored: u16 := 0xFFFF - Ones(sum);
    var lo, hi := stored % 0x100, stored / 0x100;
    assert Ipv4Crc(a, total) == [lo, hi];
    Ipv4Sum(a, total, hi, lo);
    Ipv4Sum(a, total, lo, hi);
    hide WordSum, Ipv4Header, Ipv4Crc;
    assert Word(hi, lo) == stored;
    OnesFull(sum, stored, stored);
    OnesFull(sum, stored, Word(lo, hi));
    SwapCongruent(lo, hi);
  }

  /** Adding `x` to a sum gives all ones exactly when `x` is congruent to its complement. */
  lemma OnesFull(sum: nat, stored: u16, x: u16)
    requires sum > 0 && stored == 0xFFFF - Ones(sum)
    ensures Ones(sum + x) == 0xFFFF <==> (x - stored) % 0xFFFF == 0
  {
    var q := (sum - 1) / 0xFFFF;
    var r := Ones(sum) + x;
    assert sum == q * 0xFFFF + Ones(sum);
    assert sum + x - 1 == (r - 1) + q * 0xFFFF;
    ModAddMultiple(r - 1, q, 0xFFFF);
    assert r == 0xFFFF + (x - stored);
    if x >= stored {
      if x - stored == 0xFFFF { DivModUnique(x - stored, 1, 0, 0xFFFF); } else { ModSmall(x - stored, 0xFFFF); }
    } else {
      DivModUnique(x - stored, -1, x - stored + 0xFFFF, 0xFFFF);
    }
  }

  lemma SwapCongruent(lo: byte, hi: byte)
    ensures (Word(lo, hi) - Word(hi, lo)) % 0xFFFF == 0 <==> lo == hi
  {
    var a: int, b: int := lo, hi;
    assert Word(lo, hi) - Word(hi, lo) == 255 * (a - b);
    if a > b {
      ModSmall(255 * (a - b), 0xFFFF);
    } else if a < b {
      DivModUnique(255 * (a - b), -1, 255 * (a - b) + 0xFFFF, 0xFFFF);
    }
  }
}

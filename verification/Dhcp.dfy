/** The DHCP option codec (kernel/src/net/protocols/dhcp.rs; section 2 of RFC 2132). */
module Dhcp {
  import opened Machine

  type Bytes = seq<byte>

  datatype Quad = Quad(a: byte, b: byte, c: byte, d: byte)

  datatype MessageType = Discover | Offer | Request | Ack | Unsupported

  datatype DhcpOption =
    | Pad
    | SubnetMask(ip: Quad)
    | BroadcastIp(ip: Quad)
    | RequestedIp(ip: Quad)
    | LeaseTime(time: u32)
    | Kind(kind: MessageType)
    | ServerIp(ip: Quad)
    | ParameterRequestList(data: Bytes)
    | RenewalTime(time: u32)
    | Unknown(code: byte, data: Bytes)
    | End

  const KnownIds: set<int> := {0, 1, 28, 50, 51, 53, 54, 55, 58, 255}

  function FromBe(q: Quad): u32 {
    var hi: int := q.a * 0x100_0000 + q.b * 0x1_0000;
    hi + q.c * 0x100 + q.d
  }

  function ToBe(x: u32): Quad {
    Quad(x / 0x100_0000, x / 0x1_0000 % 0x100, x / 0x100 % 0x100, x % 0x100)
  }

  function Octets(q: Quad): Bytes { [q.a, q.b, q.c, q.d] }

  function KindCode(k: MessageType): byte {
    match k
    case Discover => 1
    case Offer => 2
    case Request => 3
    case Ack => 5
    case Unsupported => 6
  }

  function KindOf(x: byte): MessageType {
    if x == 1 then Discover else if x == 2 then Offer else if x == 3 then Request else if x == 5 then Ack else Unsupported
  }

  /** The length of a long payload is truncated to a byte. */
  function Tagged(code: byte, data: Bytes): Bytes { [code, |data| % 0x100] + data }

  function Serialize(o: DhcpOption): Bytes {
    match o
    case Pad => [0]
    case End => [255]
    case _ =>
      var (code, data) := CodeAndData(o);
      Tagged(code, data)
  }

  /** The code and payload of every option but the two single-byte ones. */
  function CodeAndData(o: DhcpOption): (byte, Bytes)
    requires !o.Pad? && !o.End?
  {
    match o
    case SubnetMask(ip) => (1, Octets(ip))
    case BroadcastIp(ip) => (28, Octets(ip))
    case RequestedIp(ip) => (50, Octets(ip))
    case ServerIp(ip) => (54, Octets(ip))
    case LeaseTime(t) => (51, Octets(ToBe(t)))
    case RenewalTime(t) => (58, Octets(ToBe(t)))
    case Kind(k) => (53, [KindCode(k)])
    case ParameterRequestList(data) => (55, data)
    case Unknown(code, data) => (code, data)
  }

  function Quad4(data: Bytes): Option<Quad> {
    if |data| == 4 then Some(Quad(data[0], data[1], data[2], data[3])) else None
  }

  /** The option with this code and payload. */
  function Decode(code: byte, data: Bytes): Option<DhcpOption> {
    match code
    case 1 => var q :- Quad4(data); Some(SubnetMask(q))
    case 28 => var q :- Quad4(data); Some(BroadcastIp(q))
    case 50 => var q :- Quad4(data); Some(RequestedIp(q))
    case 51 => var q :- Quad4(data); Some(LeaseTime(FromBe(q)))
    case 53 => if |data| > 0 then Some(Kind(KindOf(data[0]))) else None
    case 54 => var q :- Quad4(data); Some(ServerIp(q))
    case 55 => Some(ParameterRequestList(data))
    case 58 => var q :- Quad4(data); Some(RenewalTime(FromBe(q)))
    case _ => Some(Unknown(code, data))
  }

  /** One option and the bytes after it. */
  function ParseOption(b: Bytes): Option<(DhcpOption, Bytes)> {
    if |b| == 0 then None
    else if b[0] == 0 then Some((Pad, b[1..]))
    else if b[0] == 255 then Some((End, b[1..]))
    else if |b| < 2 then None
    else
      var len: nat := b[1];
      if |b| < 2 + len then None
      else
        var o :- Decode(b[0], b[2..2 + len]);
        Some((o, b[2 + len..]))
  }

  /** Every successful parse consumes at least one byte and leaves a suffix. */
  lemma ParseConsumes(b: Bytes)
    requires ParseOption(b).Some?
    ensures |ParseOption(b).value.1| < |b| && ParseOption(b).value.1 == b[|b| - |ParseOption(b).value.1|..]
  {
  }

  /** The loop over the options, which goes on behind an end option and stops at the first failure. */
  function ParseAll(b: Bytes): seq<DhcpOption>
    decreases |b|
  {
    match ParseOption(b)
    case None => []
    case Some(p) => ParseConsumes(b); [p.0] + ParseAll(p.1)
  }

  method ParseOptions(raw: Bytes) returns (options: seq<DhcpOption>)
    ensures options == ParseAll(raw)
  {
    hide ParseOption;
    var rest := raw;
    options := [];
    while |rest| > 0
      invariant options + ParseAll(rest) == ParseAll(raw)
      decreases |rest|
    {
      var p := ParseOption(rest);
      if p.None? {
        break;
      }
      ParseConsumes(rest);
      options, rest := options + [p.value.0], p.value.1;
    }
    EmptyHasNone();
  }

  lemma EmptyHasNone()
    ensures ParseOption([]).None?
  {
  }

  function SerializeAll(os: seq<DhcpOption>): Bytes {
    if os == [] then [] else SerializeAll(os[..|os| - 1]) + Serialize(os[|os| - 1])
  }

  class DhcpOptionsBuilder {
    var inner: Bytes
    ghost var added: seq<DhcpOption>

    ghost predicate Valid()
      reads this
    {
      inner == SerializeAll(added)
    }

    constructor ()
      ensures Valid() && added == []
    {
      inner, added := [], [];
    }

    method Add(o: DhcpOption)
      requires Valid()
      modifies this
      ensures Valid() && added == old(added) + [o]
    {
      inner, added := inner + Serialize(o), added + [o];
    }

    method Finish() returns (bytes: Bytes)
      requires Valid()
      modifies this
      ensures Valid() && added == old(added) + [End] && bytes == SerializeAll(added)
    {
      Add(End);
      bytes := inner;
    }
  }

  /* ---- Round trips ------------------------------------------------------------------------------------- */

  /** Payloads fit their length byte, and unknown options do not carry the code of a known one. */
  predicate Sendable(o: DhcpOption) {
    && (o.ParameterRequestList? ==> |o.data| <= 255)
    && (o.Unknown? ==> |o.data| <= 255 && o.code !in KnownIds)
  }

  lemma BeRoundTrip(x: u32)
    ensures FromBe(ToBe(x)) == x
  {
    var y, d := x / 0x100, x % 0x100;
    var z, c := y / 0x100, y % 0x100;
    var a, b := z / 0x100, z % 0x100;
    DivModUnique(x, z, c * 0x100 + d, 0x1_0000);
    DivModUnique(x, a, b * 0x1_0000 + c * 0x100 + d, 0x100_0000);
  }

  lemma BeBack(q: Quad)
    ensures ToBe(FromBe(q)) == q
  {
    var a: int, b: int, c: int, d: int := q.a, q.b, q.c, q.d;
    var x := FromBe(q);
    DivModUnique(x, a, b * 0x1_0000 + c * 0x100 + d, 0x100_0000);
    DivModUnique(x, a * 0x100 + b, c * 0x100 + d, 0x1_0000);
    DivModUnique(x, a * 0x1_0000 + b * 0x100 + c, d, 0x100);
    DivModUnique(a * 0x100 + b, a, b, 0x100);
    DivModUnique(a * 0x1_0000 + b * 0x100 + c, a * 0x100 + b, c, 0x100);
  }

  lemma TaggedParts(code: byte, data: Bytes, rest: Bytes)
    requires |data| <= 255
    ensures var b := Tagged(code, data) + rest;
      && |b| >= 2 + |data| && b[0] == code && b[1] == |data| && b[2..2 + |data|] == data && b[2 + |data|..] == rest
  {
  }

  lemma DecodeTagged(code: byte, data: Bytes, rest: Bytes)
    requires |data| <= 255 && code != 0 && code != 255 && Decode(code, data).Some?
    ensures ParseOption(Tagged(code, data) + rest) == Some((Decode(code, data).value, rest))
  {
    hide Decode, Tagged;
    TaggedParts(code, data, rest);
  }

  /** What parsing can produce. */
  lemma ParsedIsSendable(b: Bytes)
    requires ParseOption(b).Some?
    ensures Sendable(ParseOption(b).value.0)
  {
  }

  /** An option survives serializing and parsing, whatever follows it, exactly when it is sendable. */
  lemma OptionRoundTrip(o: DhcpOption, rest: Bytes)
    ensures ParseOption(Serialize(o) + rest) == Some((o, rest)) <==> Sendable(o)
  {
    if Sendable(o) {
      SendableRoundTrip(o, rest);
    } else if ParseOption(Serialize(o) + rest).Some? {
      ParsedIsSendable(Serialize(o) + rest);
    }
  }

  lemma SendableRoundTrip(o: DhcpOption, rest: Bytes)
    requires Sendable(o)
    ensures ParseOption(Serialize(o) + rest) == Some((o, rest))
  {
    if o.Pad? || o.End? {
      assert (Serialize(o) + rest)[1..] == rest;
    } else {
      hide ParseOption;
      var (code, data) := CodeAndData(o);
      DecodesBack(o);
      DecodeTagged(code, data, rest);
    }
  }

  lemma DecodesBack(o: DhcpOption)
    requires Sendable(o) && !o.Pad? && !o.End?
    ensures var (code, data) := CodeAndData(o);
      code != 0 && code != 255 && |data| <= 255 && Decode(code, data) == Some(o)
  {
    hide Tagged, FromBe, ToBe;
    if o.LeaseTime? || o.RenewalTime? { BeRoundTrip(o.time); }
  }

  /** Sendable options in front of anything parse back one by one. */
  lemma {:induction false} ListInFront(os: seq<DhcpOption>, rest: Bytes)
    requires forall o :: o in os ==> Sendable(o)
    ensures ParseAll(SerializeAll(os) + rest) == os + ParseAll(rest)
  {
    hide ParseOption, Serialize, Sendable;
    if os == [] {
      assert SerializeAll(os) + rest == rest;
    } else {
      var front, o := os[..|os| - 1], os[|os| - 1];
      assert SerializeAll(os) + rest == SerializeAll(front) + (Serialize(o) + rest);
      ListInFront(front, Serialize(o) + rest);
      OptionRoundTrip(o, rest);
      assert os == front + [o];
    }
  }

  lemma {:induction false} AllParsedSendable(b: Bytes)
    ensures forall o :: o in ParseAll(b) ==> Sendable(o)
    decreases |b|
  {
    hide ParseOption, Sendable;
    if ParseOption(b).Some? {
      ParsedIsSendable(b);
      ParseConsumes(b);
      AllParsedSendable(ParseOption(b).value.1);
    }
  }

  /** Parsing what the builder returns gives the list it was given, followed by the end option, exactly
      when every option is sendable. */
  lemma BuiltListRoundTrip(os: seq<DhcpOption>)
    ensures ParseAll(SerializeAll(os + [End])) == os + [End] <==> forall o :: o in os ==> Sendable(o)
  {
    hide ParseOption, Serialize;
    var all := os + [End];
    if forall o :: o in os ==> Sendable(o) {
      ListInFront(all, []);
      EmptyHasNone();
      assert SerializeAll(all) + [] == SerializeAll(all);
    } else {
      AllParsedSendable(SerializeAll(all));
      assert forall o :: o in os ==> o in all;
    }
  }

  /** The other way round: parsed bytes are the serialized option and the rest, except that a message
      type drops extra payload bytes and maps every unsupported value to 6. */
  lemma ParsedBytes(b: Bytes)
    requires ParseOption(b).Some?
    ensures var (o, rest) := ParseOption(b).value;
      b == Serialize(o) + rest <==> (b[0] == 53 ==> b[1] == 1 && b[2] in {1, 2, 3, 5, 6})
  {
    var (o, rest) := ParseOption(b).value;
    if b[0] != 0 && b[0] != 255 {
      var len: nat := b[1];
      var data := b[2..2 + len];
      assert b == Tagged(b[0], data) + rest;
      if b[0] == 53 {
        assert o == Kind(KindOf(data[0])) && |Tagged(53, [KindCode(o.kind)])| == 3;
        if b == Serialize(o) + rest {
          assert b[2] == KindCode(o.kind);
        }
      } else {
        DecodedBytes(b[0], data);
      }
    }
  }

  lemma DecodedBytes(code: byte, data: Bytes)
    requires code !in {0, 53, 255} && Decode(code, data).Some?
    ensures Serialize(Decode(code, data).value) == Tagged(code, data)
  {
    var q := Quad4(data);
    if q.Some? {
      BeBack(q.value);
      assert Octets(q.value) == data;
    }
    hide FromBe, ToBe, Tagged;
  }

  /** The bytes on the wire, option by option. */
  lemma WireBytes(o: DhcpOption)
    requires Sendable(o)
    ensures match o
      case Pad => Serialize(o) == [0]
      case End => Serialize(o) == [255]
      case SubnetMask(ip) => Serialize(o) == [1, 4, ip.a, ip.b, ip.c, ip.d]
      case BroadcastIp(ip) => Serialize(o) == [28, 4, ip.a, ip.b, ip.c, ip.d]
      case RequestedIp(ip) => Serialize(o) == [50, 4, ip.a, ip.b, ip.c, ip.d]
      case ServerIp(ip) => Serialize(o) == [54, 4, ip.a, ip.b, ip.c, ip.d]
      case LeaseTime(t) => Serialize(o) == [51, 4] + BigEndian(t)
      case RenewalTime(t) => Serialize(o) == [58, 4] + BigEndian(t)
      case Kind(k) => Serialize(o) == [53, 1, if k.Discover? then 1 else if k.Offer? then 2 else if k.Request? then 3 else if k.Ack? then 5 else 6]
      case ParameterRequestList(data) => Serialize(o) == [55, |data|] + data
      case Unknown(code, data) => Serialize(o) == [code, |data|] + data
  {
  }

  /** Four bytes, the most significant one first. */
  function BigEndian(t: u32): Bytes { [t / 0x100_0000, t / 0x1_0000 % 0x100, t / 0x100 % 0x100, t % 0x100] }
}

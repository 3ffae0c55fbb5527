/**
 parsePacket: from a captured Ethernet frame to a DNS or TLS event.
 */
module DpidParser {
  import opened Bytes
  import opened DpidDns
  import opened DpidTls

  datatype EventKind = EventUnknown | EventDns | EventTlsClientHello

  datatype ParseResult = ParseOK | ParseIgnore | ParseMalformed

  /** What a frame is to the parser. */
  datatype Meaning = Malformed | Ignored | Dns(dns: DnsInfo) | Tls(tls: TlsInfo)
  {
    function Result(): ParseResult {
      match this
      case Malformed => ParseMalformed
      case Ignored => ParseIgnore
      case Dns(_) => ParseOK
      case Tls(_) => ParseOK
    }
  }

  const ETHERTYPE_IPV4 := 0x0800
  const PROTO_TCP := 6
  const PROTO_UDP := 17

  function HeaderLen(b: seq<byte>): nat
    requires |b| > 14
  {
    4 * (b[14] % 16)
  }

  /** The IP total length, or all the bytes there are when it is 0 or too large. */
  function TotalLen(b: seq<byte>): (t: nat)
    requires |b| >= 34
    ensures t <= |b| - 14
  {
    var t := Be16(b, 16);
    if t == 0 || t > |b| - 14 then |b| - 14 else t
  }

  predicate GoodIp(b: seq<byte>) {
    && |b| >= 34
    && b[14] / 16 == 4
    && 20 <= HeaderLen(b) <= TotalLen(b)
  }

  function Payload(b: seq<byte>): seq<byte>
    requires GoodIp(b)
  {
    b[14 + HeaderLen(b)..14 + TotalLen(b)]
  }

  function UdpMeaning(payload: seq<byte>): Meaning {
    if |payload| < 8 then Malformed
    else if Be16(payload, 0) != 53 && Be16(payload, 2) != 53 then Ignored
    else
      match DnsOf(payload[8..])
      case None => Malformed
      case Some(d) => Dns(d)
  }

  function TcpMeaning(payload: seq<byte>): Meaning {
    if |payload| < 20 then Malformed
    else
      var tcpHL := 4 * (payload[12] / 16);
      if tcpHL < 20 || |payload| < tcpHL then Malformed
      else TcpDataMeaning(Be16(payload, 0), Be16(payload, 2), payload[tcpHL..])
  }

  function TcpDataMeaning(src: nat, dst: nat, data: seq<byte>): Meaning {
    if dst == 53 || src == 53 then
      if |data| <= 2 then Malformed
      else
        match DnsOf(data[2..])
        case None => Malformed
        case Some(d) => Dns(d)
    else if dst == 443 || src == 443 then
      match HelloOf(data)
      case None => Ignored
      case Some(t) => Tls(t)
    else Ignored
  }

  function MeaningOf(b: seq<byte>): Meaning {
    if |b| < 14 then Malformed
    else if Be16(b, 12) != ETHERTYPE_IPV4 then Ignored
    else if !GoodIp(b) then Malformed
    else if b[23] == PROTO_UDP then UdpMeaning(Payload(b))
    else if b[23] == PROTO_TCP then TcpMeaning(Payload(b))
    else Ignored
  }

  /** An IPv4 frame with a good header. */
  predicate GoodFrame(b: seq<byte>) { |b| >= 14 && Be16(b, 12) == ETHERTYPE_IPV4 && GoodIp(b) }

  /** The ports, once the transport header is complete. */
  function PortsAt(payload: seq<byte>, header: nat): Option<(nat, nat)>
    requires header >= 4
  {
    if |payload| < header then None else Some((Be16(payload, 0), Be16(payload, 2)))
  }

  function PortsOf(b: seq<byte>): Option<(nat, nat)> {
    if !GoodFrame(b) then None
    else if b[23] == PROTO_UDP then PortsAt(Payload(b), 8)
    else if b[23] == PROTO_TCP then PortsAt(Payload(b), 20)
    else None
  }

  const NO_DNS: DnsInfo := DnsInfo(false, [], 0, [], 0)
  const NO_TLS: TlsInfo := TlsInfo([], [])

  class Event {
    var kind: EventKind
    var time: Option<int>
    var srcMac: seq<byte>
    var dstMac: seq<byte>
    var srcIp: seq<byte>
    var dstIp: seq<byte>
    var srcPort: nat
    var dstPort: nat
    var isUdp: bool
    var clientMac: seq<byte>
    var clientIp: seq<byte>
    var remoteIp: seq<byte>
    var dns: DnsInfo
    var tls: TlsInfo

    /** Event{} */
    constructor ()
      ensures Blank() && Unaddressed() && Ported(None, false)
    {
      kind, time, isUdp := EventUnknown, None, false;
      srcMac, dstMac, srcIp, dstIp := [], [], [], [];
      srcPort, dstPort := 0, 0;
      clientMac, clientIp, remoteIp := [], [], [];
      dns, tls := NO_DNS, NO_TLS;
    }

    /** Nothing found. */
    ghost predicate Blank()
      reads this
    {
      kind == EventUnknown && clientMac == [] && clientIp == [] && remoteIp == [] && dns == NO_DNS && tls == NO_TLS
    }

    /** The client is the destination of a DNS response and the source of everything else. */
    ghost predicate ClientAssigned(response: bool)
      reads this
    {
      if response then clientMac == dstMac && clientIp == dstIp && remoteIp == srcIp
      else clientMac == srcMac && clientIp == srcIp && remoteIp == dstIp
    }

    method AssignClient(isResponseToClient: bool)
      modifies this`clientMac, this`clientIp, this`remoteIp
      ensures ClientAssigned(isResponseToClient)
    {
      if isResponseToClient {
        clientMac := dstMac;
        clientIp := dstIp;
        remoteIp := srcIp;
      } else {
        clientMac := srcMac;
        clientIp := srcIp;
        remoteIp := dstIp;
      }
    }

    ghost predicate Unaddressed()
      reads this
    {
      time == None && dstMac == [] && srcMac == [] && srcIp == [] && dstIp == []
    }

    /** Time, and addresses taken from the frame. */
    ghost predicate Addressed(b: seq<byte>, ts: int)
      reads this
    {
      && |b| >= 34 && time == Some(ts)
      && dstMac == b[0..6] && srcMac == b[6..12]
      && srcIp == b[26..30] && dstIp == b[30..34]
    }

    /** Both ports, or none when the transport header is short or unknown. */
    ghost predicate Ported(ports: Option<(nat, nat)>, udp: bool)
      reads this
    {
      isUdp == udp && (srcPort, dstPort) == if ports.Some? then ports.value else (0, 0)
    }

    /** What the event says of the contents. */
    ghost predicate Reports(m: Meaning)
      reads this
    {
      match m
      case Dns(d) => kind == EventDns && dns == d && tls == NO_TLS && ClientAssigned(d.isResponse)
      case Tls(t) => kind == EventTlsClientHello && tls == t && dns == NO_DNS && ClientAssigned(false)
      case Malformed => Blank()
      case Ignored => Blank()
    }
  }

  method ParsePacket(b: seq<byte>, ts: int) returns (ev: Event, r: ParseResult)
    ensures fresh(ev)
    ensures r == MeaningOf(b).Result() && ev.Reports(MeaningOf(b))
    ensures if GoodFrame(b) then ev.Addressed(b, ts) else ev.Unaddressed()
    ensures ev.Ported(PortsOf(b), GoodFrame(b) && b[23] == PROTO_UDP && PortsOf(b).Some?)
  {
    hide UdpMeaning, TcpMeaning;
    ev := new Event();
    if |b| < 14 { return ev, ParseMalformed; }
    if Be16(b, 12) != ETHERTYPE_IPV4 { return ev, ParseIgnore; }
    var dstMac, srcMac := b[0..6], b[6..12];
    if |b| - 14 < 20 { return ev, ParseMalformed; }
    if b[14] / 16 != 4 { return ev, ParseMalformed; }
    var ipHL := 4 * (b[14] % 16);
    if ipHL < 20 || |b| - 14 < ipHL { return ev, ParseMalformed; }
    var totalLen := Be16(b, 16);
    if totalLen == 0 || totalLen > |b| - 14 { totalLen := |b| - 14; }
    if totalLen < ipHL { return ev, ParseMalformed; }
    var payload := b[14 + ipHL..14 + totalLen];
    ev.time, ev.srcMac, ev.dstMac := Some(ts), srcMac, dstMac;
    ev.srcIp, ev.dstIp := b[26..30], b[30..34];
    assert payload == Payload(b);
    if b[23] == PROTO_UDP {
      r := ParseUdp(ev, payload);
    } else if b[23] == PROTO_TCP {
      r := ParseTcp(ev, payload);
    } else {
      r := ParseIgnore;
    }
  }

  method ParseUdp(ev: Event, payload: seq<byte>) returns (r: ParseResult)
    requires ev.Blank() && ev.Ported(None, false)
    modifies ev`kind, ev`isUdp, ev`srcPort, ev`dstPort, ev`dns, ev`clientMac, ev`clientIp, ev`remoteIp
    ensures r == UdpMeaning(payload).Result() && ev.Reports(UdpMeaning(payload))
    ensures ev.Ported(PortsAt(payload, 8), |payload| >= 8)
  {
    hide DnsOf;
    if |payload| < 8 { return ParseMalformed; }
    ev.isUdp := true;
    ev.srcPort := Be16(payload, 0);
    ev.dstPort := Be16(payload, 2);
    if ev.srcPort != 53 && ev.dstPort != 53 { return ParseIgnore; }
    r := TakeDns(ev, payload[8..]);
  }

  /** parseDNS and, when it succeeds, the DNS event. */
  method TakeDns(ev: Event, data: seq<byte>) returns (r: ParseResult)
    requires ev.Blank()
    modifies ev`kind, ev`dns, ev`clientMac, ev`clientIp, ev`remoteIp
    ensures r == (if DnsOf(data).Some? then ParseOK else ParseMalformed)
    ensures ev.Reports(if DnsOf(data).Some? then Dns(DnsOf(data).value) else Malformed)
  {
    hide DnsOf;
    var ok, d := ParseDns(data);
    if ok {
      ev.kind := EventDns;
      ev.dns := d;
      ev.AssignClient(d.isResponse);
      return ParseOK;
    }
    return ParseMalformed;
  }

  method ParseTcp(ev: Event, payload: seq<byte>) returns (r: ParseResult)
    requires ev.Blank() && ev.Ported(None, false)
    modifies ev`kind, ev`srcPort, ev`dstPort, ev`dns, ev`tls, ev`clientMac, ev`clientIp, ev`remoteIp
    ensures r == TcpMeaning(payload).Result() && ev.Reports(TcpMeaning(payload))
    ensures ev.Ported(PortsAt(payload, 20), false)
  {
    hide DnsOf, HelloOf;
    if |payload| < 20 { return ParseMalformed; }
    ev.srcPort := Be16(payload, 0);
    ev.dstPort := Be16(payload, 2);
    var tcpHL := 4 * (payload[12] / 16);
    if tcpHL < 20 || |payload| < tcpHL { return ParseMalformed; }
    var tcpData := payload[tcpHL..];
    if ev.dstPort == 53 || ev.srcPort == 53 {
      if |tcpData| > 2 {
        r := TakeDns(ev, tcpData[2..]);
        return;
      }
      return ParseMalformed;
    }
    if ev.dstPort == 443 || ev.srcPort == 443 {
      var ok, t := ParseTlsClientHello(tcpData);
      if ok {
        ev.kind := EventTlsClientHello;
        ev.tls := t;
        ev.AssignClient(false);
        return ParseOK;
      }
      return ParseIgnore;
    }
    return ParseIgnore;
  }
}

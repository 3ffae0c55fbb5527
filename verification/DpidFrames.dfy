/**
 Ethernet frames built from their parts, and what the packet parser reports for them.
 */
module DpidFrames {
  import opened Bytes
  import opened DnsNames
  import opened DpidDns
  import opened DpidTls
  import opened DpidParser
  import opened DpidDnsResponses
  import opened FilterAgreement
  import R = MdnsResponses

  /** An Ethernet and an IPv4 header: `idFrag` is identification, flags and fragment offset,
      `total` the length field, and `padding` stands behind the IP packet. */
  datatype Frame = Frame(dstMac: seq<byte>, srcMac: seq<byte>, tos: byte, total: nat, idFrag: seq<byte>, ttl: byte,
                         checksum: seq<byte>, src: seq<byte>, dst: seq<byte>, options: seq<byte>, padding: seq<byte>)
  {
    predicate Valid() {
      && |dstMac| == 6 && |srcMac| == 6 && total < 65536 && |idFrag| == 4 && |checksum| == 2
      && |src| == 4 && |dst| == 4 && |options| <= 40 && |options| % 4 == 0
    }

    /** The length is that of header and payload; it may also be 0 or too large when nothing follows. */
    predicate Holds(payload: seq<byte>) {
      || total == 20 + |options| + |payload|
      || (padding == [] && (total == 0 || total > 20 + |options| + |payload|))
    }

    function Front(proto: byte): (r: seq<byte>)
      requires Valid()
      ensures |r| == 34
    {
      dstMac + srcMac + [8, 0] + [64 + (20 + |options|) / 4, tos] + PutBe16(total) + idFrag + [ttl, proto]
      + checksum + src + dst
    }

    function Bytes(proto: byte, payload: seq<byte>): seq<byte>
      requires Valid()
    {
      Front(proto) + options + payload + padding
    }

    function Udp(ports: Ports, rest: seq<byte>, data: seq<byte>): seq<byte>
      requires Valid() && ports.Valid()
    {
      Bytes(17, ports.Wire() + rest + data)
    }

    function Tcp(ports: Ports, t: TcpRest, data: seq<byte>): seq<byte>
      requires Valid() && ports.Valid() && t.Valid()
    {
      Bytes(6, ports.Wire() + t.Wire() + data)
    }
  }

  datatype Ports = Ports(src: nat, dst: nat)
  {
    predicate Valid() { src < 65536 && dst < 65536 }

    predicate Has(p: nat) { src == p || dst == p }

    function Wire(): (r: seq<byte>)
      requires Valid()
      ensures |r| == 4
    {
      [src / 256, src % 256, dst / 256, dst % 256]
    }
  }

  /** A TCP header behind the ports: numbers, the reserved bits, flags to urgent pointer, options. */
  datatype TcpRest = TcpRest(numbers: seq<byte>, reserved: byte, flags: seq<byte>, options: seq<byte>)
  {
    predicate Valid() {
      |numbers| == 8 && reserved < 16 && |flags| == 7 && |options| <= 40 && |options| % 4 == 0
    }

    function Wire(): (r: seq<byte>)
      requires Valid()
      ensures |r| == 16 + |options|
    {
      numbers + [(20 + |options|) / 4 * 16 + reserved] + flags + options
    }
  }

  lemma FrontRead(f: Frame, proto: byte)
    requires f.Valid()
    ensures var p := f.Front(proto);
            && p[0..6] == f.dstMac && p[6..12] == f.srcMac && p[12] == 8 && p[13] == 0
            && p[14] == 64 + (20 + |f.options|) / 4 && p[16] == f.total / 256 && p[17] == f.total % 256
            && p[20] == f.idFrag[2] && p[21] == f.idFrag[3] && p[23] == proto
            && p[26..30] == f.src && p[30..34] == f.dst
  {
  }

  /** The frame is a good IPv4 frame that carries the payload, without padding, from `src` to `dst`. */
  lemma FrameRead(f: Frame, proto: byte, payload: seq<byte>)
    requires f.Valid() && f.Holds(payload)
    ensures var b := f.Bytes(proto, payload);
            && GoodFrame(b) && b[23] == proto && Payload(b) == payload
            && b[0..6] == f.dstMac && b[6..12] == f.srcMac && b[26..30] == f.src && b[30..34] == f.dst
            && (Unfragmented(b) <==> Be16(f.idFrag, 2) % 8192 == 0)
  {
    hide PutBe16;
    var b, p := f.Bytes(proto, payload), f.Front(proto);
    FrontRead(f, proto);
    BehindFront(p, f.options, payload, f.padding);
    assert HeaderLen(b) == 20 + |f.options|;
    assert TotalLen(b) == 20 + |f.options| + |payload|;
  }

  lemma BehindFront(p: seq<byte>, options: seq<byte>, payload: seq<byte>, padding: seq<byte>)
    requires |p| == 34
    ensures var b := p + options + payload + padding;
            && b[..34] == p && b[34 + |options|..34 + |options| + |payload|] == payload
            && (forall i, j :: 0 <= i <= j <= 34 ==> b[i..j] == p[i..j])
            && forall i :: 0 <= i < 34 ==> b[i] == p[i]
  {
  }

  lemma PortsRead(ports: Ports, rest: seq<byte>)
    requires ports.Valid()
    ensures var q := ports.Wire() + rest; Be16(q, 0) == ports.src && Be16(q, 2) == ports.dst && q[4..] == rest
  {
  }

  function DnsMeaning(d: Option<DnsInfo>): Meaning { if d.Some? then Dns(d.value) else Malformed }

  /** UDP with port 53 on a side: the meaning is that of the bytes behind eight header bytes. */
  lemma UdpRead(f: Frame, ports: Ports, rest: seq<byte>, data: seq<byte>)
    requires f.Valid() && ports.Valid() && |rest| == 4 && f.Holds(ports.Wire() + rest + data)
    ensures MeaningOf(f.Udp(ports, rest, data)) == if ports.Has(53) then DnsMeaning(DnsOf(data)) else Ignored
  {
    hide DnsOf, GoodIp;
    var payload := ports.Wire() + rest + data;
    FrameRead(f, 17, payload);
    PortsRead(ports, rest + data);
    assert payload == ports.Wire() + (rest + data);
    assert payload[8..] == data;
  }

  /** A TCP header gives its own length in its 13th byte. */
  lemma OffsetRead(ports: Ports, t: TcpRest, data: seq<byte>)
    requires ports.Valid() && t.Valid()
    ensures var q := ports.Wire() + t.Wire() + data;
            && |q| >= 20 && 4 * (q[12] / 16) == 20 + |t.options| <= |q| && q[20 + |t.options|..] == data
  {
    hide Ports.Wire;
    assert (ports.Wire() + t.Wire() + data)[12] == t.Wire()[8] == (20 + |t.options|) / 4 * 16 + t.reserved;
  }

  /** TCP, whatever its options. */
  lemma TcpRead(f: Frame, ports: Ports, t: TcpRest, data: seq<byte>)
    requires f.Valid() && ports.Valid() && t.Valid() && f.Holds(ports.Wire() + t.Wire() + data)
    ensures MeaningOf(f.Tcp(ports, t, data)) == TcpDataMeaning(ports.src, ports.dst, data)
  {
    hide TcpDataMeaning, GoodIp, Ports.Wire, TcpRest.Wire, Frame.Bytes, Payload;
    var payload := ports.Wire() + t.Wire() + data;
    FrameRead(f, 6, payload);
    PortsRead(ports, t.Wire() + data);
    assert payload == ports.Wire() + (t.Wire() + data);
    OffsetRead(ports, t, data);
  }

  /** Main result: a DNS response in a UDP frame is reported as itself. */
  lemma UdpResponseReported(f: Frame, ports: Ports, rest: seq<byte>, m: R.Message, hosts: seq<Option<seq<seq<byte>>>>)
    requires m.Valid() && CnamesAre(m.Bytes(), m.answers, |m.Pre()|, hosts)
    requires f.Valid() && ports.Valid() && ports.Has(53) && |rest| == 4 && f.Holds(ports.Wire() + rest + m.Bytes())
    ensures MeaningOf(f.Udp(ports, rest, m.Bytes())) == DnsMeaning(ReportOf(m, hosts))
  {
    hide DnsOf, CnamesAre, ReportOf, MeaningOf;
    UdpRead(f, ports, rest, m.Bytes());
    ResponseReported(m, hosts);
  }

  /** The same over TCP, behind two length bytes. */
  lemma TcpResponseReported(f: Frame, ports: Ports, t: TcpRest, len: seq<byte>, m: R.Message, hosts: seq<Option<seq<seq<byte>>>>)
    requires m.Valid() && CnamesAre(m.Bytes(), m.answers, |m.Pre()|, hosts)
    requires f.Valid() && ports.Valid() && ports.Has(53) && t.Valid() && |len| == 2
    requires f.Holds(ports.Wire() + t.Wire() + (len + m.Bytes()))
    ensures MeaningOf(f.Tcp(ports, t, len + m.Bytes())) == DnsMeaning(ReportOf(m, hosts))
  {
    hide DnsOf, CnamesAre, ReportOf, MeaningOf;
    TcpRead(f, ports, t, len + m.Bytes());
    ResponseReported(m, hosts);
    assert (len + m.Bytes())[2..] == m.Bytes();
  }

  /** A query in a UDP frame. */
  lemma UdpQueryReported(f: Frame, ports: Ports, rest: seq<byte>, head: seq<byte>, q: R.Question, more: seq<byte>)
    requires |head| == 12 && head[2] < 128 && head[4] == 0 && head[5] == 1 && R.ValidQuestion(q)
    requires f.Valid() && ports.Valid() && ports.Has(53) && |rest| == 4
    requires f.Holds(ports.Wire() + rest + (head + Wire(q.name) + q.tail + more))
    ensures MeaningOf(f.Udp(ports, rest, head + Wire(q.name) + q.tail + more))
         == Dns(DnsInfo(false, Lower(Join(q.name)), Be16(q.tail, 0), [], 0))
  {
    hide DnsOf, MeaningOf, Wire, Join;
    UdpRead(f, ports, rest, head + Wire(q.name) + q.tail + more);
    QueryReported(head, q, more);
  }

  /** Main result: a ClientHello at the front of the data of a TCP frame with port 443 is reported
      with its server name and protocols. */
  lemma HelloFrameReported(f: Frame, ports: Ports, t: TcpRest, h: ClientHello, more: seq<byte>, i: nat, name: seq<byte>,
                           entries: seq<byte>, j: Option<nat>, protos: seq<seq<byte>>)
    requires h.Names(i, name, entries) && h.Offers(j, protos)
    requires f.Valid() && ports.Valid() && ports.Has(443) && !ports.Has(53) && t.Valid()
    requires f.Holds(ports.Wire() + t.Wire() + (h.Record() + more))
    ensures MeaningOf(f.Tcp(ports, t, h.Record() + more)) == Tls(TlsInfo(Lower(name), protos))
  {
    hide HelloOf, MeaningOf, ExtsWire;
    TcpRead(f, ports, t, h.Record() + more);
    HelloReported(h, more, i, name, entries, j, protos);
  }

  /** Main result: the filter hands up such frames when they are not fragments, except a
      ClientHello that is not sent to port 443. */
  lemma ReportedFrameAccepted(snaplen: nat, f: Frame, proto: byte, ports: Ports, behind: seq<byte>)
    requires f.Valid() && ports.Valid() && f.Holds(ports.Wire() + behind)
    requires MeaningOf(f.Bytes(proto, ports.Wire() + behind)).Result() == ParseOK
    ensures Accepted(snaplen, f.Bytes(proto, ports.Wire() + behind))
            <==> && Be16(f.idFrag, 2) % 8192 == 0
                 && (MeaningOf(f.Bytes(proto, ports.Wire() + behind)).Tls? ==> ports.dst == 443)
  {
    hide MeaningOf, Accepted, GoodIp;
    var b := f.Bytes(proto, ports.Wire() + behind);
    FrameRead(f, proto, ports.Wire() + behind);
    PortsRead(ports, behind);
    ParsedFramesAccepted(snaplen, b);
  }

  /** The event of a reported frame: a response comes from the remote side, all else from the client. */
  lemma ClientOfFrame(ev: Event, ts: int, f: Frame, proto: byte, payload: seq<byte>, m: Meaning)
    requires f.Valid() && f.Holds(payload) && (m.Dns? || m.Tls?)
    requires ev.Addressed(f.Bytes(proto, payload), ts) && ev.Reports(m)
    ensures ev.time == Some(ts)
    ensures (ev.clientMac, ev.clientIp, ev.remoteIp)
         == if m.Dns? && m.dns.isResponse then (f.dstMac, f.dst, f.src) else (f.srcMac, f.src, f.dst)
  {
    hide GoodIp, GoodFrame;
    FrameRead(f, proto, payload);
  }

  // ----- No other frames are reported

  /** Every good IPv4 frame is put together so. */
  lemma FrameOf(b: seq<byte>) returns (f: Frame)
    requires GoodFrame(b)
    ensures f.Valid() && f.Holds(Payload(b)) && b == f.Bytes(b[23], Payload(b))
  {
    var h, n := 14 + HeaderLen(b), 14 + TotalLen(b);
    f := Frame(b[0..6], b[6..12], b[15], Be16(b, 16), b[18..22], b[22], b[24..26], b[26..30], b[30..34], b[34..h], b[n..]);
    FrontOf(b, f);
    assert b == b[..34] + b[34..h] + b[h..n] + b[n..];
  }

  lemma FrontOf(b: seq<byte>, f: Frame)
    requires |b| >= 34 && b[12] == 8 && b[13] == 0 && f.Valid()
    requires f.dstMac == b[0..6] && f.srcMac == b[6..12] && b[14] == 64 + (20 + |f.options|) / 4 && f.tos == b[15]
    requires f.total == Be16(b, 16) && f.idFrag == b[18..22] && f.ttl == b[22]
    requires f.checksum == b[24..26] && f.src == b[26..30] && f.dst == b[30..34]
    ensures f.Front(b[23]) == b[..34]
  {
  }

  /** What does not have that form is malformed, or ignored when it carries another protocol than IPv4. */
  lemma OtherFrames(b: seq<byte>)
    requires !GoodFrame(b)
    ensures MeaningOf(b) == if |b| >= 14 && !(b[12] == 8 && b[13] == 0) then Ignored else Malformed
  {
    hide GoodIp, UdpMeaning, TcpMeaning;
  }

  /** Main result: only UDP with port 53 and TCP with port 53 or 443 is ever reported. */
  lemma ReportedOnlySo(b: seq<byte>) returns (f: Frame, ports: Ports, rest: seq<byte>, t: TcpRest, data: seq<byte>)
    requires MeaningOf(b).Result() == ParseOK
    ensures f.Valid() && ports.Valid()
    ensures || (|rest| == 4 && ports.Has(53) && b == f.Udp(ports, rest, data))
            || (t.Valid() && (ports.Has(53) || ports.Has(443)) && b == f.Tcp(ports, t, data))
  {
    hide DnsOf, HelloOf, GoodIp, Payload;
    f := FrameOf(b);
    var q := Payload(b);
    ports := Ports(Be16(q, 0), Be16(q, 2));
    PortsOfPayload(q, ports);
    rest, t, data := [], TcpRest([], 0, [], []), [];
    if b[23] == 17 {
      rest, data := q[4..8], q[8..];
      assert q == ports.Wire() + rest + data;
    } else {
      var n := 4 * (q[12] / 16);
      t, data := TcpRest(q[4..12], q[12] % 16, q[13..20], q[20..n]), q[n..];
      assert q == ports.Wire() + t.Wire() + data;
    }
  }

  lemma PortsOfPayload(q: seq<byte>, ports: Ports)
    requires |q| >= 4 && ports.src == Be16(q, 0) && ports.dst == Be16(q, 2)
    ensures ports.Valid() && ports.Wire() == q[..4]
  {
  }
}

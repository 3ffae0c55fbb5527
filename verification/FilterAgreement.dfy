/**
 The packet filter in the kernel and the parser behind it agree on which frames matter.
 */
module FilterAgreement {
  import opened Bytes
  import opened DpidParser
  import opened DpidTls
  import DpidDns
  import F = PacketFilter

  /** The filter program hands the frame up. */
  predicate Accepted(snaplen: nat, p: seq<byte>) {
    && F.BuildFilter(snaplen).Program?
    && F.Run(F.BuildFilter(snaplen).insns, p, F.Machine(0, 0, 0)) == Some(F.SnapLen(snaplen))
  }

  lemma AcceptedIsWanted(snaplen: nat, p: seq<byte>)
    ensures Accepted(snaplen, p) <==> F.Wanted(p)
  {
    hide F.Wanted;
    F.FilterMeansWanted(snaplen, p);
  }

  /** The port fields of the parser are those of the filter. */
  lemma PortsInFrame(p: seq<byte>)
    requires GoodIp(p) && |Payload(p)| >= 4
    ensures var h := F.IpHeaderLen(p);
            && h == HeaderLen(p)
            && 18 + h <= |p|
            && Be16(Payload(p), 0) == Be16(p, 14 + h)
            && Be16(Payload(p), 2) == Be16(p, 16 + h)
  {
    var q, h := Payload(p), HeaderLen(p);
    assert q[0] == p[14 + h] && q[1] == p[15 + h] && q[2] == p[16 + h] && q[3] == p[17 + h];
  }

  /** A ClientHello starts with the byte the filter looks for, at the place it looks. */
  lemma HelloByteInFrame(p: seq<byte>)
    requires GoodIp(p) && |Payload(p)| >= 20
    requires var tcpHL := 4 * (Payload(p)[12] / 16); 20 <= tcpHL <= |Payload(p)| && HelloOf(Payload(p)[tcpHL..]).Some?
    ensures var h := F.IpHeaderLen(p);
            && 26 + h < |p|
            && var at := 14 + h + 4 * (p[26 + h] / 16);
               at < |p| && p[at] == F.HANDSHAKE
  {
    hide ExtensionBlock, InfoOf;
    var q, h := Payload(p), HeaderLen(p);
    assert q[12] == p[26 + h];
    var tcpHL := 4 * (q[12] / 16);
    var data := q[tcpHL..];
    assert HelloBody(data).Some?;
    assert data[0] == q[tcpHL] == p[14 + h + tcpHL];
  }

  predicate Unfragmented(p: seq<byte>) {
    |p| >= 22 && Be16(p, 20) % 8192 == 0
  }

  /** A ClientHello that was not sent to port 443 (so it comes from port 443). */
  predicate HelloFrom443Only(p: seq<byte>) {
    MeaningOf(p).Tls? && GoodIp(p) && |Payload(p)| >= 4 && Be16(Payload(p), 2) != 443
  }

  /**
   Main result: of the frames the parser reports, the filter accepts exactly the
   unfragmented ones, except a ClientHello sent from port 443 to another port.
   */
  lemma ParsedFramesAccepted(snaplen: nat, p: seq<byte>)
    requires MeaningOf(p).Result() == ParseOK
    ensures Accepted(snaplen, p) <==> Unfragmented(p) && !HelloFrom443Only(p)
  {
    hide DpidDns.DnsOf, HelloOf;
    AcceptedIsWanted(snaplen, p);
    PortsInFrame(p);
    if MeaningOf(p).Tls? {
      HelloByteInFrame(p);
    }
  }

  /**
   Conversely, of the frames the filter accepts the parser ignores only TCP frames to
   port 443 whose handshake byte is not followed by a usable ClientHello.
   */
  lemma AcceptedFramesIgnored(snaplen: nat, p: seq<byte>)
    requires Accepted(snaplen, p)
    ensures MeaningOf(p).Result() == ParseIgnore ==>
              && GoodIp(p) && p[23] == PROTO_TCP && |Payload(p)| >= 20
              && Be16(Payload(p), 2) == 443 && Be16(Payload(p), 0) != 53
              && var tcpHL := 4 * (Payload(p)[12] / 16);
                 20 <= tcpHL <= |Payload(p)| && HelloOf(Payload(p)[tcpHL..]) == None
  {
    hide DpidDns.DnsOf, HelloOf;
    AcceptedIsWanted(snaplen, p);
    if MeaningOf(p).Ignored? {
      assert GoodIp(p);
      if |Payload(p)| >= 4 {
        PortsInFrame(p);
      }
    }
  }

  /** Fragments are where filter and parser part: the parser does not look at the fragment offset. */
  lemma ParserIgnoresFragmentation(p: seq<byte>, q: seq<byte>)
    requires |p| >= 34 && |q| == |p| && Be16(p, 12) == ETHERTYPE_IPV4
    requires forall i :: 0 <= i < |p| && i != 20 && i != 21 ==> p[i] == q[i]
    ensures MeaningOf(p) == MeaningOf(q)
  {
    hide UdpMeaning, TcpMeaning;
    if GoodIp(p) {
      assert GoodIp(q);
      assert Payload(p) == Payload(q);
    }
  }
}

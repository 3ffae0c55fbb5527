/**
 The TLS side of the packet parser: server name and ALPN of a ClientHello held in
 one record (section 4.1.2 of RFC 8446, section 3 of RFC 6066, section 3.1 of
 RFC 7301).
 */
module DpidTls {
  import opened Bytes

  const SERVER_NAME := 0
  const ALPN := 16

  datatype TlsInfo = TlsInfo(sni: seq<byte>, alpn: seq<seq<byte>>)

  datatype Ext = Ext(etype: nat, data: seq<byte>)

  /** The handshake body of a record that holds a whole ClientHello. */
  function HelloBody(b: seq<byte>): Option<seq<byte>> {
    if |b| < 5 || b[0] != 0x16 then None
    else
      var recLen := Be16(b, 3);
      if recLen < 4 || |b| < 5 + recLen || b[5] != 1 then None
      else
        var bodyLen := b[6] as int * 65536 + Be16(b, 7);
        if recLen < 4 + bodyLen then None else Some(b[9..9 + bodyLen])
  }

  /** The extension block behind version, random, session id, cipher suites and compression methods. */
  function ExtensionBlock(body: seq<byte>): Option<seq<byte>> {
    if |body| < 35 || |body| < 35 + body[34] as int + 2 then None
    else
      var p1 := 35 + body[34] as int;
      var p2 := p1 + 2 + Be16(body, p1);
      if |body| < p2 + 1 || |body| < p2 + 1 + body[p2] + 2 then None
      else
        var p3 := p2 + 1 + body[p2];
        var extLen := Be16(body, p3);
        if |body| < p3 + 2 + extLen then None else Some(body[p3 + 2..p3 + 2 + extLen])
  }

  /** The complete extensions at the front of a block. */
  function Extensions(ext: seq<byte>): seq<Ext> {
    if |ext| < 4 || |ext| < 4 + Be16(ext, 2) then []
    else
      var end := 4 + Be16(ext, 2);
      [Ext(Be16(ext, 0), ext[4..end])] + Extensions(ext[end..])
  }

  /** The first entry of a server_name extension, if it is a complete host_name. */
  function HostName(data: seq<byte>): Option<seq<byte>> {
    if |data| < 5 || data[2] != 0 || |data| < 5 + Be16(data, 3) then None
    else Some(Lower(data[5..5 + Be16(data, 3)]))
  }

  /** The complete protocol names at the front of a list. */
  function Protocols(list: seq<byte>): seq<seq<byte>> {
    if |list| < 1 || |list| < 1 + list[0] as int then []
    else [list[1..1 + list[0] as int]] + Protocols(list[1 + list[0] as int..])
  }

  function AlpnOf(data: seq<byte>): seq<seq<byte>> {
    if |data| < 2 then [] else Protocols(data[2..])
  }

  /** The last readable server name wins. */
  function SniOf(sni: seq<byte>, exts: seq<Ext>): seq<byte>
    decreases |exts|
  {
    if exts == [] then sni else SniOf(SniStep(sni, exts[0]), exts[1..])
  }

  function SniStep(sni: seq<byte>, e: Ext): seq<byte> {
    if e.etype == SERVER_NAME && HostName(e.data).Some? then HostName(e.data).value else sni
  }

  /** All ALPN lists, one after another. */
  function AllAlpn(exts: seq<Ext>): seq<seq<byte>> {
    if exts == [] then []
    else (if exts[0].etype == ALPN then AlpnOf(exts[0].data) else []) + AllAlpn(exts[1..])
  }

  function InfoOf(exts: seq<Ext>): Option<TlsInfo> {
    var info := TlsInfo(SniOf([], exts), AllAlpn(exts));
    if info.sni == [] && info.alpn == [] then None else Some(info)
  }

  function HelloOf(b: seq<byte>): Option<TlsInfo> {
    match HelloBody(b)
    case None => None
    case Some(body) =>
      match ExtensionBlock(body)
      case None => None
      case Some(ext) => InfoOf(Extensions(ext))
  }

  /** parseTLSClientHello; total, so no input makes it index out of range. */
  method ParseTlsClientHello(b: seq<byte>) returns (ok: bool, info: TlsInfo)
    ensures ok <==> HelloOf(b).Some?
    ensures ok ==> HelloOf(b) == Some(info)
  {
    hide HelloBody, ExtensionBlock, Extensions, SniOf, AllAlpn;
    info := TlsInfo([], []);
    var framed, body := FindBody(b);
    if !framed { return false, info; }
    var found, ext := FindExtensions(body);
    if !found { return false, info; }
    var sni, alpn := ReadExtensions(ext);
    if sni == [] && alpn == [] { return false, info; }
    return true, TlsInfo(sni, alpn);
  }

  method FindBody(b: seq<byte>) returns (ok: bool, body: seq<byte>)
    ensures ok <==> HelloBody(b).Some?
    ensures ok ==> HelloBody(b) == Some(body)
  {
    body := [];
    if |b| < 5 || b[0] != 0x16 { return false, body; }
    var recLen := Be16(b, 3);
    if recLen < 4 || |b| < 5 + recLen { return false, body; }
    var hs := b[5..5 + recLen];
    assert hs[0] == b[5] && hs[1] == b[6] && hs[2] == b[7] && hs[3] == b[8];
    if hs[0] != 1 { return false, body; }
    var bodyLen := hs[1] as int * 65536 + hs[2] as int * 256 + hs[3];
    if |hs| < 4 + bodyLen { return false, body; }
    SliceOfSlice(b, 5, 5 + recLen, 4, 4 + bodyLen);
    ok, body := true, hs[4..4 + bodyLen];
  }

  lemma SliceOfSlice(b: seq<byte>, i: nat, j: nat, k: nat, l: nat)
    requires i <= j <= |b| && k <= l <= j - i
    ensures b[i..j][k..l] == b[i + k..i + l]
  {
    var u, v := b[i..j][k..l], b[i + k..i + l];
    assert |u| == |v| && forall t :: 0 <= t < |u| ==> u[t] == v[t];
  }

  method FindExtensions(body: seq<byte>) returns (ok: bool, ext: seq<byte>)
    ensures ok <==> ExtensionBlock(body).Some?
    ensures ok ==> ExtensionBlock(body) == Some(ext)
  {
    ext := [];
    var p: nat := 0;
    if |body| < p + 2 + 32 + 1 { return false, ext; }
    p := p + 2 + 32;
    var sidLen := body[p];
    p := p + 1;
    if |body| < p + sidLen + 2 { return false, ext; }
    p := p + sidLen;
    var csLen := Be16(body, p);
    p := p + 2 + csLen;
    if |body| < p + 1 { return false, ext; }
    var cmLen := body[p];
    p := p + 1 + cmLen;
    if |body| < p + 2 { return false, ext; }
    var extLen := Be16(body, p);
    p := p + 2;
    if |body| < p + extLen { return false, ext; }
    ok, ext := true, body[p..p + extLen];
  }

  /** The loop over the extension block. */
  method ReadExtensions(block: seq<byte>) returns (sni: seq<byte>, alpn: seq<seq<byte>>)
    ensures sni == SniOf([], Extensions(block))
    ensures alpn == AllAlpn(Extensions(block))
  {
    hide HostName, AlpnOf, Extensions, SniOf, AllAlpn;
    sni, alpn := [], [];
    var ext := block;
    while |ext| >= 4
      invariant SniOf([], Extensions(block)) == SniOf(sni, Extensions(ext))
      invariant AllAlpn(Extensions(block)) == alpn + AllAlpn(Extensions(ext))
      decreases |ext|
    {
      var etype := Be16(ext, 0);
      var elen := Be16(ext, 2);
      if |ext| < 4 + elen {
        ExtensionsEnd(ext);
        return;
      }
      var e := Ext(etype, ext[4..4 + elen]);
      ExtensionsCons(ext, e);
      ext := ext[4 + elen..];
      if etype == SERVER_NAME {
        var name := ReadHostName(e.data);
        if name.Some? { sni := name.value; }
      } else if etype == ALPN {
        var more := ReadProtocols(e.data);
        alpn := alpn + more;
      }
    }
    ExtensionsEnd(ext);
  }

  lemma ExtensionsEnd(ext: seq<byte>)
    requires |ext| >= 4 ==> |ext| < 4 + Be16(ext, 2)
    ensures Extensions(ext) == [] && AllAlpn([]) == [] && forall sni :: SniOf(sni, []) == sni
  {
  }

  lemma ExtensionsCons(ext: seq<byte>, e: Ext)
    requires |ext| >= 4 && |ext| >= 4 + Be16(ext, 2) && e == Ext(Be16(ext, 0), ext[4..4 + Be16(ext, 2)])
    ensures var rest := Extensions(ext[4 + Be16(ext, 2)..]);
            && Extensions(ext) == [e] + rest
            && (forall sni :: SniOf(sni, Extensions(ext)) == SniOf(SniStep(sni, e), rest))
            && AllAlpn(Extensions(ext)) == (if e.etype == ALPN then AlpnOf(e.data) else []) + AllAlpn(rest)
  {
    hide HostName, AlpnOf;
    var rest := Extensions(ext[4 + Be16(ext, 2)..]);
    assert ([e] + rest)[1..] == rest;
  }

  method ReadHostName(data: seq<byte>) returns (name: Option<seq<byte>>)
    ensures name == HostName(data)
  {
    if |data| < 5 { return None; }
    var entry := data[2..];
    if entry[0] != 0 { return None; }
    var nameLen := Be16(entry, 1);
    if |entry| < 3 + nameLen { return None; }
    assert entry[3..3 + nameLen] == data[5..5 + nameLen];
    name := Some(Lower(entry[3..3 + nameLen]));
  }

  method ReadProtocols(data: seq<byte>) returns (alpn: seq<seq<byte>>)
    ensures alpn == AlpnOf(data)
  {
    alpn := [];
    if |data| < 2 { return; }
    var list := data[2..];
    while |list| >= 1
      invariant AlpnOf(data) == alpn + Protocols(list)
      decreases |list|
    {
      var n := list[0] as int;
      if |list| < 1 + n { return; }
      alpn := alpn + [list[1..1 + n]];
      list := list[1 + n..];
    }
  }

  // ----- Well-formed ClientHellos

  datatype ClientHello = ClientHello(recordVersion: seq<byte>, version: seq<byte>, random: seq<byte>, sessionId: seq<byte>,
                                     suites: seq<byte>, compression: seq<byte>, exts: seq<Ext>)
  {
    predicate Valid() {
      && |recordVersion| == 2 && |version| == 2 && |random| == 32
      && |sessionId| < 256 && |suites| < 65536 && |compression| < 256
      && ValidExts(exts) && |ExtsWire(exts)| < 65536
      && 4 + |Body()| < 65536
    }

    function Body(): seq<byte>
      requires |sessionId| < 256 && |suites| < 65536 && |compression| < 256
      requires ValidExts(exts) && |ExtsWire(exts)| < 65536
    {
      version + random + [|sessionId| as byte] + sessionId + PutBe16(|suites|) + suites
      + [|compression| as byte] + compression + PutBe16(|ExtsWire(exts)|) + ExtsWire(exts)
    }

    /** Extension i is the only server_name; its first entry is the host name. */
    predicate Names(i: nat, name: seq<byte>, entries: seq<byte>) {
      && Valid() && i < |exts| && name != [] && exts[i].etype == 0
      && 3 + |name| + |entries| < 65536 && exts[i].data == ServerNameData(name, entries)
      && forall k :: 0 <= k < |exts| && k != i ==> exts[k].etype != 0
    }

    /** No ALPN, or extension j alone with these protocols. */
    predicate Offers(j: Option<nat>, protos: seq<seq<byte>>) {
      && (j == None ==> protos == [])
      && (j.Some? ==> && j.value < |exts| && exts[j.value].etype == 16
                      && ValidProtocols(protos) && |ProtocolsWire(protos)| < 65536
                      && exts[j.value].data == AlpnData(protos))
      && forall k :: 0 <= k < |exts| && j != Some(k) ==> exts[k].etype != 16
    }

    /** One handshake record holding the message. */
    function Record(): seq<byte>
      requires Valid()
    {
      [0x16] + recordVersion + PutBe16(4 + |Body()|) + [1, 0] + PutBe16(|Body()|) + Body()
    }
  }

  predicate ValidExts(exts: seq<Ext>) {
    forall e :: e in exts ==> e.etype < 65536 && |e.data| < 65536
  }

  function ExtWire(e: Ext): seq<byte>
    requires e.etype < 65536 && |e.data| < 65536
  {
    PutBe16(e.etype) + PutBe16(|e.data|) + e.data
  }

  function ExtsWire(exts: seq<Ext>): seq<byte>
    requires ValidExts(exts)
  {
    if exts == [] then [] else assert exts[0] in exts; ExtWire(exts[0]) + ExtsWire(exts[1..])
  }

  /** A server_name list: its length, a host_name entry, more entries. */
  function ServerNameData(name: seq<byte>, more: seq<byte>): seq<byte>
    requires 3 + |name| + |more| < 65536
  {
    PutBe16(3 + |name| + |more|) + [0] + PutBe16(|name|) + name + more
  }

  predicate ValidProtocols(protos: seq<seq<byte>>) {
    forall q :: q in protos ==> |q| < 256
  }

  function ProtocolsWire(protos: seq<seq<byte>>): seq<byte>
    requires ValidProtocols(protos)
  {
    if protos == [] then []
    else assert protos[0] in protos; [|protos[0]| as byte] + protos[0] + ProtocolsWire(protos[1..])
  }

  function AlpnData(protos: seq<seq<byte>>): seq<byte>
    requires ValidProtocols(protos) && |ProtocolsWire(protos)| < 65536
  {
    PutBe16(|ProtocolsWire(protos)|) + ProtocolsWire(protos)
  }

  // ----- They are read back

  /** A 16-bit field in the middle of a message. */
  lemma FieldAt(pre: seq<byte>, v: nat, post: seq<byte>)
    requires v < 65536
    ensures Be16(pre + PutBe16(v) + post, |pre|) == v
  {
    var b := pre + PutBe16(v) + post;
    assert b[|pre|] == v / 256 && b[|pre| + 1] == v % 256;
  }

  lemma BodyRead(h: ClientHello)
    requires h.Valid()
    ensures ExtensionBlock(h.Body()) == Some(ExtsWire(h.exts))
  {
    hide ExtsWire, ValidExts, PutBe16;
    var body, ext := h.Body(), ExtsWire(h.exts);
    var a := h.version + h.random;
    var b := a + [|h.sessionId| as byte] + h.sessionId;
    var c := b + PutBe16(|h.suites|) + h.suites;
    var d := c + [|h.compression| as byte] + h.compression;
    PutLen();
    assert body == d + PutBe16(|ext|) + ext;
    assert body[34] == |h.sessionId|;
    assert |b| == 35 + |h.sessionId|;
    assert body == b + PutBe16(|h.suites|) + (h.suites + [|h.compression| as byte] + h.compression + PutBe16(|ext|) + ext);
    FieldAt(b, |h.suites|, h.suites + [|h.compression| as byte] + h.compression + PutBe16(|ext|) + ext);
    assert body[|c|] == |h.compression|;
    FieldAt(d, |ext|, ext);
    assert body[|d| + 2..|d| + 2 + |ext|] == ext;
  }

  lemma PutLen()
    ensures forall v: nat :: v < 65536 ==> |PutBe16(v)| == 2
  {
  }

  lemma RecordRead(h: ClientHello, more: seq<byte>)
    requires h.Valid()
    ensures HelloBody(h.Record() + more) == Some(h.Body())
  {
    hide ExtsWire, ValidExts, PutBe16;
    var b, body := h.Record() + more, h.Body();
    PutLen();
    var pre := [0x16] + h.recordVersion;
    FieldAt(pre, 4 + |body|, [1, 0] + PutBe16(|body|) + body + more);
    assert b == pre + PutBe16(4 + |body|) + ([1, 0] + PutBe16(|body|) + body + more);
    var pre2 := pre + PutBe16(4 + |body|) + [1, 0];
    FieldAt(pre2, |body|, body + more);
    assert b == pre2 + PutBe16(|body|) + (body + more);
    assert b[5] == pre2[5] && b[6] == pre2[6];
    assert b[9..9 + |body|] == body;
  }

  lemma ExtRead(e: Ext, rest: seq<byte>)
    requires e.etype < 65536 && |e.data| < 65536
    ensures var w := ExtWire(e) + rest;
            && |w| >= 4 && Be16(w, 0) == e.etype && Be16(w, 2) == |e.data|
            && |w| >= 4 + |e.data| && w[4..4 + |e.data|] == e.data && w[4 + |e.data|..] == rest
  {
    hide PutBe16;
    PutLen();
    var w := ExtWire(e) + rest;
    FieldAt([], e.etype, PutBe16(|e.data|) + e.data + rest);
    assert w == [] + PutBe16(e.etype) + (PutBe16(|e.data|) + e.data + rest);
    FieldAt(PutBe16(e.etype), |e.data|, e.data + rest);
    assert w == PutBe16(e.etype) + PutBe16(|e.data|) + (e.data + rest);
  }

  lemma {:induction false} ExtsRead(exts: seq<Ext>)
    requires ValidExts(exts)
    ensures Extensions(ExtsWire(exts)) == exts
  {
    if exts != [] {
      hide ExtWire;
      var e, rest := exts[0], exts[1..];
      assert e in exts;
      ExtsRead(rest);
      ExtRead(e, ExtsWire(rest));
      assert [e] + rest == exts;
    }
  }

  lemma HostNameRead(name: seq<byte>, more: seq<byte>)
    requires 3 + |name| + |more| < 65536
    ensures HostName(ServerNameData(name, more)) == Some(Lower(name))
  {
    var data := ServerNameData(name, more);
    var pre := PutBe16(3 + |name| + |more|) + [0];
    FieldAt(pre, |name|, name + more);
    assert data == pre + PutBe16(|name|) + (name + more);
    assert data[2] == 0;
    assert data[5..5 + |name|] == name;
  }

  lemma {:induction false} ProtocolsRead(protos: seq<seq<byte>>)
    requires ValidProtocols(protos)
    ensures Protocols(ProtocolsWire(protos)) == protos
  {
    if protos != [] {
      var q, rest := protos[0], protos[1..];
      assert q in protos;
      ProtocolsRead(rest);
      var w := ProtocolsWire(protos);
      assert w[1..1 + |q|] == q && w[1 + |q|..] == ProtocolsWire(rest);
      assert [q] + rest == protos;
    }
  }

  lemma {:induction false} UniqueSni(sni: seq<byte>, exts: seq<Ext>, i: nat, name: seq<byte>)
    requires i < |exts| && exts[i].etype == SERVER_NAME && HostName(exts[i].data) == Some(name)
    requires forall k :: 0 <= k < |exts| && k != i ==> exts[k].etype != SERVER_NAME
    ensures SniOf(sni, exts) == name
    decreases i
  {
    hide HostName;
    if i == 0 {
      NoSni(name, exts[1..]);
    } else {
      assert exts[0].etype != SERVER_NAME;
      UniqueSni(sni, exts[1..], i - 1, name);
    }
  }

  lemma {:induction false} NoSni(sni: seq<byte>, exts: seq<Ext>)
    requires forall k :: 0 <= k < |exts| ==> exts[k].etype != SERVER_NAME
    ensures SniOf(sni, exts) == sni
    decreases |exts|
  {
    if exts != [] {
      assert exts[0].etype != SERVER_NAME;
      NoSni(sni, exts[1..]);
    }
  }

  /** No ALPN extension, or a single one: its protocols in order. */
  lemma {:induction false} UniqueAlpn(exts: seq<Ext>, j: Option<nat>, protos: seq<seq<byte>>)
    requires j == None ==> protos == []
    requires j.Some? ==> j.value < |exts| && exts[j.value].etype == ALPN && AlpnOf(exts[j.value].data) == protos
    requires forall k :: 0 <= k < |exts| && j != Some(k) ==> exts[k].etype != ALPN
    ensures AllAlpn(exts) == protos
    decreases |exts|
  {
    hide AlpnOf;
    if exts != [] {
      if j == Some(0) {
        UniqueAlpn(exts[1..], None, []);
      } else {
        assert exts[0].etype != ALPN;
        UniqueAlpn(exts[1..], if j == None then None else Some(j.value - 1), protos);
      }
    }
  }

  /**
   Main result: a ClientHello with one server_name extension (extension i, first entry
   the host name) and at most one ALPN extension (extension j) is reported with the
   lower-cased name and the protocols in order, whatever the other extensions and the
   bytes behind the record.
   */
  lemma HelloReported(h: ClientHello, more: seq<byte>, i: nat, name: seq<byte>, entries: seq<byte>,
                      j: Option<nat>, protos: seq<seq<byte>>)
    requires h.Names(i, name, entries) && h.Offers(j, protos)
    ensures HelloOf(h.Record() + more) == Some(TlsInfo(Lower(name), protos))
  {
    hide HelloBody, ExtensionBlock, Extensions, ExtsWire, HostName, ServerNameData, AllAlpn, SniOf;
    RecordRead(h, more);
    BodyRead(h);
    ExtsRead(h.exts);
    HostNameRead(name, entries);
    UniqueSni([], h.exts, i, Lower(name));
    if j.Some? {
      ProtocolsRead(protos);
      assert AlpnData(protos)[2..] == ProtocolsWire(protos);
    }
    UniqueAlpn(h.exts, j, protos);
  }

  /** Nothing else is reported: the bytes start a handshake record that is all there and holds a
      ClientHello that is all there. */
  lemma OnlyHellos(b: seq<byte>)
    requires HelloOf(b).Some?
    ensures |b| >= 9 && b[0] == 22 && b[5] == 1
    ensures 5 + Be16(b, 3) <= |b| && 4 + b[6] as int * 65536 + b[7] as int * 256 + b[8] <= Be16(b, 3)
  {
    hide ExtensionBlock, InfoOf, Extensions;
  }

  /** A server name is read from an entry of type host_name that is all there. */
  lemma OnlyHostNames(data: seq<byte>) returns (name: seq<byte>, more: seq<byte>)
    requires HostName(data).Some?
    ensures |name| < 65536 && HostName(data) == Some(Lower(name))
    ensures data == data[..2] + [0, |name| / 256, |name| % 256] + name + more
  {
    var n := Be16(data, 3);
    name, more := data[5..5 + n], data[5 + n..];
    assert data[2..5] == [0, n / 256, n % 256];
    assert data == data[..2] + data[2..5] + name + more;
  }
}

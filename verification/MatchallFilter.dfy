/**
 The request that redirects a device's ingress traffic: a matchall classifier with a single
 mirred action, built attribute by attribute.
 */
module MatchallFilter {
  import opened Bytes
  import opened NetlinkAttrs

  const REQ_BUF_SIZE := 1024
  const RTM_NEWTFILTER := 44
  const FLAGS := 0x605
  const INGRESS_PARENT := 0xFFFFFFF2
  const ETH_P_ALL_NET := 0x0300

  const TCA_KIND := 1
  const TCA_OPTIONS := 2
  const TCA_MATCHALL_ACT := 2
  const TCA_ACT_KIND := 1
  const TCA_ACT_OPTIONS := 2
  const NLA_F_NESTED := 0x8000
  const TCA_MIRRED_PARMS := 2
  const TC_ACT_STOLEN := 4
  const TCA_EGRESS_REDIR := 1

  /** struct tc_mirred: index, capab, action, refcnt, bindcnt, eaction, ifindex */
  function Mirred(ifb: nat): (r: seq<byte>)
    ensures |r| == 28
  {
    Le32(0) + Le32(0) + Le32(TC_ACT_STOLEN) + Le32(0) + Le32(0) + Le32(TCA_EGRESS_REDIR) + Le32(ifb)
  }

  /** nlmsghdr and tcmsg; the length field is kept apart and the sequence number is set on sending. */
  function Fixed(iface: nat, prio: nat): (r: seq<byte>)
    ensures |r| == 36
  {
    Le32(0) + Le16(RTM_NEWTFILTER) + Le16(FLAGS) + Le32(0) + Le32(0)
    + Le32(0) + Le32(iface) + Le32(0) + Le32(INGRESS_PARENT) + Le32(prio % 65536 * 65536 + ETH_P_ALL_NET)
  }

  function KindAttr(name: string): Attr
    requires forall i :: 0 <= i < |name| ==> name[i] < 128 as char
  {
    Leaf(TCA_KIND, Ascii(name) + [0])
  }

  function Action(ifb: nat): seq<Attr> {
    [KindAttr("mirred"), Nest(TCA_ACT_OPTIONS + NLA_F_NESTED, [Leaf(TCA_MIRRED_PARMS, Mirred(ifb))])]
  }

  function Actions(ifb: nat): Attr { Nest(TCA_MATCHALL_ACT, [Nest(1, Action(ifb))]) }

  function Tree(ifb: nat): seq<Attr> { [KindAttr("matchall"), Nest(TCA_OPTIONS, [Actions(ifb)])] }

  /** The levels at which the kernel looks for attributes inside attributes. */
  function Levels(): Schema {
    var action := Schema(map[TCA_ACT_OPTIONS + NLA_F_NESTED := Schema(map[])]);
    Schema(map[TCA_OPTIONS := Schema(map[TCA_MATCHALL_ACT := Schema(map[1 := action])])])
  }

  lemma EncodeOne(a: Attr)
    ensures EncodeAll([a]) == Encode(a)
  {
    assert [a][1..] == [];
  }

  lemma EncodeTwo(a: Attr, b: Attr)
    ensures EncodeAll([a, b]) == Encode(a) + Encode(b)
  {
    assert [a, b][1..] == [b];
    EncodeOne(b);
  }

  lemma ActionSizes(ifb: nat)
    ensures var parms := Leaf(TCA_MIRRED_PARMS, Mirred(ifb));
            && Encode(parms) == LeafBytes(TCA_MIRRED_PARMS, parms.data) && |Encode(parms)| == 32
            && |LeafBytes(TCA_ACT_KIND, Ascii("mirred") + [0])| == 12
            && EncodeAll(Action(ifb)) == LeafBytes(TCA_ACT_KIND, Ascii("mirred") + [0])
                                         + Encode(Nest(TCA_ACT_OPTIONS + NLA_F_NESTED, [parms]))
            && |EncodeAll(Action(ifb))| == 48
  {
    hide Mirred, Zeros, Header;
    var parms := Leaf(TCA_MIRRED_PARMS, Mirred(ifb));
    EncodeOne(parms);
    EncodeTwo(KindAttr("mirred"), Nest(TCA_ACT_OPTIONS + NLA_F_NESTED, [parms]));
  }

  lemma TreeSize(ifb: nat)
    ensures |EncodeAll(Tree(ifb))| == 76
  {
    ActionSizes(ifb);
    hide Action, Mirred, Zeros;
    var first := Nest(1, Action(ifb));
    assert |Encode(first)| == 52;
    hide Encode, EncodeAll;
    NestSize(TCA_MATCHALL_ACT, first);
    NestSize(TCA_OPTIONS, Actions(ifb));
    MatchallKindSize();
    EncodeTwo(KindAttr("matchall"), Nest(TCA_OPTIONS, [Actions(ifb)]));
  }

  lemma NestSize(kind: nat, child: Attr)
    ensures |Encode(Nest(kind, [child]))| == 4 + |Encode(child)|
  {
    EncodeOne(child);
  }

  lemma MatchallKindSize()
    ensures |Encode(KindAttr("matchall"))| == 16
  {
  }

  /** Closing a nest with a single attribute in it. */
  lemma Closes(base: seq<byte>, kind: nat, child: Attr, open: seq<byte>)
    requires open == base + Header(4, kind) + Encode(child)
    ensures open[..|base|] + Le16(|open| - |base|) + open[|base| + 2..] == base + Encode(Nest(kind, [child]))
    ensures |Encode(Nest(kind, [child]))| == 4 + |Encode(child)|
  {
    EncodeOne(child);
    PatchCloses(base, kind, [child], open);
  }

  method AppendMirredAction(m: NlMessage, ifb: nat) returns (ok: bool)
    requires m.Valid()
    modifies m, m.buf
    ensures m.Valid()
    ensures ok == (old(m.len) + |EncodeAll(Action(ifb))| <= m.buf.Length)
    ensures ok ==> m.buf[..m.len] == old(m.buf[..m.len]) + EncodeAll(Action(ifb))
  {
    ActionSizes(ifb);
    hide LeafBytes, Header, EncodeAll, Mirred, Align, Encode, Zeros, Ascii, Action, Le16;
    var parms := Leaf(TCA_MIRRED_PARMS, Mirred(ifb));
    ok := m.AddAttrL(TCA_ACT_KIND, Ascii("mirred") + [0]);
    if !ok { return false; }
    ghost var mid := m.buf[..m.len];
    var options := m.AddAttrNest(TCA_ACT_OPTIONS + NLA_F_NESTED);
    if options.None? { return false; }
    ok := m.AddAttrL(TCA_MIRRED_PARMS, parms.data);
    if !ok { return false; }
    Closes(mid, TCA_ACT_OPTIONS + NLA_F_NESTED, parms, m.buf[..m.len]);
    m.NestEnd(options.value);
    ghost var leaf := LeafBytes(TCA_ACT_KIND, Ascii("mirred") + [0]);
    ghost var nest := Encode(Nest(TCA_ACT_OPTIONS + NLA_F_NESTED, [parms]));
    assert m.buf[..m.len] == mid + nest;
    Assoc(old(m.buf[..m.len]), leaf, nest);
  }

  lemma Assoc(a: seq<byte>, b: seq<byte>, c: seq<byte>)
    ensures (a + b) + c == a + (b + c)
  {
  }

  /** The message up to its open nests, and the offsets of the three. */
  method OpenNests(m: NlMessage) returns (options: nat, actions: nat, first: nat)
    requires m.Valid() && m.len + 28 <= m.buf.Length
    modifies m, m.buf
    ensures m.Valid() && m.len == old(m.len) + 28
    ensures options == old(m.len) + 16 && actions == options + 4 && first == actions + 4
    ensures m.buf[..m.len] == old(m.buf[..m.len]) + Encode(KindAttr("matchall"))
                              + Header(4, TCA_OPTIONS) + Header(4, TCA_MATCHALL_ACT) + Header(4, 1)
  {
    assert |LeafBytes(TCA_KIND, Ascii("matchall") + [0])| == 16;
    hide LeafBytes, Header, Zeros, Align;
    var _ := m.AddAttrL(TCA_KIND, Ascii("matchall") + [0]);
    var o := m.AddAttrNest(TCA_OPTIONS);
    var a := m.AddAttrNest(TCA_MATCHALL_ACT);
    var f := m.AddAttrNest(1);
    return o.value, a.value, f.value;
  }

  method CloseNests(m: NlMessage, options: nat, actions: nat, first: nat, ghost base: seq<byte>, ghost inner: seq<Attr>)
    requires m.Valid() && options == |base| && actions == options + 4 && first == actions + 4
    requires m.buf[..m.len] == base + Header(4, TCA_OPTIONS) + Header(4, TCA_MATCHALL_ACT) + Header(4, 1) + EncodeAll(inner)
    modifies m.buf
    ensures m.Valid()
    ensures m.buf[..m.len] == base + Encode(Nest(TCA_OPTIONS, [Nest(TCA_MATCHALL_ACT, [Nest(1, inner)])]))
  {
    hide Header, EncodeAll, Encode, Zeros, Align, Le16;
    ghost var b1 := base + Header(4, TCA_OPTIONS);
    ghost var b2 := b1 + Header(4, TCA_MATCHALL_ACT);
    PatchCloses(b2, 1, inner, m.buf[..m.len]);
    m.NestEnd(first);
    assert m.buf[..m.len] == b1 + Header(4, TCA_MATCHALL_ACT) + Encode(Nest(1, inner));
    Closes(b1, TCA_MATCHALL_ACT, Nest(1, inner), m.buf[..m.len]);
    m.NestEnd(actions);
    Closes(base, TCA_OPTIONS, Nest(TCA_MATCHALL_ACT, [Nest(1, inner)]), m.buf[..m.len]);
    m.NestEnd(options);
  }

  lemma TreeBytes(fixed: seq<byte>, ifb: nat)
    ensures fixed + Encode(KindAttr("matchall")) + Encode(Nest(TCA_OPTIONS, [Nest(TCA_MATCHALL_ACT, [Nest(1, Action(ifb))])]))
            == fixed + EncodeAll(Tree(ifb))
  {
    hide Action, Encode, EncodeAll, Ascii;
    EncodeTwo(KindAttr("matchall"), Nest(TCA_OPTIONS, [Actions(ifb)]));
  }

  // ----- The request, byte by byte

  /** action 4 (stolen), eaction 1 (redirect) and the interface; everything else zero. */
  predicate RedirectsTo(b: seq<byte>, ifb: nat) {
    && |b| == 28
    && Le32At(b, 0) == 0 && Le32At(b, 4) == 0 && Le32At(b, 8) == 4 && Le32At(b, 12) == 0 && Le32At(b, 16) == 0
    && Le32At(b, 20) == 1 && Le32At(b, 24) == ifb
  }

  /** Seven words in a row. */
  lemma SevenWords(w: seq<seq<byte>>)
    requires |w| == 7 && forall i :: 0 <= i < 7 ==> |w[i]| == 4
    ensures var b := w[0] + w[1] + w[2] + w[3] + w[4] + w[5] + w[6];
            && |b| == 28 && b[0..4] == w[0] && b[4..8] == w[1] && b[8..12] == w[2] && b[12..16] == w[3]
            && b[16..20] == w[4] && b[20..24] == w[5] && b[24..28] == w[6]
  {
  }

  lemma MirredRead(ifb: nat)
    requires ifb < 0x1_0000_0000
    ensures RedirectsTo(Mirred(ifb), ifb)
  {
    SevenWords([Le32(0), Le32(0), Le32(4), Le32(0), Le32(0), Le32(1), Le32(ifb)]);
    var b := Mirred(ifb);
    hide Le32, Le32At;
    Le32Read(b, 0, 0);
    Le32Read(b, 4, 0);
    Le32Read(b, 8, 4);
    Le32Read(b, 12, 0);
    Le32Read(b, 16, 0);
    Le32Read(b, 20, 1);
    Le32Read(b, 24, ifb);
  }

  /** Type 44, flags 0x605, sequence and port 0; the interface, handle 0, parent 0xFFFFFFF2, and
      the priority above the protocol. */
  predicate AsksFor(b: seq<byte>, iface: nat, prio: nat) {
    && |b| == 36
    && Le16At(b, 4) == 44 && Le16At(b, 6) == 0x605 && Le32At(b, 8) == 0 && Le32At(b, 12) == 0 && Le32At(b, 16) == 0
    && Le32At(b, 20) == iface && Le32At(b, 24) == 0 && Le32At(b, 28) == 0xFFFFFFF2
    && Le32At(b, 32) == prio * 65536 + 0x0300
  }

  lemma FixedParts(iface: nat, prio: nat, front: seq<byte>, tail: seq<byte>)
    requires prio < 65536 && front == Le32(0) + (Le16(44) + Le16(0x605))
    requires tail == Le32(0) + Le32(0) + Le32(0) + Le32(iface) + Le32(0) + Le32(0xFFFFFFF2) + Le32(prio * 65536 + 0x0300)
    ensures Fixed(iface, prio) == front + tail
  {
    hide Le32, Le16;
    RegroupFixed(Le32(0), Le16(44), Le16(0x605), Le32(0), Le32(0), Le32(0), Le32(iface), Le32(0), Le32(0xFFFFFFF2),
                 Le32(prio * 65536 + 0x0300));
  }

  lemma RegroupFixed(a: seq<byte>, b: seq<byte>, c: seq<byte>, d: seq<byte>, e: seq<byte>, f: seq<byte>, g: seq<byte>, h: seq<byte>,
                     i: seq<byte>, j: seq<byte>)
    ensures a + b + c + d + e + f + g + h + i + j == a + (b + c) + (d + e + f + g + h + i + j)
  {
  }

  lemma FixedRead(iface: nat, prio: nat)
    requires iface < 0x1_0000_0000 && prio < 65536
    ensures AsksFor(Fixed(iface, prio), iface, prio)
  {
    hide Le32, Le16, Le32At, AsksFor, Fixed;
    var info := prio * 65536 + 0x0300;
    var tail := Le32(0) + Le32(0) + Le32(0) + Le32(iface) + Le32(0) + Le32(0xFFFFFFF2) + Le32(info);
    var front := Le32(0) + (Le16(44) + Le16(0x605));
    FixedParts(iface, prio, front, tail);
    SevenWords([Le32(0), Le32(0), Le32(0), Le32(iface), Le32(0), Le32(0xFFFFFFF2), Le32(info)]);
    FrontRead(front, tail, iface, prio);
  }

  lemma FrontRead(front: seq<byte>, tail: seq<byte>, iface: nat, prio: nat)
    requires iface < 0x1_0000_0000 && prio < 65536 && front == Le32(0) + (Le16(44) + Le16(0x605)) && |tail| == 28
    requires tail[0..4] == tail[4..8] == tail[8..12] == tail[16..20] == Le32(0) && tail[12..16] == Le32(iface)
    requires tail[20..24] == Le32(0xFFFFFFF2) && tail[24..28] == Le32(prio * 65536 + 0x0300)
    ensures AsksFor(front + tail, iface, prio)
  {
    var b := front + tail;
    assert Le16(44) == [44, 0] && Le16(0x605) == [5, 6];
    hide Le32, Le32At, Le16;
    assert b[4] == Le16(44)[0] && b[5] == Le16(44)[1] && b[6] == Le16(0x605)[0] && b[7] == Le16(0x605)[1];
    WordBehind(front, tail, 0, 0);
    WordBehind(front, tail, 4, 0);
    WordBehind(front, tail, 8, 0);
    WordBehind(front, tail, 12, iface);
    WordBehind(front, tail, 16, 0);
    WordBehind(front, tail, 20, 0xFFFFFFF2);
    WordBehind(front, tail, 24, prio * 65536 + 0x0300);
  }

  lemma WordBehind(front: seq<byte>, tail: seq<byte>, k: nat, v: nat)
    requires |front| == 8 && k + 4 <= |tail| && v < 0x1_0000_0000 && tail[k..k + 4] == Le32(v)
    ensures Le32At(front + tail, k + 8) == v
  {
    hide Le32, Le32At;
    assert (front + tail)[k + 8..k + 12] == tail[k..k + 4];
    Le32Read(front + tail, k + 8, v);
  }

  /** The attributes in front of the mirred parameters: "matchall", the four nests with their
      lengths, "mirred" between them. */
  const FRONT: seq<byte> :=
    [13, 0, 1, 0, 109, 97, 116, 99, 104, 97, 108, 108, 0, 0, 0, 0]
    + [60, 0, 2, 0] + [56, 0, 2, 0] + [52, 0, 1, 0]
    + [11, 0, 1, 0, 109, 105, 114, 114, 101, 100, 0, 0]
    + [36, 0, 2, 128] + [32, 0, 2, 0]

  lemma KindBytes()
    ensures LeafBytes(TCA_KIND, Ascii("matchall") + [0]) == [13, 0, 1, 0, 109, 97, 116, 99, 104, 97, 108, 108, 0, 0, 0, 0]
    ensures LeafBytes(TCA_ACT_KIND, Ascii("mirred") + [0]) == [11, 0, 1, 0, 109, 105, 114, 114, 101, 100, 0, 0]
  {
    MatchallBytes();
    hide LeafBytes;
    MirredBytes();
  }

  lemma MatchallBytes()
    ensures LeafBytes(TCA_KIND, Ascii("matchall") + [0]) == [13, 0, 1, 0, 109, 97, 116, 99, 104, 97, 108, 108, 0, 0, 0, 0]
  {
    assert Ascii("matchall") == [109, 97, 116, 99, 104, 97, 108, 108];
    hide Ascii;
    assert Zeros(3) == [0, 0, 0];
  }

  lemma MirredBytes()
    ensures LeafBytes(TCA_ACT_KIND, Ascii("mirred") + [0]) == [11, 0, 1, 0, 109, 105, 114, 114, 101, 100, 0, 0]
  {
    assert Ascii("mirred") == [109, 105, 114, 114, 101, 100];
    hide Ascii;
    assert Zeros(1) == [0];
  }

  lemma ParmsBytes(ifb: nat)
    ensures Encode(Leaf(TCA_MIRRED_PARMS, Mirred(ifb))) == [32, 0, 2, 0] + Mirred(ifb)
  {
    hide Mirred;
    assert Zeros(Align(32) - 32) == [];
  }

  lemma NestBytes(kind: nat, child: Attr, inner: seq<byte>)
    requires Encode(child) == inner
    ensures Encode(Nest(kind, [child])) == Header(4 + |inner|, kind) + inner
  {
    EncodeOne(child);
  }

  lemma TreeIsLiteral(ifb: nat)
    ensures EncodeAll(Tree(ifb)) == FRONT + Mirred(ifb)
  {
    KindBytes();
    ParmsBytes(ifb);
    ActionSizes(ifb);
    hide Mirred, Ascii, LeafBytes, Action, EncodeAll, Encode, Zeros, Align, Tree;
    NestBytes(TCA_ACT_OPTIONS + NLA_F_NESTED, Leaf(TCA_MIRRED_PARMS, Mirred(ifb)), [32, 0, 2, 0] + Mirred(ifb));
    OuterBytes(ifb, EncodeAll(Action(ifb)));
    FrontBytes(Mirred(ifb));
  }

  lemma FrontBytes(parms: seq<byte>)
    ensures [13, 0, 1, 0, 109, 97, 116, 99, 104, 97, 108, 108, 0, 0, 0, 0] + [60, 0, 2, 0] + [56, 0, 2, 0] + [52, 0, 1, 0]
            + ([11, 0, 1, 0, 109, 105, 114, 114, 101, 100, 0, 0] + ([36, 0, 2, 128] + ([32, 0, 2, 0] + parms)))
            == FRONT + parms
  {
  }

  lemma FirstBytes(ifb: nat, action: seq<byte>)
    requires action == EncodeAll(Action(ifb)) && |action| == 48
    ensures Encode(Nest(1, Action(ifb))) == [52, 0, 1, 0] + action
  {
    hide EncodeAll, Action;
  }

  lemma OuterBytes(ifb: nat, action: seq<byte>)
    requires action == EncodeAll(Action(ifb)) && |action| == 48
    requires LeafBytes(TCA_KIND, Ascii("matchall") + [0]) == [13, 0, 1, 0, 109, 97, 116, 99, 104, 97, 108, 108, 0, 0, 0, 0]
    ensures EncodeAll(Tree(ifb)) == [13, 0, 1, 0, 109, 97, 116, 99, 104, 97, 108, 108, 0, 0, 0, 0]
                                    + [60, 0, 2, 0] + [56, 0, 2, 0] + [52, 0, 1, 0] + action
  {
    hide EncodeAll, Action, Ascii, LeafBytes;
    var first := Nest(1, Action(ifb));
    FirstBytes(ifb, action);
    assert Encode(KindAttr("matchall")) == LeafBytes(TCA_KIND, Ascii("matchall") + [0]);
    hide Encode;
    NestBytes(TCA_MATCHALL_ACT, first, [52, 0, 1, 0] + action);
    NestBytes(TCA_OPTIONS, Actions(ifb), [56, 0, 2, 0] + ([52, 0, 1, 0] + action));
    EncodeTwo(KindAttr("matchall"), Nest(TCA_OPTIONS, [Actions(ifb)]));
  }

  /** What the request asks the kernel for, in literal bytes. */
  predicate Request(b: seq<byte>, iface: nat, ifb: nat, prio: nat) {
    |b| == 112 && AsksFor(b[..36], iface, prio) && b[36..84] == FRONT && RedirectsTo(b[84..112], ifb)
  }

  /** Main result: on interface `iface` at priority `prio`, redirect to interface `ifb`. */
  lemma RequestIsLiteral(iface: nat, ifb: nat, prio: nat)
    requires iface < 0x1_0000_0000 && ifb < 0x1_0000_0000 && prio < 65536
    ensures Request(Fixed(iface, prio) + EncodeAll(Tree(ifb)), iface, ifb, prio)
  {
    TreeIsLiteral(ifb);
    FixedRead(iface, prio);
    MirredRead(ifb);
    assert |FRONT| == 48;
    hide AsksFor, RedirectsTo, Fixed, Mirred, Tree, EncodeAll;
    var b := Fixed(iface, prio) + (FRONT + Mirred(ifb));
    assert b[..36] == Fixed(iface, prio) && b[36..84] == FRONT && b[84..112] == Mirred(ifb);
  }

  /** The message part of install_matchall_filter: it always fits, and its attributes are the tree. */
  method BuildMatchall(iface: nat, ifb: nat, prio: nat) returns (m: NlMessage, ok: bool)
    ensures ok && m.Valid() && m.len == 112 && m.buf[..m.len] == Fixed(iface, prio) + EncodeAll(Tree(ifb))
    ensures iface < 0x1_0000_0000 && ifb < 0x1_0000_0000 && prio < 65536 ==> Request(m.buf[..m.len], iface, ifb, prio)
  {
    hide Header, EncodeAll, Encode, Zeros, Mirred, LeafBytes, Action, Ascii, Align, Le16, Le32, Fixed, Tree, KindAttr, Request;
    m := new NlMessage(Fixed(iface, prio), REQ_BUF_SIZE);
    ActionSizes(ifb);
    TreeBytes(Fixed(iface, prio), ifb);
    ghost var base := Fixed(iface, prio) + Encode(KindAttr("matchall"));
    var options, actions, first := OpenNests(m);
    ok := AppendMirredAction(m, ifb);
    CloseNests(m, options, actions, first, base, Action(ifb));
    if iface < 0x1_0000_0000 && ifb < 0x1_0000_0000 && prio < 65536 { RequestIsLiteral(iface, ifb, prio); }
  }

  lemma OneConforms(a: Attr, schema: Schema)
    requires Conforms(a, schema)
    ensures AllConform([a], schema)
  {
  }

  lemma TwoConform(a: Attr, b: Attr, schema: Schema)
    requires Conforms(a, schema) && Conforms(b, schema)
    ensures AllConform([a, b], schema)
  {
    OneConforms(b, schema);
    assert [a, b][1..] == [b];
  }

  lemma TreeConforms(ifb: nat)
    ensures AllConform(Tree(ifb), Levels())
  {
    hide AllConform, Mirred, Ascii;
    var parms := Leaf(TCA_MIRRED_PARMS, Mirred(ifb));
    var inAction := Schema(map[TCA_ACT_OPTIONS + NLA_F_NESTED := Schema(map[])]);
    OneConforms(parms, Schema(map[]));
    TwoConform(KindAttr("mirred"), Nest(TCA_ACT_OPTIONS + NLA_F_NESTED, [parms]), inAction);
    OneConforms(Nest(1, Action(ifb)), Schema(map[1 := inAction]));
    OneConforms(Actions(ifb), Schema(map[TCA_MATCHALL_ACT := Schema(map[1 := inAction])]));
    TwoConform(KindAttr("matchall"), Nest(TCA_OPTIONS, [Actions(ifb)]), Levels());
  }

  /** The kernel's walk over the message finds the kind, and inside the options the one action,
      whose parameters redirect to the interface. */
  lemma MatchallParses(ifb: nat)
    ensures exists parms ::
              && Walk(EncodeAll(Tree(ifb)), Levels()) == Some(
                   [Leaf(1, Ascii("matchall") + [0]),
                    Nest(2, [Nest(2, [Nest(1, [Leaf(1, Ascii("mirred") + [0]), Nest(0x8002, [Leaf(2, parms)])])])])])
              && (ifb < 0x1_0000_0000 ==> RedirectsTo(parms, ifb))
  {
    TreeConforms(ifb);
    TreeSize(ifb);
    WalkInvertsEncode(Tree(ifb), Levels());
    if ifb < 0x1_0000_0000 { MirredRead(ifb); }
    hide Walk, EncodeAll, Mirred, RedirectsTo;
    assert Walk(EncodeAll(Tree(ifb)), Levels()) == Some(
             [Leaf(1, Ascii("matchall") + [0]),
              Nest(2, [Nest(2, [Nest(1, [Leaf(1, Ascii("mirred") + [0]), Nest(0x8002, [Leaf(2, Mirred(ifb))])])])])]);
  }
}

/**
 A well-formed DNS response as the capture daemon reports it.
 */
module DpidDnsResponses {
  import opened Bytes
  import opened DnsNames
  import opened DpidDns
  import opened DecoderAgreement
  import opened MdnsResponses
  import C = MdnsResolve

  /** The records of a message, each from its own wire form, the first at `off`. */
  function MeantRRs(answers: seq<Answer>, off: nat): seq<RR>
    requires AllWellFormed(answers)
  {
    if answers == [] then []
    else
      var a := answers[0];
      var end := off + |AnswerWire(a)|;
      [RR(a.rtype, Be32(a.fixed, 2), end - |a.rdata|, end)] + MeantRRs(answers[1..], end)
  }

  /** What the rdata at `off` names, in full or through compression pointers; nothing when it
      names nothing within 8 pointers and 256 parts. */
  predicate Names(b: seq<byte>, off: nat, host: Option<seq<seq<byte>>>) {
    var n := NameAt(b, off, 8);
    match host
    case None => n.None? || |n.value.labels| + n.value.jumps >= 256
    case Some(labels) => n.Some? && n.value.labels == labels && |labels| + n.value.jumps < 256
  }

  /** What one record should add; `host` is the name a CNAME carries, if it can be read. */
  function Reported(a: Answer, host: Option<seq<seq<byte>>>): seq<DnsAnswer> {
    if a.rtype == 1 && |a.rdata| == 4 then [A(a.rdata)]
    else if a.rtype == 28 && |a.rdata| == 16 then [AAAA(a.rdata)]
    else if a.rtype == 5 && host.Some? then [CName(Lower(Join(host.value)))]
    else []
  }

  function AllReported(answers: seq<Answer>, hosts: seq<Option<seq<seq<byte>>>>): seq<DnsAnswer>
    requires |hosts| == |answers|
  {
    if answers == [] then [] else Reported(answers[0], hosts[0]) + AllReported(answers[1..], hosts[1..])
  }

  /** `hosts` are the names of the CNAMEs of a message whose first answer stands at `off`. */
  ghost predicate CnamesAre(b: seq<byte>, answers: seq<Answer>, off: nat, hosts: seq<Option<seq<seq<byte>>>>)
    requires AllWellFormed(answers)
  {
    && |hosts| == |answers|
    && forall i :: 0 <= i < |answers| && answers[i].rtype == 5 ==> Names(b, RdataStart(answers, off, i), hosts[i])
  }

  /** The Go decoder reads what the C decoder reads through at most one pointer. */
  lemma GoReadsToo(b: seq<byte>, off: nat)
    requires C.Decode(b, off, C.MAX_NAME_LEN).Some? && NameAt(b, off, C.MAX_NAME_JUMPS).value.jumps <= 1
    ensures var d := C.Decode(b, off, C.MAX_NAME_LEN).value;
            ReadName(b, off) == Some(GoName(d.text, d.next))
  {
    COnlyExact(b, off);
    SameNameAndOffset(b, off, C.MAX_NAME_LEN);
  }

  lemma RecordReadByGo(pre: seq<byte>, a: Answer, post: seq<byte>)
    requires WellFormed(a) && Leads(pre + AnswerWire(a) + post, a.owner)
    ensures var end := |pre| + |AnswerWire(a)|;
            && end >= |a.rdata|
            && RecordAt(pre + AnswerWire(a) + post, |pre|) == Some(RR(a.rtype, Be32(a.fixed, 2), end - |a.rdata|, end))
  {
    hide Join, C.Decode, ReadName, NameAt, OwnerWire, OwnerLabels, Leads, ValidOwner;
    var fields := PutBe16(a.rtype) + a.fixed + PutBe16(|a.rdata|);
    var pkt := pre + AnswerWire(a) + post;
    assert pkt[|pre|..|pre + OwnerWire(a.owner)|] == OwnerWire(a.owner);
    OwnerRead(pkt, |pre|, a.owner);
    GoReadsToo(pkt, |pre|);
    FieldsAt(pre + OwnerWire(a.owner), a, a.rdata + post);
    assert pkt == (pre + OwnerWire(a.owner)) + fields + (a.rdata + post);
  }

  lemma FieldsAt(pre: seq<byte>, a: Answer, post: seq<byte>)
    requires a.rtype < 65536 && |a.fixed| == 6 && |a.rdata| < 65536
    ensures var b := pre + (PutBe16(a.rtype) + a.fixed + PutBe16(|a.rdata|)) + post;
            && Be16(b, |pre|) == a.rtype && Be16(b, |pre| + 8) == |a.rdata|
            && Be32(b, |pre| + 4) == Be32(a.fixed, 2)
  {
    var fields := PutBe16(a.rtype) + a.fixed + PutBe16(|a.rdata|);
    var b := pre + fields + post;
    assert forall i :: 0 <= i < 10 ==> b[|pre| + i] == fields[i];
    assert forall i :: 2 <= i < 8 ==> fields[i] == a.fixed[i - 2];
    assert b[|pre| + 4] == a.fixed[2] && b[|pre| + 5] == a.fixed[3] && b[|pre| + 6] == a.fixed[4] && b[|pre| + 7] == a.fixed[5];
    assert fields[8] == |a.rdata| / 256 && fields[9] == |a.rdata| % 256;
    assert b[|pre|] == fields[0] && b[|pre| + 1] == fields[1] && b[|pre| + 8] == fields[8] && b[|pre| + 9] == fields[9];
  }

  lemma {:induction false} RecordsReadByGo(pre: seq<byte>, answers: seq<Answer>, post: seq<byte>)
    requires AllWellFormed(answers) && AllLead(pre + AnswersWire(answers) + post, answers)
    ensures Records(pre + AnswersWire(answers) + post, |pre|, |answers|) == MeantRRs(answers, |pre|)
    decreases |answers|
  {
    hide RecordAt, AnswerWire, Leads, ValidOwner;
    if answers != [] {
      var a, rest := answers[0], answers[1..];
      var pkt := pre + AnswersWire(answers) + post;
      Regroup(pre, AnswerWire(a), AnswersWire(rest), post);
      assert Leads(pkt, a.owner) && forall i :: 0 <= i < |rest| ==> rest[i] == answers[i + 1];
      RecordReadByGo(pre, a, AnswersWire(rest) + post);
      RecordsReadByGo(pre + AnswerWire(a), rest, post);
    }
  }

  lemma AnswerReported(pre: seq<byte>, a: Answer, post: seq<byte>, host: Option<seq<seq<byte>>>, off: nat)
    requires WellFormed(a) && off == |pre| + |AnswerWire(a)|
    requires a.rtype == 5 ==> Names(pre + AnswerWire(a) + post, off - |a.rdata|, host)
    ensures off >= |a.rdata|
    ensures AnswerOf(pre + AnswerWire(a) + post, RR(a.rtype, Be32(a.fixed, 2), off - |a.rdata|, off)) == Reported(a, host)
  {
    hide Wire, Join, NameAt, PutBe16;
    var b := pre + AnswerWire(a) + post;
    var front := pre + (OwnerWire(a.owner) + (PutBe16(a.rtype) + a.fixed + PutBe16(|a.rdata|)));
    assert b == front + a.rdata + post;
    assert off - |a.rdata| == |front|;
    assert b[|front|..off] == a.rdata;
  }

  lemma {:induction false} AnswersReported(pre: seq<byte>, answers: seq<Answer>, post: seq<byte>, hosts: seq<Option<seq<seq<byte>>>>)
    requires AllWellFormed(answers) && CnamesAre(pre + AnswersWire(answers) + post, answers, |pre|, hosts)
    ensures AnswersOf(pre + AnswersWire(answers) + post, MeantRRs(answers, |pre|)) == AllReported(answers, hosts)
    decreases |answers|
  {
    hide Wire, Join, AnswerOf, Reported, AnswerWire, Names;
    if answers != [] {
      var a, rest := answers[0], answers[1..];
      assert WellFormed(a);
      var b := pre + AnswersWire(answers) + post;
      var off := |pre| + |AnswerWire(a)|;
      Regroup(pre, AnswerWire(a), AnswersWire(rest), post);
      assert a.rtype == 5 ==> Names(b, RdataStart(answers, |pre|, 0), hosts[0]);
      AnswerReported(pre, a, AnswersWire(rest) + post, hosts[0], off);
      LaterCnames(b, answers, |pre|, hosts);
      AnswersReported(pre + AnswerWire(a), rest, post, hosts[1..]);
      var rr := RR(a.rtype, Be32(a.fixed, 2), off - |a.rdata|, off);
      assert ([rr] + MeantRRs(rest, off))[1..] == MeantRRs(rest, off);
    }
  }

  lemma LaterCnames(b: seq<byte>, answers: seq<Answer>, off: nat, hosts: seq<Option<seq<seq<byte>>>>)
    requires AllWellFormed(answers) && answers != [] && CnamesAre(b, answers, off, hosts)
    ensures CnamesAre(b, answers[1..], off + |AnswerWire(answers[0])|, hosts[1..])
  {
    hide AnswerWire, Names, ValidOwner;
    var rest, end := answers[1..], off + |AnswerWire(answers[0])|;
    forall i | 0 <= i < |rest| && rest[i].rtype == 5 ensures Names(b, RdataStart(rest, end, i), hosts[1..][i]) {
      assert rest[i] == answers[i + 1] && Names(b, RdataStart(answers, off, i + 1), hosts[i + 1]);
    }
  }

  /** A CNAME written in full. */
  lemma PlainCname(m: Message, i: nat, host: seq<seq<byte>>)
    requires m.Valid() && i < |m.answers| && ValidLabels(host) && |host| < 256 && m.answers[i].rdata == Wire(host)
    ensures Names(m.Bytes(), RdataStart(m.answers, |m.Pre()|, i), Some(host))
  {
    hide Wire, NameAt;
    var front, back := RdataSplit(m.Pre(), m.answers, m.more, i);
    WireIsRead(front, host, back, GO_JUMPS);
  }

  /** A CNAME of labels and a pointer to any name of the message. */
  lemma CompressedCname(m: Message, i: nat, labels: seq<seq<byte>>, t: nat, target: seq<seq<byte>>)
    requires m.Valid() && i < |m.answers| && ValidLabels(labels) && ValidLabels(target) && t < 16384
    requires m.answers[i].rdata == Flat(labels) + [192 + t / 256, t % 256] && StandsAt(m.Bytes(), t, Wire(target))
    requires |labels + target| < 255
    ensures Names(m.Bytes(), RdataStart(m.answers, |m.Pre()|, i), Some(labels + target))
  {
    hide Wire, NameAt, NextOff, Flat, AnswersWire;
    var front, back := RdataSplit(m.Pre(), m.answers, m.more, i);
    PointerMeansOffset(m.Bytes(), t, target, |front|, labels, GO_JUMPS);
  }

  /** The report of a response with one question. */
  function ReportOf(m: Message, hosts: seq<Option<seq<seq<byte>>>>): Option<DnsInfo>
    requires m.Valid() && |hosts| == |m.answers|
  {
    if |m.questions| != 1 then None
    else
      var q := m.questions[0];
      Some(DnsInfo(true, Lower(Join(q.name)), Be16(q.tail, 0), AllReported(m.answers, hosts),
                   FoldTtl(0, MeantRRs(m.answers, |m.Pre()|))))
  }

  /**
   Main result: a well-formed response with one question is reported with its lower-cased
   name, its type, and exactly its A, AAAA and readable CNAME answers, in order, compressed or
   not; with any other number of questions nothing is reported.
   */
  lemma ResponseReported(m: Message, hosts: seq<Option<seq<seq<byte>>>>)
    requires m.Valid() && CnamesAre(m.Bytes(), m.answers, |m.Pre()|, hosts)
    ensures DnsOf(m.Bytes()) == ReportOf(m, hosts)
  {
    hide AnswersWire, Wire, Join, C.Fits, Records, ReadName, MeantRRs, CnamesAre, AllReported, AllLead;
    HeadRead(m);
    if |m.questions| == 1 {
      var q := m.questions[0];
      assert ValidQuestion(q);
      QuestionReadByGo(m.Head(), q, AnswersWire(m.answers) + m.more);
      assert QuestionsWire(m.questions[1..]) == [] && m.Pre() == m.Head() + (Wire(q.name) + q.tail);
      assert m.Bytes() == m.Head() + Wire(q.name) + q.tail + (AnswersWire(m.answers) + m.more);
      RecordsReadByGo(m.Pre(), m.answers, m.more);
      AnswersReported(m.Pre(), m.answers, m.more, hosts);
    }
  }

  lemma QuestionReadByGo(head: seq<byte>, q: Question, rest: seq<byte>)
    requires ValidQuestion(q)
    ensures var b := head + Wire(q.name) + q.tail + rest;
            var end := |head| + |Wire(q.name)|;
            ReadName(b, |head|) == Some(GoName(Join(q.name), end)) && end + 4 <= |b| && Be16(b, end) == Be16(q.tail, 0)
  {
    hide Wire, Join, C.Fits, ReadName;
    var b := head + Wire(q.name) + q.tail + rest;
    var end := |head| + |Wire(q.name)|;
    JoinShort(q.name);
    GoReadsWire(head, q.name, q.tail + rest);
    assert b == head + Wire(q.name) + (q.tail + rest);
    assert b[end] == q.tail[0] && b[end + 1] == q.tail[1];
  }

  /** A query: its question is reported, and nothing else is read, whatever its counts say. */
  lemma QueryReported(head: seq<byte>, q: Question, rest: seq<byte>)
    requires |head| == 12 && head[2] < 128 && head[4] == 0 && head[5] == 1 && ValidQuestion(q)
    ensures DnsOf(head + Wire(q.name) + q.tail + rest)
         == Some(DnsInfo(false, Lower(Join(q.name)), Be16(q.tail, 0), [], 0))
  {
    hide Wire, Join, ReadName;
    QuestionReadByGo(head, q, rest);
  }

  // ----- The TTL of a response

  function Ttl(a: Answer): nat
    requires |a.fixed| == 6
  {
    Be32(a.fixed, 2)
  }

  /** `t` is the smallest TTL of the answers. */
  ghost predicate IsSmallestTtl(t: nat, answers: seq<Answer>)
    requires AllWellFormed(answers)
  {
    && (exists i :: 0 <= i < |answers| && Ttl(answers[i]) == t)
    && forall i :: 0 <= i < |answers| ==> t <= Ttl(answers[i])
  }

  lemma {:induction false} MeantTtls(answers: seq<Answer>, off: nat)
    requires AllWellFormed(answers)
    ensures var rrs := MeantRRs(answers, off);
            |rrs| == |answers| && forall i :: 0 <= i < |rrs| ==> rrs[i].ttl == Ttl(answers[i])
  {
    hide AnswerWire, ValidOwner;
    if answers != [] { MeantTtls(answers[1..], off + |AnswerWire(answers[0])|); }
  }

  /** Main result: a response is reported with the smallest TTL of its answers if and only if no
      answer has TTL 0 or the last one has. */
  lemma ReportedTtlExact(m: Message)
    requires m.Valid() && |m.questions| == 1 && m.answers != []
    ensures DnsOf(m.Bytes()).Some?
    ensures IsSmallestTtl(DnsOf(m.Bytes()).value.ttl, m.answers)
            <==> (forall i :: 0 <= i < |m.answers| ==> Ttl(m.answers[i]) != 0) || Ttl(m.answers[|m.answers| - 1]) == 0
  {
    hide MeantRRs, FoldTtl, Ttl, DnsOf, NameAt, IsMinTtl, SomeZero, IsSmallestTtl, CnamesAre, AllReported, AllLead, ValidOwner;
    var rrs := MeantRRs(m.answers, |m.Pre()|);
    MeantTtls(m.answers, |m.Pre()|);
    var hosts := HostsOf(m.Bytes(), m.answers, |m.Pre()|);
    ResponseReported(m, hosts);
    TtlExact(rrs);
    SameTtls(rrs, m.answers, FoldTtl(0, rrs));
  }

  lemma SameTtls(rrs: seq<RR>, answers: seq<Answer>, t: nat)
    requires AllWellFormed(answers) && |rrs| == |answers| && forall i :: 0 <= i < |rrs| ==> rrs[i].ttl == Ttl(answers[i])
    ensures IsMinTtl(t, rrs) <==> IsSmallestTtl(t, answers)
    ensures SomeZero(rrs) <==> exists i :: 0 <= i < |answers| && Ttl(answers[i]) == 0
  {
    hide Ttl, ValidOwner;
    if i :| 0 <= i < |answers| && Ttl(answers[i]) == t { assert rrs[i].ttl == t; }
    if i :| 0 <= i < |answers| && Ttl(answers[i]) == 0 { assert rrs[i].ttl == 0; }
  }

  /** The names of all rdata, whatever their type. */
  lemma {:induction false} HostsOf(b: seq<byte>, answers: seq<Answer>, off: nat) returns (hosts: seq<Option<seq<seq<byte>>>>)
    requires AllWellFormed(answers)
    ensures CnamesAre(b, answers, off, hosts)
    decreases |answers|
  {
    hide AnswerWire, NameAt, ValidOwner;
    if answers == [] {
      hosts := [];
    } else {
      var rest := HostsOf(b, answers[1..], off + |AnswerWire(answers[0])|);
      var n := NameAt(b, RdataStart(answers, off, 0), GO_JUMPS);
      var first := if n.Some? && |n.value.labels| + n.value.jumps < GO_TURNS then Some(n.value.labels) else None;
      hosts := [first] + rest;
      forall i | 0 <= i < |answers| ensures answers[i].rtype == 5 ==> Names(b, RdataStart(answers, off, i), hosts[i]) {
        if i > 0 { assert answers[1..][i - 1] == answers[i] && hosts[i] == rest[i - 1]; }
      }
    }
  }

  /** Two address answers with TTL 0 and 300 are reported with TTL 300. */
  lemma TtlNotMinimal(addr: seq<byte>, other: seq<byte>)
    requires |addr| == 4 && |other| == 4
    ensures var x := Plain([[120]]);
            var m := Message([0, 0], [128, 0], [0, 0, 0, 0], [Question([[120]], [0, 1, 0, 1])],
                             [Answer(x, 1, [0, 1, 0, 0, 0, 0], addr), Answer(x, 1, [0, 1, 0, 0, 1, 44], other)], []);
            && m.Valid() && DnsOf(m.Bytes()).Some? && DnsOf(m.Bytes()).value.ttl == 300
            && Ttl(m.answers[0]) == 0 && !IsSmallestTtl(300, m.answers)
  {
    var x := Plain([[120]]);
    var answers := [Answer(x, 1, [0, 1, 0, 0, 0, 0], addr), Answer(x, 1, [0, 1, 0, 0, 1, 44], other)];
    var m := Message([0, 0], [128, 0], [0, 0, 0, 0], [Question([[120]], [0, 1, 0, 1])], answers, []);
    assert Join([[120 as byte]]) == [120];
    assert Ttl(answers[0]) == 0 && Ttl(answers[1]) == 300;
    assert m.Valid();
    hide Join, NameAt, AnswerWire, Wire, DnsOf, C.Fits;
    var hosts := HostsOf(m.Bytes(), m.answers, |m.Pre()|);
    ResponseReported(m, hosts);
    var rrs := MeantRRs(answers, |m.Pre()|);
    MeantTtls(answers, |m.Pre()|);
    TwoTtls(rrs);
  }

  lemma TwoTtls(rrs: seq<RR>)
    requires |rrs| == 2
    ensures FoldTtl(0, rrs) == if rrs[0].ttl == 0 || rrs[1].ttl < rrs[0].ttl then rrs[1].ttl else rrs[0].ttl
  {
    var t := rrs[0].ttl;
    assert rrs[1..][0] == rrs[1] && rrs[1..][1..] == [];
    assert FoldTtl(0, rrs) == FoldTtl(t, rrs[1..]);
    assert FoldTtl(t, rrs[1..]) == FoldTtl(if t == 0 || rrs[1].ttl < t then rrs[1].ttl else t, []);
  }

  lemma JoinShort(labels: seq<seq<byte>>)
    requires ValidLabels(labels) && C.Fits(labels, C.MAX_NAME_LEN)
    ensures |labels| < GO_TURNS
  {
    JoinNonEmpty(labels);
  }
}

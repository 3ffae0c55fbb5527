/**
 What the reverse resolver answers for responses built from their parts, and for
 responses of any shape.
 */
module MdnsResponses {
  import opened Bytes
  import opened DnsNames
  import opened MdnsResolve

  // ----- Any response

  /**
   Main result, any packet: the answer h is given exactly when some record is wanted,
   none before it is, and its rdata decodes to h.
   */
  lemma {:induction false} FirstAnswerExact(pkt: seq<byte>, recs: seq<Rec>, expected: Option<seq<byte>>, outlen: nat, h: seq<byte>)
    ensures FirstAnswer(pkt, recs, expected, outlen) == Some(h) <==>
            exists i :: 0 <= i < |recs| && IsFirst(recs, i, expected)
                        && Decode(pkt, recs[i].rdata, outlen).Some?
                        && Decode(pkt, recs[i].rdata, outlen).value.text == h
  {
    hide Decode, CaseEqual;
    if recs != [] {
      if Wanted(recs[0], expected) {
        assert IsFirst(recs, 0, expected);
      } else {
        FirstAnswerExact(pkt, recs[1..], expected, outlen, h);
        forall i | 1 <= i < |recs| ensures IsFirst(recs, i, expected) == IsFirst(recs[1..], i - 1, expected) {
          FirstShift(recs, i, expected);
        }
        forall i | 0 <= i < |recs| - 1
          ensures IsFirst(recs[1..], i, expected) == IsFirst(recs, i + 1, expected) && recs[1..][i] == recs[i + 1]
        {
        }
      }
    }
  }

  ghost predicate IsFirst(recs: seq<Rec>, i: nat, expected: Option<seq<byte>>)
    requires i < |recs|
  {
    Wanted(recs[i], expected) && forall j :: 0 <= j < i ==> !Wanted(recs[j], expected)
  }

  lemma FirstShift(recs: seq<Rec>, i: nat, expected: Option<seq<byte>>)
    requires 1 <= i < |recs| && !Wanted(recs[0], expected)
    ensures IsFirst(recs, i, expected) == IsFirst(recs[1..], i - 1, expected)
  {
    var t := recs[1..];
    if IsFirst(t, i - 1, expected) {
      forall j | 0 <= j < i ensures !Wanted(recs[j], expected) {
        if j > 0 {
          assert recs[j] == t[j - 1];
        }
      }
    }
  }

  /** Only a packet that says it is a response and counts answers is answered from. */
  lemma OnlyResponses(pkt: seq<byte>, expected: Option<seq<byte>>, outlen: nat)
    requires Response(pkt, expected, outlen).Some?
    ensures |pkt| >= 12 && pkt[2] >= 128 && Be16(pkt, 6) > 0
  {
    hide Decode, CaseEqual;
  }

  // ----- Responses built from their parts

  /** An owner name in full, or labels and a pointer to offset `t`, where `target` stands. */
  datatype Owner = Plain(labels: seq<seq<byte>>) | Pointing(labels: seq<seq<byte>>, t: nat, target: seq<seq<byte>>)

  /** A resource record; `fixed` is its class and TTL. */
  datatype Answer = Answer(owner: Owner, rtype: nat, fixed: seq<byte>, rdata: seq<byte>)

  function OwnerLabels(o: Owner): seq<seq<byte>> {
    match o
    case Plain(labels) => labels
    case Pointing(labels, _, target) => labels + target
  }

  predicate ValidOwner(o: Owner) {
    ValidLabels(o.labels) && Fits(OwnerLabels(o), 256) && (o.Pointing? ==> o.t < 16384 && ValidLabels(o.target))
  }

  predicate WellFormed(a: Answer) {
    ValidOwner(a.owner) && a.rtype < 65536 && |a.fixed| == 6 && |a.rdata| < 65536
  }

  predicate AllWellFormed(answers: seq<Answer>) {
    forall i :: 0 <= i < |answers| ==> WellFormed(answers[i])
  }

  function OwnerWire(o: Owner): seq<byte>
    requires ValidOwner(o)
  {
    match o
    case Plain(labels) => Wire(labels)
    case Pointing(labels, t, _) => Flat(labels) + [192 + t / 256, t % 256]
  }

  /** The pointer of an owner leads to the name it means. */
  predicate Leads(b: seq<byte>, o: Owner)
    requires ValidOwner(o)
  {
    o.Pointing? ==> StandsAt(b, o.t, Wire(o.target))
  }

  function AnswerWire(a: Answer): seq<byte>
    requires WellFormed(a)
  {
    OwnerWire(a.owner) + (PutBe16(a.rtype) + a.fixed + PutBe16(|a.rdata|)) + a.rdata
  }

  function AnswersWire(answers: seq<Answer>): seq<byte>
    requires AllWellFormed(answers)
  {
    if answers == [] then [] else AnswerWire(answers[0]) + AnswersWire(answers[1..])
  }

  predicate AllLead(b: seq<byte>, answers: seq<Answer>)
    requires AllWellFormed(answers)
  {
    forall i :: 0 <= i < |answers| ==> Leads(b, answers[i].owner)
  }

  /** A question; `tail` is its type and class. */
  datatype Question = Question(name: seq<seq<byte>>, tail: seq<byte>)

  predicate ValidQuestion(q: Question) {
    ValidLabels(q.name) && Fits(q.name, 256) && |q.tail| == 4
  }

  predicate ValidQuestions(qs: seq<Question>) {
    forall i :: 0 <= i < |qs| ==> ValidQuestion(qs[i])
  }

  function QuestionsWire(qs: seq<Question>): seq<byte>
    requires ValidQuestions(qs)
  {
    if qs == [] then [] else Wire(qs[0].name) + qs[0].tail + QuestionsWire(qs[1..])
  }

  /** ID and flags, any number of questions, the answers, then whatever sections follow. */
  datatype Message = Message(id: seq<byte>, flags: seq<byte>, others: seq<byte>, questions: seq<Question>,
                             answers: seq<Answer>, more: seq<byte>)
  {
    predicate Shaped() {
      && |id| == 2 && |flags| == 2 && flags[0] >= 128 && |others| == 4
      && ValidQuestions(questions) && |questions| < 65536 && AllWellFormed(answers) && |answers| < 65536
    }

    function Head(): (r: seq<byte>)
      requires Shaped()
      ensures |r| == 12
    {
      id + flags + PutBe16(|questions|) + PutBe16(|answers|) + others
    }

    function Pre(): seq<byte>
      requires Shaped()
    {
      Head() + QuestionsWire(questions)
    }

    function Bytes(): seq<byte>
      requires Shaped()
    {
      Pre() + AnswersWire(answers) + more
    }

    /** Well-formed, and every compressed owner leads where it should. */
    predicate Valid() {
      Shaped() && AllLead(Bytes(), answers)
    }
  }

  /** The records the message means, the first at `off`. */
  function Meant(answers: seq<Answer>, off: nat): seq<Rec>
    requires AllWellFormed(answers)
  {
    if answers == [] then []
    else
      var a := answers[0];
      var end := off + |AnswerWire(a)|;
      [Rec(Join(OwnerLabels(a.owner)), a.rtype, end - |a.rdata|, end)] + Meant(answers[1..], end)
  }

  /** An owner, in full or through a pointer, is read as its labels. */
  lemma OwnerRead(pkt: seq<byte>, off: nat, o: Owner)
    requires ValidOwner(o) && StandsAt(pkt, off, OwnerWire(o)) && Leads(pkt, o)
    ensures Decode(pkt, off, MAX_NAME_LEN) == Some(Decoded(Join(OwnerLabels(o)), off + |OwnerWire(o)|))
    ensures NameAt(pkt, off, MAX_NAME_JUMPS).value.jumps <= 1
  {
    hide Wire, Flat, Join, Fits, NameAt, NextOff, StandsAt, ValidLabels;
    match o
    case Plain(labels) => WireAtIsRead(pkt, off, labels, MAX_NAME_JUMPS);
    case Pointing(labels, t, target) => PointerMeansOffset(pkt, t, target, off, labels, MAX_NAME_JUMPS);
  }

  lemma RecordRead(pre: seq<byte>, a: Answer, post: seq<byte>)
    requires WellFormed(a) && Leads(pre + AnswerWire(a) + post, a.owner)
    ensures var end := |pre| + |AnswerWire(a)|;
            RecordAt(pre + AnswerWire(a) + post, |pre|)
              == Some(Rec(Join(OwnerLabels(a.owner)), a.rtype, end - |a.rdata|, end))
  {
    hide Join, Decode, OwnerWire, Leads, ValidOwner, OwnerLabels;
    var fields := PutBe16(a.rtype) + a.fixed + PutBe16(|a.rdata|);
    var pkt := pre + AnswerWire(a) + post;
    var p := |pre| + |OwnerWire(a.owner)|;
    assert pkt[|pre|..p] == OwnerWire(a.owner);
    OwnerRead(pkt, |pre|, a.owner);
    assert pkt[p..p + 10] == fields;
    assert pkt[p] == fields[0] && pkt[p + 1] == fields[1] && pkt[p + 8] == fields[8] && pkt[p + 9] == fields[9];
    assert fields[8] == |a.rdata| / 256 && fields[9] == |a.rdata| % 256;
    assert Be16(pkt, p) == a.rtype && Be16(pkt, p + 8) == |a.rdata|;
  }

  lemma {:induction false} RecordsRead(pre: seq<byte>, answers: seq<Answer>, post: seq<byte>)
    requires AllWellFormed(answers) && AllLead(pre + AnswersWire(answers) + post, answers)
    ensures Records(pre + AnswersWire(answers) + post, |pre|, |answers|) == Meant(answers, |pre|)
    decreases |answers|
  {
    hide Join, RecordAt, AnswerWire, Meant, Leads, ValidOwner;
    if answers == [] {
      MeantNil(|pre|);
    } else {
      var a, rest := answers[0], answers[1..];
      var pkt := pre + AnswersWire(answers) + post;
      Regroup(pre, AnswerWire(a), AnswersWire(rest), post);
      assert Leads(pkt, a.owner) && forall i :: 0 <= i < |rest| ==> rest[i] == answers[i + 1];
      RecordRead(pre, a, AnswersWire(rest) + post);
      RecordsRead(pre + AnswerWire(a), rest, post);
      MeantCons(answers, |pre|);
    }
  }

  lemma MeantNil(off: nat)
    ensures Meant([], off) == []
  {
  }

  lemma MeantCons(answers: seq<Answer>, off: nat)
    requires AllWellFormed(answers) && answers != []
    ensures var a := answers[0];
            var end := off + |AnswerWire(a)|;
            end >= |a.rdata| && Meant(answers, off)
              == [Rec(Join(OwnerLabels(a.owner)), a.rtype, end - |a.rdata|, end)] + Meant(answers[1..], end)
  {
  }

  /** Any number of questions is skipped. */
  lemma {:induction false} QuestionsRead(pre: seq<byte>, qs: seq<Question>, post: seq<byte>)
    requires ValidQuestions(qs)
    ensures SkipQuestions(pre + QuestionsWire(qs) + post, |pre|, |qs|) == Some(|pre + QuestionsWire(qs)|)
    decreases |qs|
  {
    hide Wire, Join, Fits, NameAt, NextOff;
    if qs != [] {
      var q, rest := qs[0], QuestionsWire(qs[1..]);
      assert ValidQuestion(q);
      var w := Wire(q.name) + q.tail;
      Regroup(pre, w, rest, post);
      QuestionsRead(pre + w, qs[1..], post);
      WireIsRead(pre, q.name, q.tail + (rest + post), MAX_NAME_JUMPS);
      assert pre + w + (rest + post) == pre + Wire(q.name) + (q.tail + (rest + post));
    }
  }

  /** The first question stands at offset 12. */
  lemma QuestionStands(m: Message)
    requires m.Shaped() && m.questions != []
    ensures ValidQuestion(m.questions[0]) && StandsAt(m.Bytes(), 12, Wire(m.questions[0].name))
  {
    hide Wire, AnswersWire, ValidQuestion;
    assert ValidQuestion(m.questions[0]);
    var q, rest := m.questions[0], QuestionsWire(m.questions[1..]);
    var w := NameOf(q);
    assert m.Bytes() == m.Head() + w + (q.tail + rest + AnswersWire(m.answers) + m.more);
  }

  function NameOf(q: Question): seq<byte>
    requires ValidQuestion(q)
  {
    Wire(q.name)
  }

  /** The counts of the header. */
  lemma HeadRead(m: Message)
    requires m.Shaped()
    ensures var b := m.Bytes(); |b| >= 12 && b[2] >= 128 && Be16(b, 4) == |m.questions| && Be16(b, 6) == |m.answers|
  {
    hide QuestionsWire, AnswersWire;
    var b, head := m.Bytes(), m.Head();
    assert b[..12] == head;
    assert b[2] == head[2] && b[4] == head[4] && b[5] == head[5] && b[6] == head[6] && b[7] == head[7];
  }

  /** The answer section of a well-formed message is read exactly as meant. */
  lemma AnswerSectionRead(m: Message)
    requires m.Valid()
    ensures AnswerSection(m.Bytes()) == Meant(m.answers, |m.Pre()|)
  {
    hide Records, Meant, SkipQuestions, QuestionsWire, AnswersWire, ValidQuestions, AllWellFormed, AllLead;
    var tail := AnswersWire(m.answers) + m.more;
    HeadRead(m);
    QuestionsRead(m.Head(), m.questions, tail);
    assert m.Bytes() == m.Head() + QuestionsWire(m.questions) + tail;
    RecordsRead(m.Pre(), m.answers, m.more);
  }

  /** PTR, and an owner the name check accepts. */
  predicate WantedAnswer(a: Answer, expected: seq<byte>) {
    a.rtype == 12 && CaseEqual(Join(OwnerLabels(a.owner)), expected)
  }

  /** Where the rdata of answer `i` stands, the first answer at `off`. */
  function RdataStart(answers: seq<Answer>, off: nat, i: nat): (r: nat)
    requires AllWellFormed(answers) && i < |answers|
    ensures r >= off
  {
    var end := off + |AnswerWire(answers[0])|;
    if i == 0 then end - |answers[0].rdata| else RdataStart(answers[1..], end, i - 1)
  }

  function TextOf(d: Option<Decoded>): Option<seq<byte>> {
    match d
    case None => None
    case Some(n) => Some(n.text)
  }

  lemma {:induction false} FirstMeant(pkt: seq<byte>, answers: seq<Answer>, off: nat, expected: seq<byte>, outlen: nat, i: nat)
    requires AllWellFormed(answers) && i < |answers|
    requires WantedAnswer(answers[i], expected)
    requires forall j :: 0 <= j < i ==> !WantedAnswer(answers[j], expected)
    ensures FirstAnswer(pkt, Meant(answers, off), Some(expected), outlen)
         == TextOf(Decode(pkt, RdataStart(answers, off, i), outlen))
    decreases i
  {
    hide Wire, Join, Fits, CaseEqual, Decode, AnswerWire, Meant;
    var a := answers[0];
    assert WellFormed(a);
    MeantCons(answers, off);
    if i > 0 {
      assert answers[1..][i - 1] == answers[i];
      assert !WantedAnswer(a, expected);
      FirstMeant(pkt, answers[1..], off + |AnswerWire(a)|, expected, outlen, i - 1);
    }
  }

  lemma {:induction false} NoneMeant(pkt: seq<byte>, answers: seq<Answer>, off: nat, expected: seq<byte>, outlen: nat)
    requires AllWellFormed(answers)
    requires forall j :: 0 <= j < |answers| ==> !WantedAnswer(answers[j], expected)
    ensures FirstAnswer(pkt, Meant(answers, off), Some(expected), outlen) == None
    decreases |answers|
  {
    if answers != [] {
      assert !WantedAnswer(answers[0], expected);
      NoneMeant(pkt, answers[1..], off + |AnswerWire(answers[0])|, expected, outlen);
    }
  }

  /** The rdata of answer `i` names `host`, in full or through compression pointers. */
  predicate HostAt(m: Message, i: nat, host: seq<seq<byte>>)
    requires m.Valid() && i < |m.answers|
  {
    var n := NameAt(m.Bytes(), RdataStart(m.answers, |m.Pre()|, i), 16);
    n.Some? && n.value.labels == host
  }

  /**
   Main result, well-formed responses: the host name in the first PTR answer whose
   owner passes the check is returned, whatever stands around it, and nothing if it does not fit.
   */
  lemma ResponseGivesFirstHost(m: Message, expected: seq<byte>, outlen: nat, i: nat, host: seq<seq<byte>>)
    requires m.Valid() && i < |m.answers|
    requires WantedAnswer(m.answers[i], expected)
    requires forall j :: 0 <= j < i ==> !WantedAnswer(m.answers[j], expected)
    requires HostAt(m, i, host)
    ensures Response(m.Bytes(), Some(expected), outlen) == if Fits(host, outlen) then Some(Join(host)) else None
  {
    hide Join, Fits, NameAt, Meant, AnswersWire, WantedAnswer;
    AnswerSectionRead(m);
    FirstMeant(m.Bytes(), m.answers, |m.Pre()|, expected, outlen, i);
  }

  // ----- What an rdata names

  /** The answers in front of rdata `i`, and what follows it. */
  lemma {:induction false} RdataSplit(pre: seq<byte>, answers: seq<Answer>, post: seq<byte>, i: nat)
    returns (front: seq<byte>, back: seq<byte>)
    requires AllWellFormed(answers) && i < |answers|
    ensures pre + AnswersWire(answers) + post == front + answers[i].rdata + back
    ensures |front| == RdataStart(answers, |pre|, i) && pre <= front
    decreases i
  {
    hide Wire, PutBe16, OwnerWire;
    var a, rest := answers[0], AnswersWire(answers[1..]);
    assert WellFormed(a);
    if i == 0 {
      front := pre + (OwnerWire(a.owner) + (PutBe16(a.rtype) + a.fixed + PutBe16(|a.rdata|)));
      back := rest + post;
      assert pre + AnswerWire(a) == front + a.rdata;
      Regroup(pre, AnswerWire(a), rest, post);
      assert front + a.rdata + (rest + post) == pre + AnswerWire(a) + (rest + post);
    } else {
      front, back := RdataSplit(pre + AnswerWire(a), answers[1..], post, i - 1);
      Regroup(pre, AnswerWire(a), rest, post);
    }
  }

  /** Rdata in full. */
  lemma PlainHost(m: Message, i: nat, host: seq<seq<byte>>)
    requires m.Valid() && i < |m.answers| && ValidLabels(host) && m.answers[i].rdata == Wire(host)
    ensures HostAt(m, i, host)
  {
    hide Wire, NameAt;
    var front, back := RdataSplit(m.Pre(), m.answers, m.more, i);
    WireIsRead(front, host, back, MAX_NAME_JUMPS);
  }

  /** Labels and a pointer to any name of the packet. */
  lemma CompressedHost(m: Message, i: nat, labels: seq<seq<byte>>, t: nat, target: seq<seq<byte>>)
    requires m.Valid() && i < |m.answers| && ValidLabels(labels) && ValidLabels(target) && t < 16384
    requires m.answers[i].rdata == Flat(labels) + [192 + t / 256, t % 256] && StandsAt(m.Bytes(), t, Wire(target))
    ensures HostAt(m, i, labels + target)
  {
    hide Wire, NameAt, NextOff, Flat, AnswersWire;
    var front, back := RdataSplit(m.Pre(), m.answers, m.more, i);
    PointerMeansOffset(m.Bytes(), t, target, |front|, labels, MAX_NAME_JUMPS);
  }

  /** And without such an answer nothing is returned. */
  lemma ResponseWithoutHost(m: Message, expected: seq<byte>, outlen: nat)
    requires m.Valid()
    requires forall j :: 0 <= j < |m.answers| ==> !WantedAnswer(m.answers[j], expected)
    ensures Response(m.Bytes(), Some(expected), outlen) == None
  {
    AnswerSectionRead(m);
    NoneMeant(m.Bytes(), m.answers, |m.Pre()|, expected, outlen);
  }

  // ----- What the owner check is worth

  /**
   The check compares C strings. An owner it accepts is the expected name (up to case)
   exactly when the owner holds no NUL byte.
   */
  lemma OwnerCheckExact(owner: seq<byte>, expected: seq<byte>)
    requires 0 !in expected && CaseEqual(owner, expected)
    ensures Lower(owner) == Lower(expected) <==> 0 !in owner
  {
    CStrNulFree(owner);
    CStrNulFree(expected);
    if 0 in owner {
      assert |CStr(owner)| < |owner| by {
        assert CStr(owner) != owner;
      }
      assert |Lower(CStr(owner))| == |Lower(expected)|;
    }
  }

  /** A foreign owner that passes: any name behind a NUL in the last label. */
  lemma ForeignOwnerPasses(expected: seq<byte>, junk: seq<byte>)
    requires 0 !in expected
    ensures CaseEqual(expected + [0] + junk, expected)
    ensures Lower(expected + [0] + junk) != Lower(expected)
  {
    CStrStops(expected, junk);
    assert |Lower(expected + [0] + junk)| > |Lower(expected)|;
  }
}

/**
 Whose name the resolver answers with: the owner check of a response compares dotted text up
 to the first NUL, a name on the wire is a list of labels, and the two are not the same.
 */
module MdnsOwners {
  import opened Bytes
  import opened DnsNames
  import opened MdnsResolve
  import opened MdnsResponses

  function LowerAll(labels: seq<seq<byte>>): (r: seq<seq<byte>>)
    ensures |r| == |labels|
    ensures forall i :: 0 <= i < |labels| ==> r[i] == Lower(labels[i])
  {
    seq(|labels|, i requires 0 <= i < |labels| => Lower(labels[i]))
  }

  /** Neither a NUL, which ends the compared text, nor a dot, which the text cannot tell from its own. */
  predicate PlainLabels(labels: seq<seq<byte>>) {
    forall i :: 0 <= i < |labels| ==> 0 !in labels[i] && DOT !in labels[i]
  }

  // ----- Text and labels

  lemma LowerKeeps(s: seq<byte>, c: byte)
    requires c == 0 || c == DOT
    ensures c in Lower(s) <==> c in s
  {
    forall i | 0 <= i < |s| ensures Lower(s)[i] == c <==> s[i] == c {}
    if c in s {
      var i :| 0 <= i < |s| && s[i] == c;
      assert Lower(s)[i] == c;
    }
  }

  lemma LowerConcat(x: seq<byte>, y: seq<byte>)
    ensures Lower(x + y) == Lower(x) + Lower(y)
  {
  }

  lemma {:induction false} LowerJoin(labels: seq<seq<byte>>)
    ensures Lower(Join(labels)) == Join(LowerAll(labels))
  {
    hide Lower;
    if |labels| == 1 {
    } else if |labels| > 1 {
      LowerJoin(labels[1..]);
      assert LowerAll(labels)[1..] == LowerAll(labels[1..]);
      LowerConcat(labels[0] + [DOT], Join(labels[1..]));
      LowerConcat(labels[0], [DOT]);
      LowerDot();
    } else {
      LowerNothing();
    }
  }

  lemma LowerDot()
    ensures Lower([DOT]) == [DOT]
  {
  }

  lemma LowerNothing()
    ensures Lower([]) == []
  {
  }

  /** The text of a name holds a NUL exactly when a label does. */
  lemma {:induction false} JoinNul(labels: seq<seq<byte>>)
    ensures 0 in Join(labels) <==> exists i :: 0 <= i < |labels| && 0 in labels[i]
  {
    if |labels| > 1 {
      var rest := labels[1..];
      JoinNul(rest);
      if 0 in Join(rest) {
        var i :| 0 <= i < |rest| && 0 in rest[i];
        assert 0 in labels[i + 1];
      }
      if i :| 0 <= i < |labels| && 0 in labels[i] {
        assert i > 0 ==> 0 in rest[i - 1];
      }
    }
  }

  /** Labels without dots are recovered from their text. */
  lemma {:induction false} LabelsOfJoin(labels: seq<seq<byte>>)
    requires ValidLabels(labels) && labels != [] && forall i :: 0 <= i < |labels| ==> DOT !in labels[i]
    ensures Labels(Join(labels)) == labels
  {
    hide Labels;
    if |labels| == 1 {
      LabelsOne(labels[0]);
      assert labels == [labels[0]];
    } else {
      LabelsOfJoin(labels[1..]);
      LabelsCons(labels[0], Join(labels[1..]));
      assert labels == [labels[0]] + labels[1..];
    }
  }

  lemma {:induction false} DecimalPlain(n: nat)
    ensures 0 !in Decimal(n) && DOT !in Decimal(n) && Lower(Decimal(n)) == Decimal(n)
  {
    if n >= 10 {
      DecimalPlain(n / 10);
      LowerConcat(Decimal(n / 10), [48 + n % 10]);
    }
  }

  lemma ReverseLabelsPlain(a: nat, b: nat, c: nat, d: nat)
    requires a <= 255 && b <= 255 && c <= 255 && d <= 255
    ensures PlainLabels(ReverseLabels(a, b, c, d)) && LowerAll(ReverseLabels(a, b, c, d)) == ReverseLabels(a, b, c, d)
    ensures Join(ReverseLabels(a, b, c, d)) == ReverseName(a, b, c, d)
  {
    DecimalPlain(a);
    DecimalPlain(b);
    DecimalPlain(c);
    DecimalPlain(d);
    hide Decimal;
    assert Lower(IN_ADDR) == IN_ADDR && Lower(ARPA) == ARPA;
    var r := ReverseLabels(a, b, c, d);
    JoinSix(r);
  }

  lemma JoinSix(r: seq<seq<byte>>)
    requires |r| == 6
    ensures Join(r) == r[0] + [DOT] + (r[1] + [DOT] + (r[2] + [DOT] + (r[3] + [DOT] + (r[4] + [DOT] + r[5]))))
  {
    assert Join(r[4..]) == r[4] + [DOT] + r[5] by { assert r[4..][1..] == [r[5]]; }
    assert r[3..][1..] == r[4..] && r[2..][1..] == r[3..] && r[1..][1..] == r[2..];
    assert Join(r[3..]) == r[3] + [DOT] + Join(r[4..]);
    assert Join(r[2..]) == r[2] + [DOT] + Join(r[3..]);
    assert Join(r[1..]) == r[1] + [DOT] + Join(r[2..]);
  }

  // ----- The check

  /** The right owner always passes. */
  lemma RightOwnerPasses(labels: seq<seq<byte>>, a: nat, b: nat, c: nat, d: nat)
    requires a <= 255 && b <= 255 && c <= 255 && d <= 255
    requires LowerAll(labels) == ReverseLabels(a, b, c, d)
    ensures CaseEqual(Join(labels), ReverseName(a, b, c, d)) && PlainLabels(labels)
  {
    ReverseLabelsPlain(a, b, c, d);
    hide Decimal, ReverseName, ReverseLabels, Join;
    LowerJoin(labels);
    LowerJoin(ReverseLabels(a, b, c, d));
    var r := ReverseLabels(a, b, c, d);
    forall i | 0 <= i < |labels| ensures 0 !in labels[i] && DOT !in labels[i] {
      assert Lower(labels[i]) == r[i];
      LowerKeeps(labels[i], 0);
      LowerKeeps(labels[i], DOT);
    }
    JoinNul(labels);
    JoinNul(r);
    CStrNulFree(Join(labels));
    CStrNulFree(Join(r));
  }

  /**
   Main result: among the owners that pass, the right ones are exactly those without a NUL and
   without a dot inside a label.
   */
  lemma OwnerLabelsExact(labels: seq<seq<byte>>, a: nat, b: nat, c: nat, d: nat)
    requires a <= 255 && b <= 255 && c <= 255 && d <= 255
    requires ValidLabels(labels) && CaseEqual(Join(labels), ReverseName(a, b, c, d))
    ensures LowerAll(labels) == ReverseLabels(a, b, c, d) <==> PlainLabels(labels)
  {
    if LowerAll(labels) == ReverseLabels(a, b, c, d) { RightOwnerPasses(labels, a, b, c, d); }
    if PlainLabels(labels) { PlainOwnerIsRight(labels, a, b, c, d); }
  }

  lemma PlainOwnerIsRight(labels: seq<seq<byte>>, a: nat, b: nat, c: nat, d: nat)
    requires a <= 255 && b <= 255 && c <= 255 && d <= 255
    requires ValidLabels(labels) && PlainLabels(labels) && CaseEqual(Join(labels), ReverseName(a, b, c, d))
    ensures LowerAll(labels) == ReverseLabels(a, b, c, d)
  {
    ReverseLabelsPlain(a, b, c, d);
    ReverseNameLabels(a, b, c, d);
    var r, lows := ReverseLabels(a, b, c, d), LowerAll(labels);
    assert r != [];
    hide Decimal, ReverseName, ReverseLabels, Labels;
    JoinNonEmpty(r);
    JoinNul(labels);
    JoinNul(r);
    OwnerCheckExact(Join(labels), Join(r));
    LowerJoin(labels);
    LowerJoin(r);
    forall i | 0 <= i < |lows| ensures DOT !in lows[i] { LowerKeeps(labels[i], DOT); }
    LabelsOfJoin(lows);
  }

  // ----- Any packet

  /** Where the owners of the answer records stand. */
  function Starts(pkt: seq<byte>, off: nat, n: nat): (r: seq<nat>)
    ensures |r| == |Records(pkt, off, n)|
    decreases n
  {
    if n == 0 then []
    else
      match RecordAt(pkt, off)
      case None => []
      case Some(rec) => [off] + Starts(pkt, rec.next, n - 1)
  }

  function AnswerStarts(pkt: seq<byte>): (r: seq<nat>)
    ensures |r| == |AnswerSection(pkt)|
  {
    if |pkt| < 12 || pkt[2] < 128 then []
    else
      match SkipQuestions(pkt, 12, Be16(pkt, 4))
      case None => []
      case Some(off) => Starts(pkt, off, Be16(pkt, 6))
  }

  /** The labels found at the owner field of a record. */
  function OwnerAt(pkt: seq<byte>, off: nat): seq<seq<byte>> {
    match NameAt(pkt, off, MAX_NAME_JUMPS)
    case None => []
    case Some(n) => n.labels
  }

  lemma {:induction false} OwnersAreText(pkt: seq<byte>, off: nat, n: nat, i: nat)
    requires i < |Records(pkt, off, n)|
    ensures var o := OwnerAt(pkt, Starts(pkt, off, n)[i]); ValidLabels(o) && Records(pkt, off, n)[i].owner == Join(o)
    decreases n
  {
    hide Join, Fits, ValidLabels;
    if i == 0 {
      NameAtValid(pkt, off, MAX_NAME_JUMPS);
    } else {
      OwnersAreText(pkt, RecordAt(pkt, off).value.next, n - 1, i - 1);
    }
  }

  /**
   Main result, any packet: the answer comes from the first PTR record that passes the check, and
   that record is owned by the name asked for if and only if its owner has no NUL and no dot in a label.
   */
  lemma AnsweredOwnerExact(pkt: seq<byte>, a: nat, b: nat, c: nat, d: nat, outlen: nat, h: seq<byte>)
    requires a <= 255 && b <= 255 && c <= 255 && d <= 255
    ensures var expected := Some(ReverseName(a, b, c, d));
            var recs := AnswerSection(pkt);
            && (Response(pkt, expected, outlen) == Some(h) <==>
                  exists i :: 0 <= i < |recs| && IsFirst(recs, i, expected)
                              && Decode(pkt, recs[i].rdata, outlen).Some?
                              && Decode(pkt, recs[i].rdata, outlen).value.text == h)
            && forall i :: 0 <= i < |recs| && IsFirst(recs, i, expected) ==>
                 var owner := OwnerAt(pkt, AnswerStarts(pkt)[i]);
                 LowerAll(owner) == ReverseLabels(a, b, c, d) <==> PlainLabels(owner)
  {
    hide Decode, ReverseName, ReverseLabels, Records, Starts, CaseEqual, LowerAll, PlainLabels, ValidLabels;
    var expected := Some(ReverseName(a, b, c, d));
    var recs := AnswerSection(pkt);
    FirstAnswerExact(pkt, recs, expected, outlen, h);
    forall i | 0 <= i < |recs| && IsFirst(recs, i, expected)
      ensures var owner := OwnerAt(pkt, AnswerStarts(pkt)[i]);
              LowerAll(owner) == ReverseLabels(a, b, c, d) <==> PlainLabels(owner)
    {
      OwnersAreText(pkt, SkipQuestions(pkt, 12, Be16(pkt, 4)).value, Be16(pkt, 6), i);
      OwnerLabelsExact(OwnerAt(pkt, AnswerStarts(pkt)[i]), a, b, c, d);
    }
  }

  // ----- Responses built from their parts

  /** A PTR answer owned by the reverse name of a.b.c.d, case apart. */
  predicate RightAnswer(ans: Answer, a: nat, b: nat, c: nat, d: nat)
    requires a <= 255 && b <= 255 && c <= 255 && d <= 255
  {
    ans.rtype == 12 && LowerAll(OwnerLabels(ans.owner)) == ReverseLabels(a, b, c, d)
  }

  predicate PlainOwners(m: Message) {
    forall i :: 0 <= i < |m.answers| && m.answers[i].rtype == 12 ==> PlainLabels(OwnerLabels(m.answers[i].owner))
  }

  lemma OwnerLabelsValid(o: Owner)
    requires ValidOwner(o)
    ensures ValidLabels(OwnerLabels(o))
  {
  }

  lemma RightIsWanted(m: Message, i: nat, a: nat, b: nat, c: nat, d: nat)
    requires m.Valid() && PlainOwners(m) && i < |m.answers|
    requires a <= 255 && b <= 255 && c <= 255 && d <= 255
    ensures RightAnswer(m.answers[i], a, b, c, d)
            <==> WantedAnswer(m.answers[i], ReverseName(a, b, c, d))
  {
    hide ReverseLabels, ReverseName, CaseEqual, PlainLabels, LowerAll, ValidLabels, Join;
    var ans := m.answers[i];
    var owner := OwnerLabels(ans.owner);
    assert WellFormed(ans);
    OwnerLabelsValid(ans.owner);
    if RightAnswer(ans, a, b, c, d) { RightOwnerPasses(owner, a, b, c, d); }
    if WantedAnswer(ans, ReverseName(a, b, c, d)) { OwnerLabelsExact(owner, a, b, c, d); }
  }

  /** Without such owners the answer is that of the first PTR record owned by the name asked for. */
  lemma PlainResponseGivesHost(m: Message, a: nat, b: nat, c: nat, d: nat, outlen: nat, i: nat, host: seq<seq<byte>>)
    requires m.Valid() && PlainOwners(m) && i < |m.answers| && HostAt(m, i, host)
    requires a <= 255 && b <= 255 && c <= 255 && d <= 255
    requires RightAnswer(m.answers[i], a, b, c, d)
    requires forall j :: 0 <= j < i ==> !RightAnswer(m.answers[j], a, b, c, d)
    ensures Response(m.Bytes(), Some(ReverseName(a, b, c, d)), outlen) == if Fits(host, outlen) then Some(Join(host)) else None
  {
    hide RightAnswer, WantedAnswer, ReverseName, HostAt, Fits, Join, Response, PlainOwners;
    RightIsWanted(m, i, a, b, c, d);
    forall j | 0 <= j < i ensures !WantedAnswer(m.answers[j], ReverseName(a, b, c, d)) {
      RightIsWanted(m, j, a, b, c, d);
    }
    ResponseGivesFirstHost(m, ReverseName(a, b, c, d), outlen, i, host);
  }

  /** And without a record owned by that name there is no answer: never another owner's. */
  lemma PlainResponseWithoutHost(m: Message, a: nat, b: nat, c: nat, d: nat, outlen: nat)
    requires m.Valid() && PlainOwners(m)
    requires a <= 255 && b <= 255 && c <= 255 && d <= 255
    requires forall j :: 0 <= j < |m.answers| ==> !RightAnswer(m.answers[j], a, b, c, d)
    ensures Response(m.Bytes(), Some(ReverseName(a, b, c, d)), outlen) == None
  {
    hide RightAnswer, WantedAnswer, ReverseName, Response, PlainOwners;
    forall j | 0 <= j < |m.answers| ensures !WantedAnswer(m.answers[j], ReverseName(a, b, c, d)) {
      RightIsWanted(m, j, a, b, c, d);
    }
    ResponseWithoutHost(m, ReverseName(a, b, c, d), outlen);
  }

  // ----- Foreign owners that pass

  lemma {:induction false} WireLength(labels: seq<seq<byte>>)
    requires ValidLabels(labels)
    ensures |Wire(labels)| == if labels == [] then 1 else |Join(labels)| + 2
  {
    if labels != [] { WireLength(labels[1..]); }
  }

  /** A multicast response: no question and one PTR answer. */
  function OneAnswer(owner: seq<seq<byte>>, host: seq<seq<byte>>): Message
    requires ValidLabels(host)
  {
    Message([0, 0], [132, 0], [0, 0, 0, 0], [],
            [Answer(Plain(owner), 12, [0, 1, 0, 0, 0, 0], Wire(host))], [])
  }

  lemma OneAnswerGiven(owner: seq<seq<byte>>, host: seq<seq<byte>>, expected: seq<byte>, outlen: nat)
    requires ValidLabels(owner) && Fits(owner, MAX_NAME_LEN) && CaseEqual(Join(owner), expected)
    requires ValidLabels(host) && Fits(host, outlen) && outlen <= MAX_NAME_LEN
    ensures OneAnswer(owner, host).Valid()
    ensures Response(OneAnswer(owner, host).Bytes(), Some(expected), outlen) == Some(Join(host))
  {
    hide Wire, CaseEqual;
    var m := OneAnswer(owner, host);
    WireLength(host);
    assert WellFormed(m.answers[0]);
    hide Join, Fits;
    PlainHost(m, 0, host);
    ResponseGivesFirstHost(m, expected, outlen, 0, host);
  }

  /** The reverse name as one label with dots in it: a different name, no NUL, and its host is answered. */
  lemma DottedOwnerAnswered(a: nat, b: nat, c: nat, d: nat, host: seq<seq<byte>>, outlen: nat)
    requires a <= 255 && b <= 255 && c <= 255 && d <= 255
    requires ValidLabels(host) && Fits(host, outlen) && outlen <= MAX_NAME_LEN
    ensures var owner := [ReverseName(a, b, c, d)];
            && ValidLabels(owner) && LowerAll(owner) != ReverseLabels(a, b, c, d) && 0 !in Join(owner)
            && OneAnswer(owner, host).Valid()
            && Response(OneAnswer(owner, host).Bytes(), Some(ReverseName(a, b, c, d)), outlen) == Some(Join(host))
  {
    var name := ReverseName(a, b, c, d);
    ReverseLabelsPlain(a, b, c, d);
    JoinNul(ReverseLabels(a, b, c, d));
    assert |ReverseLabels(a, b, c, d)| == 6 && |LowerAll([name])| == 1;
    assert |name| >= 1;
    hide ReverseName, ReverseLabels, OneAnswer, Response;
    assert Join([name]) == name;
    OneAnswerGiven([name], host, name, outlen);
  }

  /** The reverse name with a NUL and anything short behind it in its last label: its host is answered. */
  lemma NulOwnerAnswered(a: nat, b: nat, c: nat, d: nat, junk: seq<byte>, host: seq<seq<byte>>, outlen: nat)
    requires a <= 255 && b <= 255 && c <= 255 && d <= 255 && |junk| <= 58
    requires ValidLabels(host) && Fits(host, outlen) && outlen <= MAX_NAME_LEN
    ensures var owner := ReverseLabels(a, b, c, d)[..5] + [ARPA + [0] + junk];
            && ValidLabels(owner) && LowerAll(owner) != ReverseLabels(a, b, c, d)
            && OneAnswer(owner, host).Valid()
            && Response(OneAnswer(owner, host).Bytes(), Some(ReverseName(a, b, c, d)), outlen) == Some(Join(host))
  {
    var r, name := ReverseLabels(a, b, c, d), ReverseName(a, b, c, d);
    var last := ARPA + [0] + junk;
    var owner := r[..5] + [last];
    ReverseLabelsPlain(a, b, c, d);
    JoinNul(r);
    assert |name| <= 28 && |r[0]| <= 3 && r[5] == ARPA && |ARPA| == 4;
    hide ReverseName, ReverseLabels, OneAnswer, Response, Decimal;
    assert |LowerAll(owner)[5]| == |last| > |r[5]|;
    forall i | 0 <= i < 6 ensures ValidLabel(owner[i]) { assert i < 5 ==> owner[i] == r[i]; }
    JoinSix(r);
    JoinSix(owner);
    NulText(r, name, last, junk);
    assert Join(owner) == name + [0] + junk;
    ForeignOwnerPasses(name, junk);
    OneAnswerGiven(owner, host, name, outlen);
  }

  lemma NulText(r: seq<seq<byte>>, name: seq<byte>, last: seq<byte>, junk: seq<byte>)
    requires |r| == 6 && last == r[5] + [0] + junk
    requires name == r[0] + [DOT] + (r[1] + [DOT] + (r[2] + [DOT] + (r[3] + [DOT] + (r[4] + [DOT] + r[5]))))
    ensures r[0] + [DOT] + (r[1] + [DOT] + (r[2] + [DOT] + (r[3] + [DOT] + (r[4] + [DOT] + last)))) == name + [0] + junk
  {
  }
}

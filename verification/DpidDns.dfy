/**
 The DNS side of the packet parser in the capture daemon.
 */
module DpidDns {
  import opened Bytes
  import opened DnsNames

  const GO_JUMPS := 8
  const GO_TURNS := 256

  datatype GoName = GoName(text: seq<byte>, next: nat)

  /** What `dnsReadName` answers: at most 8 pointers, and labels plus pointers within its 256 turns. */
  function ReadName(b: seq<byte>, off: nat): Option<GoName> {
    match NameAt(b, off, GO_JUMPS)
    case None => None
    case Some(n) =>
      if |n.labels| + n.jumps < GO_TURNS then Some(GoName(Join(n.labels), NextOff(b, off))) else None
  }

  /** One more label in the text, a dot in front unless it is the first. */
  lemma OneMoreLabel(done: seq<seq<byte>>, l: seq<byte>)
    requires ValidLabels(done)
    ensures Join(done + [l]) == (if Join(done) == [] then [] else Join(done) + [DOT]) + l
  {
    JoinSnoc(done, l);
    JoinNonEmpty(done);
  }

  /** Out of turns: whatever the name still is, it has too many parts. */
  lemma OutOfTurns(b: seq<byte>, start: nat, off: nat, jumps: nat, done: seq<seq<byte>>)
    requires Progress(b, start, GO_JUMPS, off, jumps, done)
    requires |done| + jumps == GO_TURNS
    ensures ReadName(b, start) == None
  {
  }

  /** dnsReadName */
  method DnsReadName(b: seq<byte>, start: nat) returns (ok: bool, text: seq<byte>, next: nat)
    ensures ok <==> ReadName(b, start).Some?
    ensures ok ==> ReadName(b, start) == Some(GoName(text, next))
  {
    hide NameAt, NextOff, Join;
    var sb: seq<byte> := [];
    var off: nat, nextOff: nat, jumped, jumps: nat := start, start, false, 0;
    ghost var done: seq<seq<byte>> := [];
    ProgressStart(b, start, GO_JUMPS);
    for i := 0 to GO_TURNS
      invariant Progress(b, start, GO_JUMPS, off, jumps, done) && ValidLabels(done) && jumps <= GO_JUMPS
      invariant |done| + jumps == i && sb == Join(done)
      invariant if jumped then nextOff == NextOff(b, start) else NextOff(b, off) == NextOff(b, start)
    {
      if off >= |b| {
        ProgressBroken(b, start, GO_JUMPS, off, jumps, done);
        return false, [], 0;
      }
      var l := b[off];
      if l == 0 {
        ProgressRoot(b, start, GO_JUMPS, off, jumps, done);
        if !jumped { nextOff := off + 1; }
        return true, sb, nextOff;
      }
      if l >= 192 {
        if off + 1 >= |b| {
          ProgressBroken(b, start, GO_JUMPS, off, jumps, done);
          return false, [], 0;
        }
        var ptr := Pointer(b, off);
        ProgressPointer(b, start, GO_JUMPS, off, jumps, done);
        if !jumped {
          nextOff := off + 2;
          jumped := true;
        }
        if ptr >= |b| || ptr == off { return false, [], 0; }
        if jumps + 1 > GO_JUMPS { return false, [], 0; }
        off, jumps := ptr, jumps + 1;
        continue;
      }
      if l > 63 || off + 1 + l > |b| {
        ProgressBroken(b, start, GO_JUMPS, off, jumps, done);
        return false, [], 0;
      }
      ProgressLabel(b, start, GO_JUMPS, off, jumps, done);
      OneMoreLabel(done, LabelAt(b, off));
      off := off + 1;
      if |sb| > 0 { sb := sb + [DOT]; }
      sb := sb + b[off..off + l];
      done := done + [b[off..off + l]];
      off := off + l;
    }
    OutOfTurns(b, start, off, jumps, done);
    return false, [], 0;
  }

  // ----- parseDNS

  /** An address or a CNAME of the answer section; rendering the address as text is left out. */
  datatype DnsAnswer = A(addr: seq<byte>) | AAAA(addr: seq<byte>) | CName(name: seq<byte>)

  datatype DnsInfo = DnsInfo(isResponse: bool, qname: seq<byte>, qtype: nat, answers: seq<DnsAnswer>, ttl: nat)

  datatype RR = RR(rtype: nat, ttl: nat, rdata: nat, next: nat)

  /** The record at `p`; nothing when its name or its fields run out of the message. */
  function RecordAt(b: seq<byte>, p: nat): Option<RR> {
    match ReadName(b, p)
    case None => None
    case Some(n) =>
      if |b| < n.next + 10 then None
      else
        var rdlen := Be16(b, n.next + 8);
        if |b| < n.next + 10 + rdlen then None
        else Some(RR(Be16(b, n.next), Be32(b, n.next + 4), n.next + 10, n.next + 10 + rdlen))
  }

  /** The complete records from `p` on, at most `n`. */
  function Records(b: seq<byte>, p: nat, n: nat): seq<RR>
    decreases n
  {
    if n == 0 then []
    else
      match RecordAt(b, p)
      case None => []
      case Some(rr) => [rr] + Records(b, rr.next, n - 1)
  }

  /** What one record adds to the answers: an address of the right size, or a readable CNAME. */
  function AnswerOf(b: seq<byte>, rr: RR): seq<DnsAnswer> {
    if rr.rdata > rr.next || rr.next > |b| then []
    else if rr.rtype == 1 && rr.next - rr.rdata == 4 then [A(b[rr.rdata..rr.next])]
    else if rr.rtype == 28 && rr.next - rr.rdata == 16 then [AAAA(b[rr.rdata..rr.next])]
    else if rr.rtype == 5 && ReadName(b, rr.rdata).Some? then [CName(Lower(ReadName(b, rr.rdata).value.text))]
    else []
  }

  function AnswersOf(b: seq<byte>, rrs: seq<RR>): seq<DnsAnswer> {
    if rrs == [] then [] else AnswerOf(b, rrs[0]) + AnswersOf(b, rrs[1..])
  }

  /** The running TTL of the loop: 0 also stands for "none yet". */
  function FoldTtl(m: nat, rrs: seq<RR>): nat
    decreases |rrs|
  {
    if rrs == [] then m
    else FoldTtl(if m == 0 || rrs[0].ttl < m then rrs[0].ttl else m, rrs[1..])
  }

  function DnsOf(b: seq<byte>): Option<DnsInfo> {
    if |b| < 12 || Be16(b, 4) != 1 then None
    else
      match ReadName(b, 12)
      case None => None
      case Some(q) =>
        if |b| < q.next + 4 then None
        else
          var rrs := if b[2] >= 128 then Records(b, q.next + 4, Be16(b, 6)) else [];
          Some(DnsInfo(b[2] >= 128, Lower(q.text), Be16(b, q.next), AnswersOf(b, rrs), FoldTtl(0, rrs)))
  }

  /** parseDNS */
  method ParseDns(b: seq<byte>) returns (ok: bool, info: DnsInfo)
    ensures ok <==> DnsOf(b).Some?
    ensures ok ==> DnsOf(b) == Some(info)
  {
    hide ReadName;
    info := DnsInfo(false, [], 0, [], 0);
    if |b| < 12 { return false, info; }
    var flags := Be16(b, 2);
    var qdcount := Be16(b, 4);
    var ancount := Be16(b, 6);
    if qdcount != 1 { return false, info; }
    var isResponse := flags >= 0x8000;
    var read, qname, np := DnsReadName(b, 12);
    if !read { return false, info; }
    if |b| < np + 4 { return false, info; }
    var qtype := Be16(b, np);
    if !isResponse {
      return true, DnsInfo(false, Lower(qname), qtype, [], 0);
    }
    var answers, minTtl := ReadAnswers(b, np + 4, ancount);
    return true, DnsInfo(true, Lower(qname), qtype, answers, minTtl);
  }

  /** The answer loop of parseDNS; it stops quietly at the first incomplete record. */
  method ReadAnswers(b: seq<byte>, start: nat, ancount: nat) returns (answers: seq<DnsAnswer>, minTtl: nat)
    ensures answers == AnswersOf(b, Records(b, start, ancount))
    ensures minTtl == FoldTtl(0, Records(b, start, ancount))
  {
    hide ReadName, AnswerOf;
    answers, minTtl := [], 0;
    var p: nat := start;
    for i := 0 to ancount
      invariant AnswersOf(b, Records(b, start, ancount)) == answers + AnswersOf(b, Records(b, p, ancount - i))
      invariant FoldTtl(0, Records(b, start, ancount)) == FoldTtl(minTtl, Records(b, p, ancount - i))
    {
      ghost var rest := Records(b, p, ancount - i);
      var read, _, np := DnsReadName(b, p);
      if !read || |b| < np + 10 {
        assert rest == [];
        return;
      }
      var rr := RR(Be16(b, np), Be32(b, np + 4), np + 10, np + 10 + Be16(b, np + 8));
      if |b| < rr.next {
        assert rest == [];
        return;
      }
      RecordsCons(b, p, ancount - i, rr);
      p := rr.next;
      var more := TakeAnswer(b, rr);
      answers := answers + more;
      if minTtl == 0 || rr.ttl < minTtl { minTtl := rr.ttl; }
    }
  }

  lemma RecordsCons(b: seq<byte>, p: nat, n: nat, rr: RR)
    requires n > 0 && RecordAt(b, p) == Some(rr)
    ensures Records(b, p, n) == [rr] + Records(b, rr.next, n - 1)
    ensures AnswersOf(b, Records(b, p, n)) == AnswerOf(b, rr) + AnswersOf(b, Records(b, rr.next, n - 1))
    ensures forall m: nat :: FoldTtl(m, Records(b, p, n))
                          == FoldTtl(if m == 0 || rr.ttl < m then rr.ttl else m, Records(b, rr.next, n - 1))
  {
    hide RecordAt, AnswerOf;
    assert ([rr] + Records(b, rr.next, n - 1))[1..] == Records(b, rr.next, n - 1);
  }

  /** The switch on the record type. */
  method TakeAnswer(b: seq<byte>, rr: RR) returns (more: seq<DnsAnswer>)
    requires rr.rdata <= rr.next <= |b|
    ensures more == AnswerOf(b, rr)
  {
    hide ReadName;
    more := [];
    var rdlen := rr.next - rr.rdata;
    if rr.rtype == 1 {
      if rdlen == 4 { more := [A(b[rr.rdata..rr.next])]; }
    } else if rr.rtype == 28 {
      if rdlen == 16 { more := [AAAA(b[rr.rdata..rr.next])]; }
    } else if rr.rtype == 5 {
      var found, name, _ := DnsReadName(b, rr.rdata);
      if found { more := [CName(Lower(name))]; }
    }
  }

  // ----- The reported TTL

  ghost predicate IsMinTtl(m: nat, rrs: seq<RR>) {
    (exists i :: 0 <= i < |rrs| && rrs[i].ttl == m) && forall i :: 0 <= i < |rrs| ==> m <= rrs[i].ttl
  }

  predicate SomeZero(rrs: seq<RR>) {
    exists i :: 0 <= i < |rrs| && rrs[i].ttl == 0
  }

  lemma {:induction false} FoldTtlSnoc(m: nat, rrs: seq<RR>, rr: RR)
    ensures FoldTtl(m, rrs + [rr])
         == var f := FoldTtl(m, rrs); if f == 0 || rr.ttl < f then rr.ttl else f
    decreases |rrs|
  {
    if rrs == [] {
      assert rrs + [rr] == [rr];
    } else {
      assert (rrs + [rr])[1..] == rrs[1..] + [rr];
      FoldTtlSnoc(if m == 0 || rrs[0].ttl < m then rrs[0].ttl else m, rrs[1..], rr);
    }
  }

  lemma {:induction false} FoldTtlCases(rrs: seq<RR>)
    requires rrs != []
    ensures FoldTtl(0, rrs) == 0 <==> rrs[|rrs| - 1].ttl == 0
    ensures !SomeZero(rrs) ==> IsMinTtl(FoldTtl(0, rrs), rrs)
    decreases |rrs|
  {
    var init, last := rrs[..|rrs| - 1], rrs[|rrs| - 1];
    assert rrs == init + [last];
    FoldTtlSnoc(0, init, last);
    if init != [] {
      FoldTtlCases(init);
      if !SomeZero(rrs) {
        assert forall i :: 0 <= i < |init| ==> init[i] == rrs[i];
        var k :| 0 <= k < |init| && init[k].ttl == FoldTtl(0, init);
        assert rrs[k].ttl == FoldTtl(0, init);
        assert rrs[|init|] == last;
      }
    }
  }

  /**
   The TTL reported for the answers is their minimum unless a zero TTL is followed by
   a record with another TTL: the zero is then taken for "none yet".
   */
  lemma TtlExact(rrs: seq<RR>)
    requires rrs != []
    ensures IsMinTtl(FoldTtl(0, rrs), rrs) <==> !SomeZero(rrs) || rrs[|rrs| - 1].ttl == 0
  {
    FoldTtlCases(rrs);
    if rrs[|rrs| - 1].ttl == 0 {
      assert IsMinTtl(0, rrs);
    }
  }
}

/**
 The reverse mDNS resolver: building the PTR query for an IPv4 address and
 reading the answer.
 */
module MdnsResolve {
  import opened Bytes
  import opened DnsNames

  const MAX_NAME_JUMPS := 16
  const MAX_NAME_LEN := 256
  const TYPE_PTR := 12

  // ----- Decoding a name into a C buffer

  /** The room `decode_dns_name` asks for: one byte more than the text for a single label. */
  predicate Fits(labels: seq<seq<byte>>, outlen: nat) {
    labels == [] || (|labels[0]| + 1 < outlen && |Join(labels)| < outlen)
  }

  datatype Decoded = Decoded(text: seq<byte>, next: nat)

  /** What `decode_dns_name` answers for the name at `off` and a buffer of `outlen` bytes. */
  function Decode(pkt: seq<byte>, off: nat, outlen: nat): Option<Decoded> {
    match NameAt(pkt, off, MAX_NAME_JUMPS)
    case None => None
    case Some(n) =>
      if Fits(n.labels, outlen) then Some(Decoded(Join(n.labels), NextOff(pkt, off))) else None
  }

  /** A label that does not fit the buffer dooms the whole name. */
  lemma NoRoom(pkt: seq<byte>, off: nat, cur: nat, jumps: nat, done: seq<seq<byte>>, outlen: nat)
    requires Progress(pkt, off, MAX_NAME_JUMPS, cur, jumps, done)
    requires cur < |pkt| && 0 < pkt[cur] <= 63 && cur + 1 + pkt[cur] <= |pkt|
    requires |Join(done)| + pkt[cur] + 1 >= outlen
    ensures Decode(pkt, off, outlen) == None
  {
    ProgressLabel(pkt, off, MAX_NAME_JUMPS, cur, jumps, done);
    var l := LabelAt(pkt, cur);
    JoinSnoc(done, l);
    match NameAt(pkt, cur + 1 + pkt[cur], MAX_NAME_JUMPS - jumps)
    case None =>
    case Some(m) =>
      JoinAppend(done + [l], m.labels);
      assert ((done + [l]) + m.labels)[0] == (done + [l])[0];
  }

  /** Room for every label so far is room for the text so far. */
  lemma TakeLabel(done: seq<seq<byte>>, l: seq<byte>, outlen: nat)
    requires Fits(done, outlen) && ValidLabels(done) && ValidLabel(l)
    requires |Join(done)| + |l| + 1 < outlen
    ensures Fits(done + [l], outlen)
    ensures Join(done + [l]) == if Join(done) == [] then l else Join(done) + [DOT] + l
  {
    JoinSnoc(done, l);
    JoinNonEmpty(done);
    if done != [] {
      assert (done + [l])[0] == done[0];
    }
  }

  /**
   Reads the name at `off` into `out`, NUL terminated. Terminates on every packet:
   each turn uses up a pointer or moves forward.
   */
  method DecodeDnsName(pkt: seq<byte>, off: nat, out: array<byte>) returns (ok: bool, next: nat)
    requires out.Length > 0
    modifies out
    ensures ok <==> Decode(pkt, off, out.Length).Some?
    ensures ok ==> var d := Decode(pkt, off, out.Length).value;
                   && next == d.next
                   && |d.text| < out.Length
                   && out[..|d.text| + 1] == d.text + [0]
    ensures !ok ==> next == off
  {
    hide NameAt, NextOff, Join, Fits, Progress;
    var outPos: nat, cur: nat, jumps: nat := 0, off, 0;
    var jumped, afterFirst := false, 0;
    ghost var done: seq<seq<byte>> := [];
    StartEmpty(pkt, off, out.Length);
    while true
      invariant Progress(pkt, off, MAX_NAME_JUMPS, cur, jumps, done) && ValidLabels(done) && jumps <= MAX_NAME_JUMPS
      invariant outPos == |Join(done)| < out.Length && out[..outPos] == Join(done)
      invariant Fits(done, out.Length)
      invariant if jumped then afterFirst == NextOff(pkt, off) else NextOff(pkt, cur) == NextOff(pkt, off)
      decreases MAX_NAME_JUMPS - jumps, |pkt| - cur
    {
      if cur >= |pkt| {
        ProgressBroken(pkt, off, MAX_NAME_JUMPS, cur, jumps, done);
        return false, off;
      }
      var len := pkt[cur];
      if len == 0 {
        ProgressRoot(pkt, off, MAX_NAME_JUMPS, cur, jumps, done);
        cur := cur + 1;
        break;
      }
      if len >= 192 {
        if cur + 1 >= |pkt| {
          ProgressBroken(pkt, off, MAX_NAME_JUMPS, cur, jumps, done);
          return false, off;
        }
        var ptr := Pointer(pkt, cur);
        ProgressPointer(pkt, off, MAX_NAME_JUMPS, cur, jumps, done);
        if !jumped { afterFirst := cur + 2; }
        jumped := true;
        if jumps + 1 > MAX_NAME_JUMPS { return false, off; }
        if ptr >= |pkt| { return false, off; }
        cur, jumps := ptr, jumps + 1;
        continue;
      }
      if len > 63 || cur + 1 + len > |pkt| {
        ProgressBroken(pkt, off, MAX_NAME_JUMPS, cur, jumps, done);
        return false, off;
      }
      if outPos + len + 1 >= out.Length {
        NoRoom(pkt, off, cur, jumps, done, out.Length);
        return false, off;
      }
      ghost var l := LabelAt(pkt, cur);
      ProgressLabel(pkt, off, MAX_NAME_JUMPS, cur, jumps, done);
      TakeLabel(done, l, out.Length);
      ValidSnoc(done, l);
      outPos := AppendLabel(out, outPos, pkt, cur + 1, len);
      cur := cur + 1 + len;
      done := done + [l];
    }
    out[outPos] := 0;
    next := if jumped then afterFirst else cur;
    ok := true;
  }

  lemma ValidSnoc(done: seq<seq<byte>>, l: seq<byte>)
    requires ValidLabels(done) && ValidLabel(l)
    ensures ValidLabels(done + [l])
  {
  }

  lemma StartEmpty(pkt: seq<byte>, off: nat, outlen: nat)
    ensures Progress(pkt, off, MAX_NAME_JUMPS, off, 0, []) && Join([]) == [] && Fits([], outlen)
  {
    ProgressStart(pkt, off, MAX_NAME_JUMPS);
  }

  /** Appends one label to the text in `out`, behind a dot unless it is the first. */
  method AppendLabel(out: array<byte>, outPos: nat, src: seq<byte>, start: nat, n: nat) returns (pos: nat)
    requires start + n <= |src| && outPos + n + 1 < out.Length
    modifies out
    ensures pos == outPos + n + (if outPos > 0 then 1 else 0)
    ensures out[..pos] == (if outPos > 0 then old(out[..outPos]) + [DOT] else []) + src[start..start + n]
  {
    pos := outPos;
    if pos > 0 {
      out[pos] := DOT;
      pos := pos + 1;
    }
    ghost var stem := out[..pos];
    CopyIn(out, pos, src, start, n);
    assert out[..pos + n] == stem + src[start..start + n];
    pos := pos + n;
  }

  /** memcpy of `n` bytes of `src` to `out[at..]`. */
  method CopyIn(out: array<byte>, at: nat, src: seq<byte>, start: nat, n: nat)
    requires at + n <= out.Length && start + n <= |src|
    modifies out
    ensures out[..] == old(out[..at]) + src[start..start + n] + old(out[at + n..])
  {
    for i := 0 to n
      invariant out[..at + i] == old(out[..at]) + src[start..start + i]
      invariant out[at + i..] == old(out[at + i..])
    {
      out[at + i] := src[start + i];
      assert src[start..start + i + 1] == src[start..start + i] + [src[start + i]];
    }
  }

  // ----- Encoding a name

  /** Index of the first dot at or after `i`, or the length. */
  function DotIndex(name: seq<byte>, i: nat): (j: nat)
    requires i <= |name|
    ensures i <= j <= |name|
    ensures forall k :: i <= k < j ==> name[k] != DOT
    ensures j < |name| ==> name[j] == DOT
    decreases |name| - i
  {
    if i == |name| || name[i] == DOT then i else DotIndex(name, i + 1)
  }

  /** The labels of dotted text from `i` on; one trailing dot adds none. */
  function Split(name: seq<byte>, i: nat): seq<seq<byte>>
    decreases |name| - i
  {
    if i >= |name| then []
    else [name[i..DotIndex(name, i)]] + Split(name, DotIndex(name, i) + 1)
  }

  function Labels(name: seq<byte>): seq<seq<byte>> { Split(name, 0) }

  /** What `encode_dns_name` writes, or nothing when a label is empty or longer than 63. */
  function Encoded(name: seq<byte>, outlen: nat): Option<seq<byte>> {
    if |name| + 2 > outlen || !ValidLabels(Labels(name)) then None else Some(Wire(Labels(name)))
  }

  /** Writes the name at `out[at..]`, which has room for `outlen` bytes; -1 is failure. */
  method EncodeDnsName(name: seq<byte>, out: array<byte>, at: nat, outlen: nat) returns (n: int)
    requires at + outlen <= out.Length
    modifies out
    ensures match Encoded(name, outlen)
            case None => n == -1
            case Some(w) => n == |w| <= outlen && out[at..at + n] == w
    ensures out[..at] == old(out[..at]) && out[at + outlen..] == old(out[at + outlen..])
  {
    hide Wire, ValidLabels, Flat, Prefixed, Split;
    if |name| + 2 > outlen { return -1; }
    var pos, i := 0, 0;
    ghost var done: seq<seq<byte>> := [];
    FlatEmpty();
    while i < |name|
      invariant pos == i <= |name| + 1
      invariant ValidLabels(done) && Labels(name) == done + Split(name, i)
      invariant out[at..at + pos] == Flat(done)
      invariant out[..at] == old(out[..at]) && out[at + outlen..] == old(out[at + outlen..])
    {
      var j := i;
      while j < |name| && name[j] != DOT
        invariant i <= j <= |name| && DotIndex(name, i) == DotIndex(name, j)
      {
        j := j + 1;
      }
      var len := j - i;
      ghost var l := name[i..j];
      SplitStep(name, i, done);
      if len == 0 || len > 63 {
        BadLabel(done, l, Split(name, j + 1));
        return -1;
      }
      // the second room test of the source cannot fail once |name| + 2 fits
      assert pos + 1 + len + 1 <= outlen;
      FlatSnoc(done, l);
      PutLabel(out, at, pos, outlen, name, i, len);
      pos := pos + 1 + len;
      i := j + 1;
      done := done + [l];
    }
    SplitEnd(name, i, done);
    FlatWire(done);
    out[at + pos] := 0;
    n := pos + 1;
  }

  /** Writes one label behind its length byte. */
  method PutLabel(out: array<byte>, at: nat, pos: nat, outlen: nat, src: seq<byte>, start: nat, n: nat)
    requires 1 <= n <= 63 && start + n <= |src|
    requires pos + 1 + n <= outlen && at + outlen <= out.Length
    modifies out
    ensures out[at..at + pos + 1 + n] == old(out[at..at + pos]) + Prefixed(src[start..start + n])
    ensures out[..at] == old(out[..at]) && out[at + outlen..] == old(out[at + outlen..])
  {
    out[at + pos] := n;
    ghost var stem := out[..at + pos + 1];
    CopyIn(out, at + pos + 1, src, start, n);
    assert out[..at + pos + 1 + n] == stem + src[start..start + n];
  }

  lemma SplitStep(name: seq<byte>, i: nat, done: seq<seq<byte>>)
    requires i < |name|
    ensures var j := DotIndex(name, i);
            done + Split(name, i) == (done + [name[i..j]]) + Split(name, j + 1)
  {
  }

  lemma SplitEnd(name: seq<byte>, i: nat, done: seq<seq<byte>>)
    requires i >= |name|
    ensures done + Split(name, i) == done
  {
  }

  lemma FlatEmpty()
    ensures ValidLabels([]) && Flat([]) == []
  {
  }

  lemma BadLabel(done: seq<seq<byte>>, l: seq<byte>, rest: seq<seq<byte>>)
    requires |l| == 0 || |l| > 63
    ensures !ValidLabels((done + [l]) + rest)
  {
    assert ((done + [l]) + rest)[|done|] == l;
    assert !ValidLabel(l);
  }

  /** The text a name stands for: one trailing dot is no part of it. */
  function Canonical(name: seq<byte>): seq<byte> {
    if name != [] && name[|name| - 1] == DOT then name[..|name| - 1] else name
  }

  lemma {:induction false} JoinSplit(name: seq<byte>, i: nat)
    requires i < |name| && ValidLabels(Split(name, i))
    ensures Split(name, i) != []
    ensures Join(Split(name, i)) == Canonical(name)[i..]
    decreases |name| - i
  {
    hide Split, Join, Canonical;
    var j := DotIndex(name, i);
    var l, rest := name[i..j], Split(name, j + 1);
    SplitAt(name, i);
    JoinCons(l, rest);
    ValidTail(l, rest);
    if j + 1 >= |name| {
      SplitDone(name, j + 1);
      CanonicalEnd(name, i, j);
    } else {
      JoinSplit(name, j + 1);
      CanonicalAt(name, i, j);
    }
  }

  lemma SplitAt(name: seq<byte>, i: nat)
    requires i < |name|
    ensures var j := DotIndex(name, i); Split(name, i) == [name[i..j]] + Split(name, j + 1)
  {
  }

  lemma SplitDone(name: seq<byte>, i: nat)
    requires i >= |name|
    ensures Split(name, i) == []
  {
  }

  lemma JoinCons(l: seq<byte>, rest: seq<seq<byte>>)
    ensures Join([l] + rest) == if rest == [] then l else l + [DOT] + Join(rest)
  {
    assert ([l] + rest)[1..] == rest;
  }

  lemma ValidTail(l: seq<byte>, rest: seq<seq<byte>>)
    ensures ValidLabels([l] + rest) ==> ValidLabels(rest)
  {
    assert ([l] + rest)[1..] == rest;
  }

  lemma CanonicalEnd(name: seq<byte>, i: nat, j: nat)
    requires i <= j <= |name| <= j + 1 && i < |name| && (forall k :: i <= k < j ==> name[k] != DOT)
    requires j < |name| ==> name[j] == DOT
    ensures Canonical(name)[i..] == name[i..j]
  {
  }

  lemma CanonicalAt(name: seq<byte>, i: nat, j: nat)
    requires i <= j && j + 1 < |name| && name[j] == DOT
    ensures Canonical(name)[i..] == name[i..j] + [DOT] + Canonical(name)[j + 1..]
  {
    var c := Canonical(name);
    assert c[i..j] == name[i..j] && c[j] == DOT;
    assert c[i..] == c[i..j] + [c[j]] + c[j + 1..];
  }

  /** Main result: decoding inverts encoding, at any offset of any packet. */
  lemma DecodeInvertsEncode(name: seq<byte>, enclen: nat, pre: seq<byte>, post: seq<byte>, outlen: nat)
    requires Encoded(name, enclen).Some?
    requires |name| + 1 < outlen
    ensures var w := Encoded(name, enclen).value;
            Decode(pre + w + post, |pre|, outlen) == Some(Decoded(Canonical(name), |pre| + |w|))
  {
    var labels := Labels(name);
    WireIsRead(pre, labels, post, MAX_NAME_JUMPS);
    if name != [] {
      JoinSplit(name, 0);
      JoinNonEmpty(labels);
      assert Join(labels) == Canonical(name);
    }
  }

  // ----- The query

  /** %u of a number. */
  function Decimal(n: nat): (r: seq<byte>)
    ensures |r| >= 1 && DOT !in r
    ensures n < 1000 ==> |r| <= 3
    ensures n < 100 ==> |r| <= 2
    ensures n < 10 ==> |r| == 1
  {
    if n < 10 then [48 + n] else Decimal(n / 10) + [48 + n % 10]
  }

  /** "in-addr" and "arpa". */
  const IN_ADDR: seq<byte> := [105, 110, 45, 97, 100, 100, 114]
  const ARPA: seq<byte> := [97, 114, 112, 97]

  function ReverseLabels(a: nat, b: nat, c: nat, d: nat): (r: seq<seq<byte>>)
    requires a <= 255 && b <= 255 && c <= 255 && d <= 255
    ensures ValidLabels(r)
  {
    [Decimal(d), Decimal(c), Decimal(b), Decimal(a), IN_ADDR, ARPA]
  }

  /** snprintf "%u.%u.%u.%u.in-addr.arpa" of d, c, b, a. */
  function ReverseName(a: nat, b: nat, c: nat, d: nat): (r: seq<byte>)
    requires a <= 255 && b <= 255 && c <= 255 && d <= 255
    ensures |r| <= 28
  {
    Decimal(d) + [DOT] + (Decimal(c) + [DOT] + (Decimal(b) + [DOT] + (Decimal(a) + [DOT] + (IN_ADDR + [DOT] + ARPA))))
  }

  lemma {:induction false} SplitShift(x: seq<byte>, r: seq<byte>, i: nat)
    ensures Split(x + r, |x| + i) == Split(r, i)
    decreases |r| - i
  {
    hide DotIndex, Split;
    if i < |r| {
      var j := DotIndex(r, i);
      DotShift(x, r, i);
      SplitAt(r, i);
      SplitAt(x + r, |x| + i);
      SliceShift(x, r, i, j);
      SplitShift(x, r, j + 1);
    } else {
      SplitDone(r, i);
      SplitDone(x + r, |x| + i);
    }
  }

  lemma SliceShift(x: seq<byte>, r: seq<byte>, i: nat, j: nat)
    requires i <= j <= |r|
    ensures (x + r)[|x| + i..|x| + j] == r[i..j]
  {
  }

  lemma {:induction false} DotShift(x: seq<byte>, r: seq<byte>, i: nat)
    requires i <= |r|
    ensures DotIndex(x + r, |x| + i) == |x| + DotIndex(r, i)
    decreases |r| - i
  {
    if i < |r| && r[i] != DOT {
      DotShift(x, r, i + 1);
    }
  }

  /** Splitting at a first dot. */
  lemma LabelsCons(l: seq<byte>, r: seq<byte>)
    requires DOT !in l
    ensures Labels(l + [DOT] + r) == [l] + Labels(r)
  {
    var name := l + [DOT] + r;
    var j := DotIndex(name, 0);
    assert name[|l|] == DOT;
    assert forall k :: 0 <= k < |l| ==> name[k] == l[k] && l[k] in l;
    assert name[0..j] == l;
    SplitShift(l + [DOT], r, 0);
  }

  lemma LabelsOne(l: seq<byte>)
    requires DOT !in l && l != []
    ensures Labels(l) == [l]
  {
    var j := DotIndex(l, 0);
    assert forall k :: 0 <= k < |l| ==> l[k] in l;
    assert l[0..j] == l && Split(l, j + 1) == [];
  }

  lemma ReverseNameLabels(a: nat, b: nat, c: nat, d: nat)
    requires a <= 255 && b <= 255 && c <= 255 && d <= 255
    ensures Labels(ReverseName(a, b, c, d)) == ReverseLabels(a, b, c, d)
  {
    hide Labels, Decimal;
    var r2 := IN_ADDR + [DOT] + ARPA;
    var r3 := Decimal(a) + [DOT] + r2;
    var r4 := Decimal(b) + [DOT] + r3;
    var r5 := Decimal(c) + [DOT] + r4;
    LabelsOne(ARPA);
    LabelsCons(IN_ADDR, ARPA);
    LabelsCons(Decimal(a), r2);
    LabelsCons(Decimal(b), r3);
    LabelsCons(Decimal(c), r4);
    LabelsCons(Decimal(d), r5);
  }

  /** One question: QDCOUNT 1, type PTR, class IN. */
  function Query(txid: nat, name: seq<byte>): seq<byte>
    requires txid < 65536 && ValidLabels(Labels(name))
  {
    PutBe16(txid) + [0, 0, 0, 1, 0, 0, 0, 0, 0, 0] + Wire(Labels(name)) + [0, 12, 0, 1]
  }

  /** Builds the query for the address a.b.c.d; -1 on an octet above 255 or too small a buffer. */
  method BuildQuery(a: nat, b: nat, c: nat, d: nat, buf: array<byte>, txid: nat) returns (n: int)
    requires txid < 65536
    modifies buf
    ensures n == -1 <==> a > 255 || b > 255 || c > 255 || d > 255 || buf.Length < 80
    ensures n != -1 ==>
              && ReverseNameEncodes(a, b, c, d)
              && n == |Query(txid, ReverseName(a, b, c, d))| <= buf.Length
              && buf[..n] == Query(txid, ReverseName(a, b, c, d))
  {
    hide Labels, Wire, ReverseName, ValidLabels, Encoded;
    if a > 255 || b > 255 || c > 255 || d > 255 { return -1; }
    var qname := ReverseName(a, b, c, d);
    if buf.Length < 12 + 64 + 4 { return -1; }
    PutHeader(buf, txid);
    ghost var header := PutBe16(txid) + [0, 0, 0, 1, 0, 0, 0, 0, 0, 0];
    assert buf[..12] == header;
    EncodesInRoom(a, b, c, d, buf.Length - 12 - 4);
    var m := EncodeDnsName(qname, buf, 12, buf.Length - 12 - 4);
    var pos := 12 + m;
    ghost var w := Wire(Labels(qname));
    assert buf[12..pos] == w;
    assert buf[..pos] == header + w;
    buf[pos], buf[pos + 1], buf[pos + 2], buf[pos + 3] := 0, 12, 0, 1;
    assert buf[..pos] == header + w;
    n := pos + 4;
    assert buf[..n] == buf[..pos] + [0, 12, 0, 1];
  }

  /** ID, flags 0, QDCOUNT 1 and three empty counts. */
  method PutHeader(buf: array<byte>, txid: nat)
    requires txid < 65536 && buf.Length >= 12
    modifies buf
    ensures buf[0] == txid / 256 && buf[1] == txid % 256
    ensures buf[5] == 1 && forall i :: 2 <= i < 12 && i != 5 ==> buf[i] == 0
  {
    buf[0] := txid / 256;
    buf[1] := txid % 256;
    buf[2] := 0;
    buf[3] := 0;
    buf[4] := 0;
    buf[5] := 1;
    buf[6] := 0;
    buf[7] := 0;
    buf[8] := 0;
    buf[9] := 0;
    buf[10] := 0;
    buf[11] := 0;
  }

  predicate ReverseNameEncodes(a: nat, b: nat, c: nat, d: nat) {
    a <= 255 && b <= 255 && c <= 255 && d <= 255 && ValidLabels(Labels(ReverseName(a, b, c, d)))
  }

  lemma EncodesInRoom(a: nat, b: nat, c: nat, d: nat, outlen: nat)
    requires a <= 255 && b <= 255 && c <= 255 && d <= 255 && outlen >= 64
    ensures ReverseNameEncodes(a, b, c, d)
    ensures Encoded(ReverseName(a, b, c, d), outlen) == Some(Wire(Labels(ReverseName(a, b, c, d))))
  {
    ReverseNameLabels(a, b, c, d);
  }

  /** The question of the query reads back as the reverse name, followed by PTR and IN. */
  lemma QueryAsksForReverseName(a: nat, b: nat, c: nat, d: nat, txid: nat)
    requires a <= 255 && b <= 255 && c <= 255 && d <= 255 && txid < 65536
    ensures ReverseNameEncodes(a, b, c, d)
    ensures var name := ReverseName(a, b, c, d);
            var q := Query(txid, name);
            && |q| >= 12 && Be16(q, 0) == txid && Be16(q, 2) == 0 && Be16(q, 4) == 1 && Be16(q, 6) == 0
            && Decode(q, 12, MAX_NAME_LEN) == Some(Decoded(name, |q| - 4))
            && Be16(q, |q| - 4) == TYPE_PTR && Be16(q, |q| - 2) == 1
  {
    hide Labels, Wire, ReverseName, Encoded, Decode;
    EncodesInRoom(a, b, c, d, 64);
    var name := ReverseName(a, b, c, d);
    var header := PutBe16(txid) + [0, 0, 0, 1, 0, 0, 0, 0, 0, 0];
    DecodeInvertsEncode(name, 64, header, [0, 12, 0, 1], MAX_NAME_LEN);
    ReverseNameHasNoTrailingDot(a, b, c, d);
    var q := Query(txid, name);
    assert q[|q| - 4..] == [0, 12, 0, 1];
    assert q[|q| - 4] == 0 && q[|q| - 3] == 12 && q[|q| - 2] == 0 && q[|q| - 1] == 1;
  }

  /** The number decimal digits denote. */
  function Denoted(digits: seq<byte>): int {
    if digits == [] then 0 else 10 * Denoted(digits[..|digits| - 1]) + (digits[|digits| - 1] as int - 48)
  }

  predicate AllDigits(digits: seq<byte>) { forall i :: 0 <= i < |digits| ==> 48 <= digits[i] <= 57 }

  lemma {:induction false} DecimalDenotes(n: nat)
    ensures Denoted(Decimal(n)) == n && AllDigits(Decimal(n)) && (n > 0 ==> Decimal(n)[0] != 48)
  {
    var d := Decimal(n);
    if n < 10 {
      assert d[..0] == [];
    } else {
      DecimalDenotes(n / 10);
      assert d[..|d| - 1] == Decimal(n / 10);
    }
  }

  /** The labels of a.b.c.d: the digits of d, c, b and a, and "in-addr" and "arpa". */
  predicate AddressLabels(labels: seq<seq<byte>>, a: nat, b: nat, c: nat, d: nat) {
    && |labels| == 6
    && AllDigits(labels[0]) && Denoted(labels[0]) == d && AllDigits(labels[1]) && Denoted(labels[1]) == c
    && AllDigits(labels[2]) && Denoted(labels[2]) == b && AllDigits(labels[3]) && Denoted(labels[3]) == a
    && labels[4] == Ascii("in-addr") && labels[5] == Ascii("arpa")
  }

  /** Main result: the query for the address a.b.c.d is one question for its labels, type PTR and class IN. */
  lemma QueryNamesAddress(a: nat, b: nat, c: nat, d: nat, txid: nat)
    requires a <= 255 && b <= 255 && c <= 255 && d <= 255 && txid < 65536
    ensures ReverseNameEncodes(a, b, c, d)
    ensures var n := NameAt(Query(txid, ReverseName(a, b, c, d)), 12, 0);
            n.Some? && AddressLabels(n.value.labels, a, b, c, d)
    ensures var q := Query(txid, ReverseName(a, b, c, d));
            && |q| >= 16 && Be16(q, 0) == txid && q[2..12] == [0, 0, 0, 1, 0, 0, 0, 0, 0, 0]
            && NextOff(q, 12) == |q| - 4 && q[|q| - 4..] == [0, 12, 0, 1]
  {
    ReverseLabelsDenote(a, b, c, d);
    EncodesInRoom(a, b, c, d, 64);
    ReverseNameLabels(a, b, c, d);
    hide Decimal, ReverseName, ReverseLabels, Wire, NameAt, NextOff, Labels, AddressLabels;
    var header := PutBe16(txid) + [0, 0, 0, 1, 0, 0, 0, 0, 0, 0];
    WireIsRead(header, ReverseLabels(a, b, c, d), [0, 12, 0, 1], 0);
    HeaderAndTail(txid, Wire(ReverseLabels(a, b, c, d)));
  }

  lemma HeaderAndTail(txid: nat, wire: seq<byte>)
    requires txid < 65536
    ensures var q := PutBe16(txid) + [0, 0, 0, 1, 0, 0, 0, 0, 0, 0] + wire + [0, 12, 0, 1];
            Be16(q, 0) == txid && q[2..12] == [0, 0, 0, 1, 0, 0, 0, 0, 0, 0] && q[|q| - 4..] == [0, 12, 0, 1]
  {
  }

  lemma ReverseLabelsDenote(a: nat, b: nat, c: nat, d: nat)
    requires a <= 255 && b <= 255 && c <= 255 && d <= 255
    ensures AddressLabels(ReverseLabels(a, b, c, d), a, b, c, d)
  {
    DecimalDenotes(a);
    DecimalDenotes(b);
    DecimalDenotes(c);
    DecimalDenotes(d);
    hide Decimal, Denoted, AllDigits;
    assert IN_ADDR == Ascii("in-addr") && ARPA == Ascii("arpa");
  }

  lemma ReverseNameHasNoTrailingDot(a: nat, b: nat, c: nat, d: nat)
    requires a <= 255 && b <= 255 && c <= 255 && d <= 255
    ensures Canonical(ReverseName(a, b, c, d)) == ReverseName(a, b, c, d)
  {
    hide Decimal;
    var r := ReverseName(a, b, c, d);
    assert r[|r| - 1] == ARPA[3];
  }

  // ----- The response

  /** strcasecmp of two buffers, each seen up to its first NUL. */
  predicate CaseEqual(a: seq<byte>, b: seq<byte>) {
    Lower(CStr(a)) == Lower(CStr(b))
  }

  datatype Rec = Rec(owner: seq<byte>, rtype: nat, rdata: nat, next: nat)

  /** The resource record at `off`: owner name, type, where its rdata starts and ends. */
  function RecordAt(pkt: seq<byte>, off: nat): Option<Rec> {
    match Decode(pkt, off, MAX_NAME_LEN)
    case None => None
    case Some(d) =>
      if d.next + 10 > |pkt| then None
      else
        var rdlen := Be16(pkt, d.next + 8);
        if d.next + 10 + rdlen > |pkt| then None
        else Some(Rec(d.text, Be16(pkt, d.next), d.next + 10, d.next + 10 + rdlen))
  }

  /** The records that can be read from `off`, at most `n`. */
  function Records(pkt: seq<byte>, off: nat, n: nat): (r: seq<Rec>)
    ensures |r| <= n
    decreases n
  {
    if n == 0 then []
    else
      match RecordAt(pkt, off)
      case None => []
      case Some(rec) => [rec] + Records(pkt, rec.next, n - 1)
  }

  /** Behind `n` questions. */
  function SkipQuestions(pkt: seq<byte>, off: nat, n: nat): Option<nat>
    decreases n
  {
    if n == 0 then Some(off)
    else
      match Decode(pkt, off, MAX_NAME_LEN)
      case None => None
      case Some(d) => if d.next + 4 > |pkt| then None else SkipQuestions(pkt, d.next + 4, n - 1)
  }

  /** A PTR record whose owner passes the check; no expected name passes every owner. */
  predicate Wanted(rec: Rec, expected: Option<seq<byte>>) {
    rec.rtype == TYPE_PTR && (expected.Some? ==> CaseEqual(rec.owner, expected.value))
  }

  /** The first wanted record; its rdata is the answer, if that decodes. */
  function FirstAnswer(pkt: seq<byte>, recs: seq<Rec>, expected: Option<seq<byte>>, outlen: nat): Option<seq<byte>> {
    if recs == [] then None
    else if Wanted(recs[0], expected) then
      match Decode(pkt, recs[0].rdata, outlen)
      case None => None
      case Some(d) => Some(d.text)
    else FirstAnswer(pkt, recs[1..], expected, outlen)
  }

  /** The answer records of a message whose header and questions can be read. */
  function AnswerSection(pkt: seq<byte>): seq<Rec> {
    if |pkt| < 12 || pkt[2] < 128 then []
    else
      match SkipQuestions(pkt, 12, Be16(pkt, 4))
      case None => []
      case Some(off) => Records(pkt, off, Be16(pkt, 6))
  }

  function Response(pkt: seq<byte>, expected: Option<seq<byte>>, outlen: nat): Option<seq<byte>> {
    FirstAnswer(pkt, AnswerSection(pkt), expected, outlen)
  }

  /** Finds the host name in a response. */
  method ParseResponse(pkt: seq<byte>, out: array<byte>, expected: Option<seq<byte>>) returns (ok: bool)
    requires out.Length > 0
    modifies out
    ensures ok <==> Response(pkt, expected, out.Length).Some?
    ensures ok ==> var t := Response(pkt, expected, out.Length).value;
                   |t| < out.Length && out[..|t| + 1] == t + [0]
  {
    hide Decode;
    if |pkt| < 12 { return false; }
    var flags := Be16(pkt, 2);
    if flags < 0x8000 { return false; }
    var qdcount := Be16(pkt, 4);
    var ancount := Be16(pkt, 6);
    if ancount == 0 { return false; }
    var skipped, off := SkipAllQuestions(pkt, qdcount);
    if !skipped { return false; }
    ok := ScanAnswers(pkt, off, ancount, out, expected);
  }

  method SkipAllQuestions(pkt: seq<byte>, qdcount: nat) returns (ok: bool, off: nat)
    ensures ok <==> SkipQuestions(pkt, 12, qdcount).Some?
    ensures ok ==> SkipQuestions(pkt, 12, qdcount) == Some(off)
  {
    hide Decode;
    off := 12;
    for i := 0 to qdcount
      invariant SkipQuestions(pkt, 12, qdcount) == SkipQuestions(pkt, off, qdcount - i)
    {
      var dummy := new byte[MAX_NAME_LEN];
      var read, next := DecodeDnsName(pkt, off, dummy);
      if !read || next + 4 > |pkt| { return false, off; }
      off := next + 4;
    }
    ok := true;
  }

  method ScanAnswers(pkt: seq<byte>, start: nat, ancount: nat, out: array<byte>, expected: Option<seq<byte>>)
    returns (ok: bool)
    requires out.Length > 0
    modifies out
    ensures ok <==> FirstAnswer(pkt, Records(pkt, start, ancount), expected, out.Length).Some?
    ensures ok ==> var t := FirstAnswer(pkt, Records(pkt, start, ancount), expected, out.Length).value;
                   |t| < out.Length && out[..|t| + 1] == t + [0]
  {
    hide Decode, CaseEqual;
    var off: nat := start;
    for i := 0 to ancount
      invariant FirstAnswer(pkt, Records(pkt, start, ancount), expected, out.Length)
             == FirstAnswer(pkt, Records(pkt, off, ancount - i), expected, out.Length)
    {
      var rname := new byte[MAX_NAME_LEN];
      var read, next := DecodeDnsName(pkt, off, rname);
      if !read || next + 10 > |pkt| { return false; }
      var rtype := Be16(pkt, next);
      var rdlen := Be16(pkt, next + 8);
      ghost var owner := Decode(pkt, off, MAX_NAME_LEN).value.text;
      var rdata := next + 10;
      if rdata + rdlen > |pkt| { return false; }
      ghost var rec := Rec(owner, rtype, rdata, rdata + rdlen);
      assert Records(pkt, off, ancount - i)[0] == rec;
      var seen := CString(rname, owner);
      if expected.Some? && !CaseEqual(seen, expected.value) {
        SameCString(seen, owner, expected.value);
        off := rdata + rdlen;
        continue;
      }
      if expected.Some? { SameCString(seen, owner, expected.value); }
      if rtype == TYPE_PTR {
        var found, _ := DecodeDnsName(pkt, rdata, out);
        return found;
      }
      off := rdata + rdlen;
    }
    ok := false;
  }

  /** The C string in a buffer that holds `text` and a NUL. */
  method CString(buf: array<byte>, ghost text: seq<byte>) returns (s: seq<byte>)
    requires |text| < buf.Length && buf[..|text| + 1] == text + [0]
    ensures s == CStr(text)
  {
    s := CStr(buf[..]);
    assert buf[..] == text + [0] + buf[|text| + 1..];
    CStrStops(text, buf[|text| + 1..]);
  }

  lemma SameCString(seen: seq<byte>, owner: seq<byte>, expected: seq<byte>)
    requires seen == CStr(owner)
    ensures CaseEqual(seen, expected) == CaseEqual(owner, expected)
  {
    CStrNulFree(seen);
  }
}

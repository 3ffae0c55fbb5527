/**
 Domain names on the wire (sections 3.1 and 4.1.4 of RFC 1035): the labels found
 at an offset of a message, following at most a given number of compression
 pointers. Both decoders of the repository are specified through `NameAt`.
 */
module DnsNames {
  import opened Bytes

  const DOT: byte := 46
  const MAX_LABEL := 63

  datatype Name = Name(labels: seq<seq<byte>>, jumps: nat)

  function Pointer(b: seq<byte>, off: nat): (p: nat)
    requires off + 2 <= |b| && b[off] >= 192
    ensures p < 16384
  {
    (b[off] as int - 192) * 256 + b[off + 1]
  }

  /**
   The name at `off`, or nothing when it runs out of the message, has an illegal
   length byte or needs more than `jumps` pointers. The measure is (jumps left,
   bytes left).
   */
  function NameAt(b: seq<byte>, off: nat, jumps: nat): Option<Name>
    decreases jumps, |b| - off
  {
    if off >= |b| then None
    else if b[off] == 0 then Some(Name([], 0))
    else if b[off] >= 192 then
      if off + 2 > |b| || jumps == 0 || Pointer(b, off) >= |b| then None
      else AddJump(NameAt(b, Pointer(b, off), jumps - 1))
    else if b[off] > 63 || off + 1 + b[off] > |b| then None
    else AddLabel(b[off + 1..off + 1 + b[off]], NameAt(b, off + 1 + b[off], jumps))
  }

  function AddJump(n: Option<Name>): Option<Name> {
    match n
    case None => None
    case Some(m) => Some(Name(m.labels, m.jumps + 1))
  }

  function AddLabel(lab: seq<byte>, n: Option<Name>): Option<Name> {
    match n
    case None => None
    case Some(m) => Some(Name([lab] + m.labels, m.jumps))
  }

  /** Where the name field at `off` ends in place: after its root byte or its first pointer. */
  function NextOff(b: seq<byte>, off: nat): nat
    decreases |b| - off
  {
    if off >= |b| then off
    else if b[off] == 0 then off + 1
    else if b[off] >= 192 then off + 2
    else NextOff(b, off + 1 + b[off])
  }

  predicate ValidLabel(lab: seq<byte>) {
    1 <= |lab| <= MAX_LABEL
  }

  predicate ValidLabels(labels: seq<seq<byte>>) {
    forall i :: 0 <= i < |labels| ==> ValidLabel(labels[i])
  }

  /** The dotted text of a list of labels. */
  function Join(labels: seq<seq<byte>>): seq<byte> {
    if labels == [] then []
    else if |labels| == 1 then labels[0]
    else labels[0] + [DOT] + Join(labels[1..])
  }

  /** A label behind its length byte. */
  function Prefixed(lab: seq<byte>): (r: seq<byte>)
    requires ValidLabel(lab)
  {
    [|lab| as byte] + lab
  }

  /** The wire form: length-prefixed labels and the root byte. */
  function Wire(labels: seq<seq<byte>>): seq<byte>
    requires ValidLabels(labels)
  {
    if labels == [] then [0]
    else Prefixed(labels[0]) + Wire(labels[1..])
  }

  // ----- Facts about NameAt

  lemma {:induction false} NameAtValid(b: seq<byte>, off: nat, jumps: nat)
    ensures var n := NameAt(b, off, jumps); n.Some? ==> ValidLabels(n.value.labels) && n.value.jumps <= jumps
    decreases jumps, |b| - off
  {
    if off < |b| && b[off] != 0 {
      if b[off] >= 192 {
        if off + 2 <= |b| && jumps > 0 {
          NameAtValid(b, Pointer(b, off), jumps - 1);
        }
      } else {
        NameAtValid(b, off + 1 + b[off], jumps);
      }
    }
  }

  /** More pointers allowed never changes a name that was found; and a name is found as soon as its own pointers are allowed. */
  lemma {:induction false} NameAtMono(b: seq<byte>, off: nat, few: nat, many: nat)
    requires few <= many
    ensures NameAt(b, off, few).Some? ==> NameAt(b, off, many) == NameAt(b, off, few)
    ensures NameAt(b, off, many).Some? && NameAt(b, off, many).value.jumps <= few ==>
              NameAt(b, off, few) == NameAt(b, off, many)
    decreases few, |b| - off
  {
    if off < |b| && b[off] != 0 {
      if b[off] >= 192 {
        if off + 2 <= |b| && many > 0 {
          if few > 0 {
            NameAtMono(b, Pointer(b, off), few - 1, many - 1);
          }
        }
      } else {
        NameAtMono(b, off + 1 + b[off], few, many);
      }
    }
  }

  /** A pointer to itself resolves under no limit. */
  lemma {:induction false} SelfPointer(b: seq<byte>, off: nat, jumps: nat)
    requires off + 2 <= |b| && b[off] >= 192 && Pointer(b, off) == off
    ensures NameAt(b, off, jumps) == None
    decreases jumps
  {
    if jumps > 0 {
      SelfPointer(b, off, jumps - 1);
    }
  }

  // ----- How far a decoder is

  function Resumed(done: seq<seq<byte>>, jumps: nat, rest: Option<Name>): Option<Name> {
    match rest
    case None => None
    case Some(m) => Some(Name(done + m.labels, jumps + m.jumps))
  }

  /** A decoder that follows at most `limit` pointers has read the labels `done` of the name at
      `start` and followed `jumps` pointers; the rest of the name is at `off`. */
  ghost predicate Progress(b: seq<byte>, start: nat, limit: nat, off: nat, jumps: nat, done: seq<seq<byte>>) {
    && jumps <= limit
    && ValidLabels(done)
    && NameAt(b, start, limit) == Resumed(done, jumps, NameAt(b, off, limit - jumps))
  }

  lemma ProgressStart(b: seq<byte>, start: nat, limit: nat)
    ensures Progress(b, start, limit, start, 0, []) && Join([]) == []
  {
    match NameAt(b, start, limit)
    case None =>
    case Some(m) => assert [] + m.labels == m.labels;
  }

  function LabelAt(b: seq<byte>, off: nat): seq<byte>
    requires off < |b| && off + 1 + b[off] <= |b|
  {
    b[off + 1..off + 1 + b[off]]
  }

  lemma ProgressLabel(b: seq<byte>, start: nat, limit: nat, off: nat, jumps: nat, done: seq<seq<byte>>)
    requires Progress(b, start, limit, off, jumps, done)
    requires off < |b| && 0 < b[off] <= 63 && off + 1 + b[off] <= |b|
    ensures Progress(b, start, limit, off + 1 + b[off], jumps, done + [LabelAt(b, off)])
    ensures NextOff(b, off) == NextOff(b, off + 1 + b[off])
  {
    var l := LabelAt(b, off);
    assert ValidLabel(l);
    match NameAt(b, off + 1 + b[off], limit - jumps)
    case None =>
    case Some(m) => assert done + ([l] + m.labels) == (done + [l]) + m.labels;
  }

  lemma ProgressPointer(b: seq<byte>, start: nat, limit: nat, off: nat, jumps: nat, done: seq<seq<byte>>)
    requires Progress(b, start, limit, off, jumps, done)
    requires off + 2 <= |b| && b[off] >= 192
    ensures NextOff(b, off) == off + 2
    ensures jumps < limit && Pointer(b, off) < |b| ==> Progress(b, start, limit, Pointer(b, off), jumps + 1, done)
    ensures jumps == limit || Pointer(b, off) >= |b| || Pointer(b, off) == off ==> NameAt(b, start, limit) == None
  {
    if Pointer(b, off) == off { SelfPointer(b, off, limit - jumps); }
  }

  /** Running out of the message, or meeting a length byte that is neither label nor pointer. */
  lemma ProgressBroken(b: seq<byte>, start: nat, limit: nat, off: nat, jumps: nat, done: seq<seq<byte>>)
    requires Progress(b, start, limit, off, jumps, done)
    requires || off >= |b|
             || (b[off] >= 192 && off + 2 > |b|)
             || (63 < b[off] < 192)
             || (0 < b[off] <= 63 && off + 1 + b[off] > |b|)
    ensures NameAt(b, start, limit) == None
  {
  }

  lemma ProgressRoot(b: seq<byte>, start: nat, limit: nat, off: nat, jumps: nat, done: seq<seq<byte>>)
    requires Progress(b, start, limit, off, jumps, done)
    requires off < |b| && b[off] == 0
    ensures NameAt(b, start, limit) == Some(Name(done, jumps))
    ensures NextOff(b, off) == off + 1
  {
    assert done + [] == done;
  }

  // ----- Facts about Join

  /** Appending a label to dotted text, the way both decoders build it. */
  lemma {:induction false} JoinSnoc(labels: seq<seq<byte>>, l: seq<byte>)
    ensures Join(labels + [l]) == if labels == [] then l else Join(labels) + [DOT] + l
  {
    if labels == [] {
      assert labels + [l] == [l];
    } else {
      JoinSnoc(labels[1..], l);
      assert (labels + [l])[1..] == labels[1..] + [l];
      if |labels| > 1 {
        assert labels[0] + [DOT] + (Join(labels[1..]) + [DOT] + l) == (labels[0] + [DOT] + Join(labels[1..])) + [DOT] + l;
      }
    }
  }

  lemma {:induction false} JoinAppend(a: seq<seq<byte>>, c: seq<seq<byte>>)
    requires a != []
    ensures |Join(a + c)| >= |Join(a)|
    ensures c != [] ==> |Join(a + c)| == |Join(a)| + 1 + |Join(c)|
    decreases |c|
  {
    if c == [] {
      assert a + c == a;
    } else {
      JoinAppendCons(a, c);
    }
  }

  lemma {:induction false} JoinAppendCons(a: seq<seq<byte>>, c: seq<seq<byte>>)
    requires a != [] && c != []
    ensures |Join(a + c)| == |Join(a)| + 1 + |Join(c)|
  {
    assert (a + c)[1..] == a[1..] + c;
    if |a| == 1 {
      assert a[1..] + c == c;
    } else {
      JoinAppendCons(a[1..], c);
    }
  }

  lemma {:induction false} JoinNonEmpty(labels: seq<seq<byte>>)
    requires ValidLabels(labels)
    ensures Join(labels) == [] <==> labels == []
    ensures |labels| >= 2 ==> |Join(labels)| >= |labels[0]| + 2
    ensures |Join(labels)| + 1 >= 2 * |labels|
  {
    if |labels| >= 1 {
      assert ValidLabel(labels[0]);
      if |labels| >= 2 {
        JoinNonEmpty(labels[1..]);
      }
    }
  }

  // ----- The wire form is read back

  lemma Regroup(a: seq<byte>, b: seq<byte>, c: seq<byte>, d: seq<byte>)
    ensures a + (b + c) + d == a + b + c + d == a + b + (c + d)
  {
  }

  lemma {:induction false} WireIsRead(pre: seq<byte>, labels: seq<seq<byte>>, post: seq<byte>, jumps: nat)
    requires ValidLabels(labels)
    ensures var b := pre + Wire(labels) + post;
            && NameAt(b, |pre|, jumps) == Some(Name(labels, 0))
            && NextOff(b, |pre|) == |pre| + |Wire(labels)|
    decreases |labels|
  {
    var b := pre + Wire(labels) + post;
    if labels == [] {
      assert b[|pre|] == 0;
    } else {
      hide NameAt, NextOff, Prefixed;
      var l := labels[0];
      var pre' := pre + Prefixed(l);
      var w := Wire(labels[1..]);
      WireIsRead(pre', labels[1..], post, jumps);
      LabelIsRead(pre, l, w + post, jumps);
      Regroup(pre, Prefixed(l), w, post);
      assert [l] + labels[1..] == labels;
    }
  }

  lemma LabelIsRead(pre: seq<byte>, l: seq<byte>, rest: seq<byte>, jumps: nat)
    requires ValidLabel(l)
    ensures var b := pre + Prefixed(l) + rest;
            var next := |pre + Prefixed(l)|;
            && NameAt(b, |pre|, jumps) == AddLabel(l, NameAt(b, next, jumps))
            && NextOff(b, |pre|) == NextOff(b, next)
  {
    var b := pre + Prefixed(l) + rest;
    assert b[|pre|] == |l|;
    assert b[|pre| + 1..|pre| + 1 + |l|] == l;
  }

  // ----- Prefixes and pointers

  function Flat(labels: seq<seq<byte>>): seq<byte>
    requires ValidLabels(labels)
  {
    if labels == [] then [] else Prefixed(labels[0]) + Flat(labels[1..])
  }

  lemma {:induction false} FlatSnoc(labels: seq<seq<byte>>, l: seq<byte>)
    requires ValidLabels(labels) && ValidLabel(l)
    ensures ValidLabels(labels + [l])
    ensures Flat(labels + [l]) == Flat(labels) + Prefixed(l)
  {
    if labels == [] {
      assert labels + [l] == [l];
    } else {
      FlatSnoc(labels[1..], l);
      assert (labels + [l])[1..] == labels[1..] + [l];
    }
  }

  lemma {:induction false} FlatWire(labels: seq<seq<byte>>)
    requires ValidLabels(labels)
    ensures Wire(labels) == Flat(labels) + [0]
  {
    if labels != [] {
      FlatWire(labels[1..]);
    }
  }

  /** The labels of a prefix stand before whatever name follows them. */
  function Behind(labels: seq<seq<byte>>, n: Option<Name>): Option<Name> {
    match n
    case None => None
    case Some(m) => Some(Name(labels + m.labels, m.jumps))
  }

  lemma {:induction false} PrefixIsRead(pre: seq<byte>, labels: seq<seq<byte>>, rest: seq<byte>, jumps: nat)
    requires ValidLabels(labels)
    ensures var b := pre + Flat(labels) + rest;
            && NameAt(b, |pre|, jumps) == Behind(labels, NameAt(b, |pre + Flat(labels)|, jumps))
            && NextOff(b, |pre|) == NextOff(b, |pre + Flat(labels)|)
    decreases |labels|
  {
    hide NameAt, NextOff, Prefixed;
    var b := pre + Flat(labels) + rest;
    var n := NameAt(b, |pre + Flat(labels)|, jumps);
    if labels == [] {
      assert n.Some? ==> [] + n.value.labels == n.value.labels;
    } else {
      var l, tail := labels[0], labels[1..];
      LabelIsRead(pre, l, Flat(tail) + rest, jumps);
      Regroup(pre, Prefixed(l), Flat(tail), rest);
      PrefixIsRead(pre + Prefixed(l), tail, rest, jumps);
      assert |pre + Prefixed(l) + Flat(tail)| == |pre + Flat(labels)|;
      if n.Some? { assert [l] + (tail + n.value.labels) == labels + n.value.labels by { assert labels == [l] + tail; } }
    }
  }

  /** The bytes `w` stand at `off`. */
  predicate StandsAt(b: seq<byte>, off: nat, w: seq<byte>) {
    off + |w| <= |b| && b[off..off + |w|] == w
  }

  lemma StandsSplit(b: seq<byte>, off: nat, w: seq<byte>)
    requires StandsAt(b, off, w)
    ensures b == b[..off] + w + b[off + |w|..]
  {
  }

  lemma WireAtIsRead(b: seq<byte>, off: nat, labels: seq<seq<byte>>, jumps: nat)
    requires ValidLabels(labels) && StandsAt(b, off, Wire(labels))
    ensures NameAt(b, off, jumps) == Some(Name(labels, 0)) && NextOff(b, off) == off + |Wire(labels)|
  {
    hide Wire, NameAt, NextOff;
    StandsSplit(b, off, Wire(labels));
    WireIsRead(b[..off], labels, b[off + |Wire(labels)|..], jumps);
  }

  /** Two bytes that point to `t` stand for the name found at `t`, for one pointer more. */
  lemma PointerBytes(b: seq<byte>, off: nat, t: nat, limit: nat)
    requires t < 16384 && StandsAt(b, off, [192 + t / 256, t % 256]) && limit > 0
    ensures NameAt(b, off, limit) == AddJump(NameAt(b, t, limit - 1)) && NextOff(b, off) == off + 2
  {
    assert b[off] == b[off..off + 2][0] == 192 + t / 256 && b[off + 1] == b[off..off + 2][1] == t % 256;
    assert Pointer(b, off) == t;
  }

  /** Labels and a pointer to `t`: the labels, then the name found at `t`. */
  lemma LabelsThenPointer(b: seq<byte>, off: nat, labels: seq<seq<byte>>, t: nat, limit: nat)
    requires t < 16384 && ValidLabels(labels) && limit > 0
    requires StandsAt(b, off, Flat(labels) + [192 + t / 256, t % 256])
    ensures NameAt(b, off, limit) == Behind(labels, AddJump(NameAt(b, t, limit - 1)))
    ensures NextOff(b, off) == off + |Flat(labels)| + 2
  {
    hide NameAt, NextOff, Flat;
    var p: seq<byte> := [192 + t / 256, t % 256];
    var at := off + |Flat(labels)|;
    StandsSplit(b, off, Flat(labels) + p);
    PrefixIsRead(b[..off], labels, p + b[at + 2..], limit);
    assert b == b[..off] + Flat(labels) + (p + b[at + 2..]);
    assert b[at..at + 2] == p;
    PointerBytes(b, at, t, limit);
  }

  /**
   Main result: if a name stands in wire form at any offset `t` below 16384, then labels followed
   by the two bytes that carry `t` mean those labels and that name, with one pointer used, and end
   behind the two bytes (section 4.1.4 of RFC 1035).
   */
  lemma PointerMeansOffset(b: seq<byte>, t: nat, target: seq<seq<byte>>, off: nat, labels: seq<seq<byte>>, limit: nat)
    requires t < 16384 && ValidLabels(target) && StandsAt(b, t, Wire(target)) && limit > 0
    requires ValidLabels(labels) && StandsAt(b, off, Flat(labels) + [192 + t / 256, t % 256])
    ensures NameAt(b, off, limit) == Some(Name(labels + target, 1))
    ensures NextOff(b, off) == off + |Flat(labels)| + 2
  {
    hide NameAt, NextOff, Flat, Wire;
    LabelsThenPointer(b, off, labels, t, limit);
    WireAtIsRead(b, t, target, limit - 1);
  }

  /** What a name field is: its labels in full, or labels and a pointer to where the other ones stand. */
  predicate WrittenAt(b: seq<byte>, off: nat, limit: nat, n: Name, labels: seq<seq<byte>>, t: nat) {
    && ValidLabels(labels)
    && if n.jumps == 0 then labels == n.labels && StandsAt(b, off, Wire(labels))
       else && limit > 0 && t < 16384 && StandsAt(b, off, Flat(labels) + [192 + t / 256, t % 256])
            && NameAt(b, t, limit - 1).Some?
            && n == Name(labels + NameAt(b, t, limit - 1).value.labels, NameAt(b, t, limit - 1).value.jumps + 1)
  }

  /** Main result, the converse: every name that is found is written so; nothing else is a name. */
  lemma {:induction false} NameIsWritten(b: seq<byte>, off: nat, limit: nat) returns (labels: seq<seq<byte>>, t: nat)
    requires NameAt(b, off, limit).Some?
    ensures WrittenAt(b, off, limit, NameAt(b, off, limit).value, labels, t)
    decreases |b| - off
  {
    if b[off] == 0 {
      labels, t := [], 0;
      assert b[off..off + 1] == [0];
    } else if b[off] >= 192 {
      labels, t := [], Pointer(b, off);
      PointerIsWritten(b, off, limit);
    } else {
      var lab, next := b[off + 1..off + 1 + b[off]], off + 1 + b[off];
      var tail, u := NameIsWritten(b, next, limit);
      labels, t := [lab] + tail, u;
      assert Prefixed(lab) == b[off..next];
      hide WrittenAt;
      LabelInFront(b, off, lab, tail, limit, NameAt(b, next, limit).value, t);
    }
  }

  lemma PointerIsWritten(b: seq<byte>, off: nat, limit: nat)
    requires off < |b| && b[off] >= 192 && NameAt(b, off, limit).Some?
    ensures off + 2 <= |b| && WrittenAt(b, off, limit, NameAt(b, off, limit).value, [], Pointer(b, off))
  {
    var t := Pointer(b, off);
    PointerStands(b, off);
    var rest := NameAt(b, t, limit - 1).value;
    assert NameAt(b, off, limit).value == Name(rest.labels, rest.jumps + 1);
    hide NameAt, Pointer, StandsAt;
    assert [] + rest.labels == rest.labels;
    assert Flat([]) + [192 + t / 256, t % 256] == [192 + t / 256, t % 256];
  }

  lemma PointerStands(b: seq<byte>, off: nat)
    requires off + 2 <= |b| && b[off] >= 192
    ensures var t := Pointer(b, off); StandsAt(b, off, [192 + t / 256, t % 256])
  {
    var t := Pointer(b, off);
    var hi, lo := b[off] as int - 192, b[off + 1] as int;
    assert t == hi * 256 + lo && 0 <= lo < 256;
    assert t / 256 == hi && t % 256 == lo;
    assert b[off..off + 2] == [b[off], b[off + 1]];
  }

  lemma LabelInFront(b: seq<byte>, off: nat, lab: seq<byte>, tail: seq<seq<byte>>, limit: nat, n: Name, t: nat)
    requires ValidLabel(lab) && StandsAt(b, off, Prefixed(lab)) && WrittenAt(b, off + 1 + |lab|, limit, n, tail, t)
    ensures WrittenAt(b, off, limit, Name([lab] + n.labels, n.jumps), [lab] + tail, t)
  {
    hide NameAt;
    var labels := [lab] + tail;
    assert labels[1..] == tail;
    if n.jumps == 0 {
      hide Wire;
      assert Wire(labels) == Prefixed(lab) + Wire(tail) by { WireCons(lab, tail); }
      BothStand(b, off, Prefixed(lab), Wire(tail));
    } else {
      var p: seq<byte> := [192 + t / 256, t % 256];
      assert Flat(labels) == Prefixed(lab) + Flat(tail);
      hide Flat, Prefixed;
      BothStand(b, off, Prefixed(lab), Flat(tail) + p);
      assert Prefixed(lab) + Flat(tail) + p == Prefixed(lab) + (Flat(tail) + p);
      var rest := NameAt(b, t, limit - 1).value.labels;
      assert [lab] + (tail + rest) == labels + rest;
    }
  }

  lemma WireCons(lab: seq<byte>, tail: seq<seq<byte>>)
    requires ValidLabel(lab) && ValidLabels(tail)
    ensures ValidLabels([lab] + tail) && Wire([lab] + tail) == Prefixed(lab) + Wire(tail)
  {
    assert ([lab] + tail)[1..] == tail;
  }

  lemma BothStand(b: seq<byte>, off: nat, v: seq<byte>, w: seq<byte>)
    requires StandsAt(b, off, v) && StandsAt(b, off + |v|, w)
    ensures StandsAt(b, off, v + w)
  {
  }
}

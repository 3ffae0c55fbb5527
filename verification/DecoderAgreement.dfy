/**
 The Go decoder of the capture daemon and the C decoder of the mDNS resolver read
 the same names, although one follows 8 pointers and the other 16.
 */
module DecoderAgreement {
  import opened Bytes
  import opened DnsNames
  import Go = DpidDns
  import C = MdnsResolve

  /** When both succeed they give the same name and the same next offset. */
  lemma SameNameAndOffset(b: seq<byte>, off: nat, outlen: nat)
    requires Go.ReadName(b, off).Some? && C.Decode(b, off, outlen).Some?
    ensures Go.ReadName(b, off).value.text == C.Decode(b, off, outlen).value.text
    ensures Go.ReadName(b, off).value.next == C.Decode(b, off, outlen).value.next
  {
    NameAtMono(b, off, Go.GO_JUMPS, C.MAX_NAME_JUMPS);
  }

  /** A name Go reads is read by C too as soon as the buffer has a spare byte. */
  lemma GoThenC(b: seq<byte>, off: nat, outlen: nat)
    requires Go.ReadName(b, off).Some? && |Go.ReadName(b, off).value.text| + 1 < outlen
    ensures C.Decode(b, off, outlen).Some?
  {
    NameAtMono(b, off, Go.GO_JUMPS, C.MAX_NAME_JUMPS);
    NameAtValid(b, off, Go.GO_JUMPS);
    JoinNonEmpty(NameAt(b, off, Go.GO_JUMPS).value.labels);
  }

  /**
   Where exactly they part. With the 256-byte buffers the resolver uses for owner
   names, C reads a name that Go refuses if and only if it takes 9 to 16 pointers:
   Go's limit of 256 turns never decides.
   */
  lemma COnlyExact(b: seq<byte>, off: nat)
    requires C.Decode(b, off, 256).Some?
    ensures NameAt(b, off, 16).Some? && NameAt(b, off, 16).value.jumps <= 16
    ensures Go.ReadName(b, off).None? <==> NameAt(b, off, 16).value.jumps > 8
  {
    var n := NameAt(b, off, C.MAX_NAME_JUMPS).value;
    NameAtMono(b, off, Go.GO_JUMPS, C.MAX_NAME_JUMPS);
    NameAtValid(b, off, C.MAX_NAME_JUMPS);
    JoinNonEmpty(n.labels);
    NameAtValid(b, off, Go.GO_JUMPS);
  }

  /** Go reads a name that C refuses if and only if the buffer is too small. */
  lemma GoOnlyExact(b: seq<byte>, off: nat, outlen: nat)
    requires Go.ReadName(b, off).Some?
    ensures NameAt(b, off, 8).Some?
    ensures C.Decode(b, off, outlen).None? <==> !C.Fits(NameAt(b, off, 8).value.labels, outlen)
  {
    NameAtMono(b, off, Go.GO_JUMPS, C.MAX_NAME_JUMPS);
  }

  /** What each decoder reads: the names of at most 8 pointers and fewer than 256 parts, and those of
      at most 16 pointers that fit the buffer. */
  lemma ReadExactly(b: seq<byte>, off: nat, outlen: nat)
    ensures var n := NameAt(b, off, 8);
            Go.ReadName(b, off).Some? <==> n.Some? && |n.value.labels| + n.value.jumps < 256
    ensures Go.ReadName(b, off).Some? ==> Go.ReadName(b, off).value == Go.GoName(Join(NameAt(b, off, 8).value.labels), NextOff(b, off))
    ensures C.Decode(b, off, outlen).Some? <==> NameAt(b, off, 16).Some? && C.Fits(NameAt(b, off, 16).value.labels, outlen)
    ensures C.Decode(b, off, outlen).Some? ==>
              C.Decode(b, off, outlen).value == C.Decoded(Join(NameAt(b, off, 16).value.labels), NextOff(b, off))
  {
  }

  /** Labels written by the resolver's encoder are read back by the Go decoder as well. */
  lemma GoReadsWire(pre: seq<byte>, labels: seq<seq<byte>>, post: seq<byte>)
    requires ValidLabels(labels) && |labels| < 256
    ensures var b := pre + Wire(labels) + post;
            Go.ReadName(b, |pre|) == Some(Go.GoName(Join(labels), |pre| + |Wire(labels)|))
  {
    WireIsRead(pre, labels, post, Go.GO_JUMPS);
  }

  /**
   Main result: both decoders follow a pointer to any offset below 16384, behind any labels: the
   Go decoder as long as the name has fewer than 255 labels, the C decoder as long as it fits.
   */
  lemma BothFollowPointers(b: seq<byte>, t: nat, target: seq<seq<byte>>, off: nat, labels: seq<seq<byte>>, outlen: nat)
    requires t < 16384 && ValidLabels(target) && StandsAt(b, t, Wire(target))
    requires ValidLabels(labels) && StandsAt(b, off, Flat(labels) + [192 + t / 256, t % 256])
    ensures var name, next := labels + target, off + |Flat(labels)| + 2;
            && Go.ReadName(b, off) == (if |name| < 255 then Some(Go.GoName(Join(name), next)) else None)
            && C.Decode(b, off, outlen) == if C.Fits(name, outlen) then Some(C.Decoded(Join(name), next)) else None
  {
    hide NameAt, NextOff, Flat, Wire, Join, C.Fits;
    PointerMeansOffset(b, t, target, off, labels, Go.GO_JUMPS);
    PointerMeansOffset(b, t, target, off, labels, C.MAX_NAME_JUMPS);
  }
}

/**
 The netlink attribute builder: attributes appended to a fixed buffer, nests opened with a
 placeholder length that is patched once their contents are written.
 */
module NetlinkAttrs {
  import opened Bytes

  function Align(n: nat): (r: nat)
    ensures r % 4 == 0 && n <= r < n + 4
  {
    (n + 3) / 4 * 4
  }

  function Zeros(n: nat): seq<byte> { seq(n, _ => 0) }

  /** A 16-bit field in host order, little-endian, cut to its width. */
  function Le16(v: nat): (r: seq<byte>)
    ensures |r| == 2
  {
    [v % 256, v / 256 % 256]
  }

  function Le16At(b: seq<byte>, i: nat): nat
    requires i + 2 <= |b|
  {
    (b[i] as int) + (b[i + 1] as int) * 256
  }

  function Le32(v: nat): (r: seq<byte>)
    ensures |r| == 4
  {
    Le16(v % 65536) + Le16(v / 65536 % 65536)
  }

  function Le32At(b: seq<byte>, i: nat): nat
    requires i + 4 <= |b|
  {
    (b[i] as int) + (b[i + 1] as int) * 256 + (b[i + 2] as int) * 65536 + (b[i + 3] as int) * 16777216
  }

  /** A 32-bit field is read back from wherever it stands. */
  lemma Le32Read(b: seq<byte>, i: nat, v: nat)
    requires v < 0x1_0000_0000 && i + 4 <= |b| && b[i..i + 4] == Le32(v)
    ensures Le32At(b, i) == v
  {
    var w := Le32(v);
    assert b[i] == w[0] && b[i + 1] == w[1] && b[i + 2] == w[2] && b[i + 3] == w[3];
    var lo, hi := v % 65536, v / 65536 % 65536;
    assert lo == w[0] as int + w[1] as int * 256 && hi == w[2] as int + w[3] as int * 256;
    assert v == hi * 65536 + lo;
  }

  // ----- Attribute trees

  datatype Attr = Leaf(kind: nat, data: seq<byte>) | Nest(kind: nat, children: seq<Attr>)

  function Header(length: nat, kind: nat): (r: seq<byte>)
    ensures |r| == 4
  {
    Le16(length) + Le16(kind)
  }

  function LeafBytes(kind: nat, data: seq<byte>): (r: seq<byte>)
    ensures |r| == Align(4 + |data|)
  {
    Header(4 + |data|, kind) + data + Zeros(Align(4 + |data|) - (4 + |data|))
  }

  /** The wire form: a leaf's length leaves its padding out, a nest's covers all its children. */
  function Encode(a: Attr): (r: seq<byte>)
    ensures |r| >= 4
  {
    match a
    case Leaf(kind, data) => LeafBytes(kind, data)
    case Nest(kind, children) =>
      var inner := EncodeAll(children);
      Header(4 + |inner|, kind) + inner
  }

  function EncodeAll(attrs: seq<Attr>): seq<byte> {
    if attrs == [] then [] else Encode(attrs[0]) + EncodeAll(attrs[1..])
  }

  lemma SumAligned(m: nat, n: nat)
    requires m % 4 == 0 && n % 4 == 0
    ensures (m + n) % 4 == 0
  {
  }

  /** Every attribute, and so every list of them, ends on a boundary of four. */
  lemma {:induction false} EncodeAligned(attrs: seq<Attr>)
    ensures |EncodeAll(attrs)| % 4 == 0
  {
    hide Align, Header, Zeros, LeafBytes;
    if attrs != [] {
      if attrs[0].Nest? {
        EncodeAligned(attrs[0].children);
        SumAligned(4, |EncodeAll(attrs[0].children)|);
      }
      EncodeAligned(attrs[1..]);
      SumAligned(|Encode(attrs[0])|, |EncodeAll(attrs[1..])|);
    }
  }

  // ----- Walking a message

  /** Which attribute types hold attributes, level by level. */
  datatype Schema = Schema(nested: map<nat, Schema>)

  function Walk(b: seq<byte>, schema: Schema): Option<seq<Attr>>
    decreases |b|
  {
    if b == [] then Some([])
    else if |b| < 4 then None
    else
      var length := Le16At(b, 0);
      var kind := Le16At(b, 2);
      if length < 4 || length > |b| then None
      else
        var rest := if Align(length) < |b| then b[Align(length)..] else [];
        if kind in schema.nested then
          match Walk(b[4..length], schema.nested[kind]) {
            case None => None
            case Some(children) => Prepend(Nest(kind, children), Walk(rest, schema))
          }
        else Prepend(Leaf(kind, b[4..length]), Walk(rest, schema))
  }

  function Prepend(a: Attr, rest: Option<seq<Attr>>): Option<seq<Attr>> {
    match rest
    case None => None
    case Some(attrs) => Some([a] + attrs)
  }

  predicate Conforms(a: Attr, schema: Schema) {
    a.kind < 65536
    && match a
       case Leaf(kind, _) => kind !in schema.nested
       case Nest(kind, children) => kind in schema.nested && AllConform(children, schema.nested[kind])
  }

  predicate AllConform(attrs: seq<Attr>, schema: Schema) {
    attrs == [] || (Conforms(attrs[0], schema) && AllConform(attrs[1..], schema))
  }

  lemma HeaderRead(length: nat, kind: nat, rest: seq<byte>)
    requires length < 65536 && kind < 65536
    ensures var b := Header(length, kind) + rest; Le16At(b, 0) == length && Le16At(b, 2) == kind
  {
  }

  /** The first attribute of a list is found where its length says, and the rest behind it. */
  lemma FirstRead(a: Attr, rest: seq<byte>, length: nat, payload: seq<byte>)
    requires a.kind < 65536 && |Encode(a)| < 65536
    requires payload == match a case Leaf(_, data) => data case Nest(_, children) => EncodeAll(children)
    requires length == 4 + |payload|
    ensures var b := Encode(a) + rest;
            && Le16At(b, 0) == length && Le16At(b, 2) == a.kind
            && length <= |b| && b[4..length] == payload
            && Align(length) == |Encode(a)|
            && (if Align(length) < |b| then b[Align(length)..] else []) == rest
  {
    var e := Encode(a);
    var b := e + rest;
    if a.Nest? { EncodeAligned(a.children); }
    var pad := Zeros(Align(length) - length);
    assert e == Header(length, a.kind) + payload + pad;
    hide Encode, EncodeAll, Align, Zeros, Header, LeafBytes, Le16;
    assert b == Header(length, a.kind) + (payload + pad + rest);
    HeaderRead(length, a.kind, payload + pad + rest);
    assert b[|e|..] == rest;
  }

  /** Walking the bytes of any attribute list by aligned length and type gives the list back. */
  lemma {:induction false} WalkInvertsEncode(attrs: seq<Attr>, schema: Schema)
    requires AllConform(attrs, schema) && |EncodeAll(attrs)| < 65536
    ensures Walk(EncodeAll(attrs), schema) == Some(attrs)
  {
    if attrs != [] {
      var a := attrs[0];
      var rest := EncodeAll(attrs[1..]);
      var b := Encode(a) + rest;
      WalkInvertsEncode(attrs[1..], schema);
      var payload := match a case Leaf(_, data) => data case Nest(_, children) => EncodeAll(children);
      FirstRead(a, rest, 4 + |payload|, payload);
      match a {
        case Leaf(_, _) =>
        case Nest(kind, children) => WalkInvertsEncode(children, schema.nested[kind]);
      }
      assert [a] + attrs[1..] == attrs;
    }
  }

  // ----- The builder

  /** Header and data over zeros leave the attribute with its padding, and zeros behind. */
  lemma LeafWritten(base: seq<byte>, room: nat, kind: nat, data: seq<byte>)
    requires Align(4 + |data|) <= room
    ensures var b := base + Header(4 + |data|, kind) + data + Zeros(room - (4 + |data|));
            && b[..|base| + Align(4 + |data|)] == base + LeafBytes(kind, data)
            && b[|base| + Align(4 + |data|)..] == Zeros(room - Align(4 + |data|))
  {
    var length := 4 + |data|;
    var a := Align(length);
    hide Align, Header;
    assert Zeros(room - length) == Zeros(a - length) + Zeros(room - a);
  }

  class NlMessage {
    /** The request; its first four bytes are the place of `len` on the wire. */
    const buf: array<byte>
    /** nlmsg_len */
    var len: nat

    /** Aligned, within the buffer, and nothing but zeros behind. */
    ghost predicate Valid()
      reads this, buf
    {
      len % 4 == 0 && len <= buf.Length && buf[len..] == Zeros(buf.Length - len)
    }

    constructor (fixed: seq<byte>, room: nat)
      requires |fixed| % 4 == 0
      ensures Valid() && fresh(buf) && buf.Length == |fixed| + room && len == |fixed| && buf[..len] == fixed
    {
      buf := new byte[|fixed| + room](i => if 0 <= i < |fixed| then fixed[i] else 0);
      len := |fixed|;
    }

    method PutHeader(at: nat, length: nat, kind: nat)
      requires at + 4 <= buf.Length
      modifies buf
      ensures buf[..] == old(buf[..at]) + Header(length, kind) + old(buf[at + 4..])
    {
      buf[at + 2], buf[at + 3] := kind % 256, kind / 256 % 256;
      buf[at], buf[at + 1] := length % 256, length / 256 % 256;
    }

    /** memcpy into the buffer */
    method Copy(at: nat, data: seq<byte>)
      requires at + |data| <= buf.Length
      modifies buf
      ensures buf[..] == old(buf[..at]) + data + old(buf[at + |data|..])
    {
      forall j | at <= j < at + |data| { buf[j] := data[j - at]; }
    }

    method AddAttrL(kind: nat, data: seq<byte>) returns (ok: bool)
      requires Valid()
      modifies this, buf
      ensures Valid()
      ensures ok == (old(len) + |LeafBytes(kind, data)| <= buf.Length)
      ensures buf[..len] == old(buf[..len]) + if ok then LeafBytes(kind, data) else []
    {
      hide Header, Align, LeafBytes, Zeros, Le16;
      assert |LeafBytes(kind, data)| == Align(4 + |data|);
      var length := 4 + |data|;
      if len + Align(length) > buf.Length {
        assert buf[..len] + [] == buf[..len];
        return false;
      }
      WriteOverZeros(length, kind, data);
      LeafWritten(old(buf[..len]), buf.Length - len, kind, data);
      len := len + Align(length);
      assert buf[..len] == buf[..][..len] && buf[len..] == buf[..][len..];
      return true;
    }

    /** The header and the data of an attribute go over the zeros behind the message. */
    method WriteOverZeros(length: nat, kind: nat, data: seq<byte>)
      requires Valid() && length == 4 + |data| && len + length <= buf.Length
      modifies buf
      ensures buf[..] == old(buf[..len]) + Header(length, kind) + data + Zeros(buf.Length - len - length)
    {
      ghost var base, room := buf[..len], buf.Length - len;
      assert buf[len + 4..] == Zeros(room - 4);
      hide Header, Align;
      PutHeader(len, length, kind);
      ghost var filled := base + Header(length, kind);
      assert buf[..] == filled + Zeros(room - 4);
      assert buf[len + 4 + |data|..] == Zeros(room - length);
      if |data| > 0 {
        assert buf[..len + 4] == filled;
        Copy(len + 4, data);
      }
    }

    method AddAttrNest(kind: nat) returns (nest: Option<nat>)
      requires Valid()
      modifies this, buf
      ensures Valid()
      ensures nest == if old(len) + 4 <= buf.Length then Some(old(len)) else None
      ensures buf[..len] == old(buf[..len]) + if nest.Some? then Header(4, kind) else []
    {
      var at := len;
      var ok := AddAttrL(kind, []);
      assert LeafBytes(kind, []) == Header(4, kind);
      if !ok { return None; }
      return Some(at);
    }

    /** Patches the nest's length to reach from its header to the end. */
    method NestEnd(nest: nat)
      requires Valid() && nest + 4 <= len
      modifies buf
      ensures Valid()
      ensures buf[..len] == old(buf[..len])[..nest] + Le16(len - nest) + old(buf[..len])[nest + 2..]
    {
      buf[nest], buf[nest + 1] := (len - nest) % 256, (len - nest) / 256 % 256;
    }

    /** Serialises a whole tree; it fails exactly when the tree does not fit. */
    method Put(a: Attr) returns (ok: bool)
      requires Valid()
      modifies this, buf
      ensures Valid()
      ensures ok == (old(len) + |Encode(a)| <= buf.Length)
      ensures ok ==> buf[..len] == old(buf[..len]) + Encode(a)
      decreases a
    {
      hide Header, Zeros, Align, LeafBytes, EncodeAll, Le16;
      match a
      case Leaf(kind, data) =>
        ok := AddAttrL(kind, data);
      case Nest(kind, children) =>
        ghost var base := buf[..len];
        var nest := AddAttrNest(kind);
        if nest.None? { return false; }
        ok := PutAll(children);
        if !ok { return false; }
        PatchCloses(base, kind, children, buf[..len]);
        NestEnd(nest.value);
    }

    method PutAll(attrs: seq<Attr>) returns (ok: bool)
      requires Valid()
      modifies this, buf
      ensures Valid()
      ensures ok == (old(len) + |EncodeAll(attrs)| <= buf.Length)
      ensures ok ==> buf[..len] == old(buf[..len]) + EncodeAll(attrs)
      decreases attrs
    {
      if attrs == [] {
        assert buf[..len] + [] == buf[..len];
        return true;
      }
      assert EncodeAll(attrs) == Encode(attrs[0]) + EncodeAll(attrs[1..]);
      hide Encode, EncodeAll;
      ok := Put(attrs[0]);
      if !ok { return false; }
      ok := PutAll(attrs[1..]);
    }
  }

  /** Closing a nest whose contents are written makes its bytes those of the tree. */
  lemma PatchCloses(base: seq<byte>, kind: nat, children: seq<Attr>, open: seq<byte>)
    requires open == base + Header(4, kind) + EncodeAll(children)
    ensures open[..|base|] + Le16(|open| - |base|) + open[|base| + 2..] == base + Encode(Nest(kind, children))
  {
    hide EncodeAll;
  }
}

/**
 The classic BPF program of the packet-capture daemon, and what it accepts.

 The program is kept as the literal instruction table of the source; `Run` is the
 classic BPF machine (accumulator A, index register X, forward jumps only), in
 which a load outside the packet drops it.
 */
module PacketFilter {
  import opened Bytes

  // Opcode fields of linux/filter.h.
  const LD := 0x00
  const LDX := 0x01
  const ALU := 0x04
  const JMP := 0x05
  const RET := 0x06
  const MISC := 0x07

  const H := 0x08
  const B := 0x10
  const ABS := 0x20
  const IND := 0x40
  const MSH := 0xa0

  const JEQ := 0x10
  const JSET := 0x40
  const ADD := 0x00
  const AND := 0x50
  const RSH := 0x70
  const K := 0x00
  const X := 0x08
  const TAX := 0x00

  const WORD := 0x1_0000_0000

  datatype SockFilter = SockFilter(code: nat, k: nat, jt: nat, jf: nat)

  /** A statement, and a conditional jump. */
  function Stmt(code: nat, k: nat): SockFilter { SockFilter(code, k, 0, 0) }

  datatype FilterResult = Program(insns: seq<SockFilter>) | BadCount(count: nat)

  /** The 29-instruction table; a snap length of 0 means 1024. */
  function BuildFilter(snaplen: nat): FilterResult {
    var n := SnapLen(snaplen);
    var prog := Table(n);
    if |prog| != 29 then BadCount(|prog|) else Program(prog)
  }

  function SnapLen(snaplen: nat): nat {
    if snaplen == 0 then 1024 else snaplen
  }

  function Table(snaplen: nat): seq<SockFilter> {
    [
      // EtherType must be IPv4
      Stmt(LD + H + ABS, 12),
      SockFilter(JMP + JEQ + K, 0x0800, 0, 26),
      // dispatch by IP protocol
      Stmt(LD + B + ABS, 23),
      SockFilter(JMP + JEQ + K, 17, 1, 0),
      SockFilter(JMP + JEQ + K, 6, 7, 23),
      // UDP
      Stmt(LD + H + ABS, 20),
      SockFilter(JMP + JSET + K, 0x1fff, 21, 0),
      Stmt(LDX + B + MSH, 14),
      Stmt(LD + H + IND, 14),
      SockFilter(JMP + JEQ + K, 53, 17, 0),
      Stmt(LD + H + IND, 16),
      SockFilter(JMP + JEQ + K, 53, 15, 16),
      // TCP
      Stmt(LD + H + ABS, 20),
      SockFilter(JMP + JSET + K, 0x1fff, 14, 0),
      Stmt(LDX + B + MSH, 14),
      Stmt(LD + H + IND, 14),
      SockFilter(JMP + JEQ + K, 53, 10, 0),
      Stmt(LD + H + IND, 16),
      SockFilter(JMP + JEQ + K, 53, 8, 0),
      SockFilter(JMP + JEQ + K, 443, 0, 8),
      // TLS handshake byte behind the TCP header
      Stmt(LD + B + IND, 26),
      Stmt(ALU + AND + K, 0xf0),
      Stmt(ALU + RSH + K, 2),
      Stmt(ALU + ADD + X, 0),
      Stmt(MISC + TAX, 0),
      Stmt(LD + B + IND, 14),
      SockFilter(JMP + JEQ + K, 0x16, 0, 1),
      // accept, drop
      Stmt(RET + K, snaplen),
      Stmt(RET + K, 0)
    ]
  }

  // ----- The machine

  datatype Machine = Machine(pc: nat, a: nat, x: nat)

  datatype Next = Goto(m: Machine) | Halt(result: nat) | Fault

  /** Logical right shift. */
  function Shr(a: nat, n: nat): nat
    decreases n
  {
    if n == 0 then a else Shr(a / 2, n - 1)
  }

  /** Bitwise AND of two unsigned words. */
  function BitAnd(a: nat, k: nat): nat {
    if a == 0 || k == 0 then 0
    else 2 * BitAnd(a / 2, k / 2) + (if a % 2 == 1 && k % 2 == 1 then 1 else 0)
  }

  function LoadHalf(p: seq<byte>, off: nat): Option<nat> {
    if off + 2 <= |p| then Some(Be16(p, off)) else None
  }

  function LoadByte(p: seq<byte>, off: nat): Option<nat> {
    if off < |p| then Some(p[off]) else None
  }

  /** Loads into A; outside the packet the program returns 0 at once. */
  function LoadA(m: Machine, v: Option<nat>): Next {
    match v
    case Some(a) => Goto(Machine(m.pc + 1, a, m.x))
    case None => Halt(0)
  }

  function Branch(m: Machine, taken: bool, f: SockFilter): Next {
    Goto(Machine(m.pc + 1 + (if taken then f.jt else f.jf), m.a, m.x))
  }

  datatype Op = LdHalfAbs | LdByteAbs | LdHalfInd | LdByteInd | LdxMsh
              | JumpEq | JumpSet | AluAnd | AluRsh | AluAddX | Tax | Ret | Unknown

  /** The instructions the program uses; any other opcode is a fault. */
  function Decode(code: nat): Op {
    if code == LD + H + ABS then LdHalfAbs
    else if code == LD + B + ABS then LdByteAbs
    else if code == LD + H + IND then LdHalfInd
    else if code == LD + B + IND then LdByteInd
    else if code == LDX + B + MSH then LdxMsh
    else if code == JMP + JEQ + K then JumpEq
    else if code == JMP + JSET + K then JumpSet
    else if code == ALU + AND + K then AluAnd
    else if code == ALU + RSH + K then AluRsh
    else if code == ALU + ADD + X then AluAddX
    else if code == MISC + TAX then Tax
    else if code == RET + K then Ret
    else Unknown
  }

  /** X := 4 * (P[off] & 0xf), the IP header length idiom. */
  function LoadMsh(m: Machine, v: Option<nat>): Next {
    match v
    case Some(b) => Goto(Machine(m.pc + 1, m.a, 4 * BitAnd(b, 0xf)))
    case None => Halt(0)
  }

  function SetA(m: Machine, a: nat): Next { Goto(Machine(m.pc + 1, a, m.x)) }

  /** One instruction. */
  function Step(f: SockFilter, p: seq<byte>, m: Machine): Next {
    match Decode(f.code)
    case LdHalfAbs => LoadA(m, LoadHalf(p, f.k))
    case LdByteAbs => LoadA(m, LoadByte(p, f.k))
    case LdHalfInd => LoadA(m, LoadHalf(p, (m.x + f.k) % WORD))
    case LdByteInd => LoadA(m, LoadByte(p, (m.x + f.k) % WORD))
    case LdxMsh => LoadMsh(m, LoadByte(p, f.k))
    case JumpEq => Branch(m, m.a == f.k, f)
    case JumpSet => Branch(m, BitAnd(m.a, f.k) != 0, f)
    case AluAnd => SetA(m, BitAnd(m.a, f.k))
    case AluRsh => SetA(m, Shr(m.a, f.k))
    case AluAddX => SetA(m, (m.a + m.x) % WORD)
    case Tax => Goto(Machine(m.pc + 1, m.a, m.a))
    case Ret => Halt(f.k)
    case Unknown => Fault
  }

  /** Runs to the end; `None` is a fault or a run off the end of the program. */
  function Run(prog: seq<SockFilter>, p: seq<byte>, m: Machine): Option<nat>
    decreases |prog| - m.pc
  {
    if m.pc >= |prog| then None
    else
      match Step(prog[m.pc], p, m)
      case Goto(m') => Run(prog, p, m')
      case Halt(n) => Some(n)
      case Fault => None
  }

  // ----- The meaning

  const DNS_PORT := 53
  const TLS_PORT := 443
  const IPV4 := 0x0800
  const TCP := 6
  const UDP := 17
  const HANDSHAKE := 0x16

  /** The 16-bit field at `off` lies in the packet and has value `v`. */
  predicate Half(p: seq<byte>, off: nat, v: nat) {
    off + 2 <= |p| && Be16(p, off) == v
  }

  predicate UnfragmentedIPv4(p: seq<byte>) {
    && Half(p, 12, IPV4)
    && |p| >= 24
    && Be16(p, 20) % 8192 == 0
  }

  /** The IP header length its own first byte claims. */
  function IpHeaderLen(p: seq<byte>): nat
    requires |p| > 14
  {
    4 * (p[14] % 16)
  }

  predicate DnsPort(p: seq<byte>)
    requires |p| > 14
  {
    var h := IpHeaderLen(p);
    Half(p, 14 + h, DNS_PORT) || Half(p, 16 + h, DNS_PORT)
  }

  /** TCP to port 443 whose first payload byte, found through the TCP data offset, is 0x16. */
  predicate HandshakeTo443(p: seq<byte>)
    requires |p| > 14
  {
    var h := IpHeaderLen(p);
    && Half(p, 16 + h, TLS_PORT)
    && 26 + h < |p|
    && var payload := 14 + h + 4 * (p[26 + h] / 16);
       payload < |p| && p[payload] == HANDSHAKE
  }

  /** The frames the daemon wants to see. */
  predicate Wanted(p: seq<byte>) {
    && UnfragmentedIPv4(p)
    && (|| (p[23] == UDP && DnsPort(p))
        || (p[23] == TCP && (DnsPort(p) || HandshakeTo443(p))))
  }

  // ----- Bit arithmetic

  /** n one bits. */
  function Mask(n: nat): nat {
    if n == 0 then 0 else 2 * Mask(n - 1) + 1
  }

  lemma AndOddMask(a: nat, m: nat)
    ensures BitAnd(a, 2 * m + 1) == 2 * BitAnd(a / 2, m) + a % 2
  {
    assert (2 * m + 1) / 2 == m && (2 * m + 1) % 2 == 1;
  }

  lemma {:induction false} AndLowBits(a: nat, n: nat)
    ensures BitAnd(a, Mask(n)) == a % (Mask(n) + 1)
    decreases n
  {
    if n > 0 {
      var m := Mask(n - 1);
      AndLowBits(a / 2, n - 1);
      AndOddMask(a, m);
      HalveMod(a, m + 1);
      assert 2 * m + 1 + 1 == 2 * (m + 1);
    }
  }

  lemma HalveMod(a: nat, q: nat)
    requires q > 0
    ensures a % (2 * q) == 2 * ((a / 2) % q) + a % 2
  {
    var d, r := (a / 2) / q, (a / 2) % q;
    assert a / 2 == d * q + r;
    calc {
      a;
      2 * (d * q + r) + a % 2;
      { MulTwo(d, q); }
      d * (2 * q) + (2 * r + a % 2);
    }
    ModUnique(a, 2 * q, d, 2 * r + a % 2);
  }

  lemma MulTwo(d: nat, q: nat)
    ensures 2 * (d * q) == d * (2 * q)
  {
  }

  lemma ModUnique(a: nat, m: nat, d: nat, r: nat)
    requires r < m && a == d * m + r
    ensures a % m == r
  {
    var e, t := a / m, a % m;
    assert a == e * m + t;
    if e > d {
      MulMono(d + 1, e, m);
      assert false;
    } else if e < d {
      MulMono(e + 1, d, m);
      assert false;
    }
  }

  lemma MulMono(x: nat, y: nat, m: nat)
    requires x <= y
    ensures x * m <= y * m
  {
    assert y * m == x * m + (y - x) * m;
  }

  /** The high nibble of a byte, as a number of bytes: (v & 0xf0) >> 2. */
  lemma EvenMask(v: nat, m: nat)
    requires m > 0
    ensures BitAnd(v, 2 * m) == 2 * BitAnd(v / 2, m)
  {
  }

  lemma HighNibble(v: byte)
    ensures Shr(BitAnd(v, 0xf0), 2) == 4 * (v / 16)
  {
    hide BitAnd, Shr;
    var q := v / 16;
    Halves(v);
    assert q < 16;
    LowNibble(q);
    FourEvenMasks(v, v / 2, v / 4, v / 8, q);
    ShrTwo(q);
  }

  lemma Halves(v: nat)
    ensures v / 2 / 2 == v / 4 && v / 4 / 2 == v / 8 && v / 8 / 2 == v / 16
  {
  }

  lemma FourEvenMasks(v: nat, v1: nat, v2: nat, v3: nat, q: nat)
    requires v / 2 == v1 && v1 / 2 == v2 && v2 / 2 == v3 && v3 / 2 == q && BitAnd(q, 15) == q
    ensures BitAnd(v, 240) == 16 * q
  {
    hide BitAnd;
    EvenMask(v, 120);
    EvenMask(v1, 60);
    EvenMask(v2, 30);
    EvenMask(v3, 15);
  }

  lemma ShrTwo(q: nat)
    ensures Shr(16 * q, 2) == 4 * q
  {
    assert Shr(16 * q, 2) == Shr(8 * q, 1) == Shr(4 * q, 0);
  }

  lemma LowNibble(v: byte)
    ensures BitAnd(v, 0xf) == v % 16
  {
    AndLowBits(v, 4);
    assert Mask(4) == 15;
  }

  lemma FragmentBits(v: nat)
    ensures BitAnd(v, 0x1fff) == v % 8192
  {
    AndLowBits(v, 13);
    assert Mask(7) == 127;
    assert Mask(13) == 8191;
  }

  // ----- The program means the predicate, block by block

  lemma Execute(prog: seq<SockFilter>, p: seq<byte>, m: Machine, f: SockFilter)
    requires m.pc < |prog| && prog[m.pc] == f
    ensures Step(f, p, m).Goto? ==> Run(prog, p, m) == Run(prog, p, Step(f, p, m).m)
    ensures Step(f, p, m).Halt? ==> Run(prog, p, m) == Some(Step(f, p, m).result)
  {
  }

  predicate Returns(prog: seq<SockFilter>, n: nat) {
    && |prog| == 29
    && prog[27] == Stmt(RET + K, n)
    && prog[28] == Stmt(RET + K, 0)
  }

  predicate TlsInsns(prog: seq<SockFilter>) {
    && |prog| == 29
    && prog[20] == Stmt(LD + B + IND, 26)
    && prog[21] == Stmt(ALU + AND + K, 0xf0)
    && prog[22] == Stmt(ALU + RSH + K, 2)
    && prog[23] == Stmt(ALU + ADD + X, 0)
    && prog[24] == Stmt(MISC + TAX, 0)
    && prog[25] == Stmt(LD + B + IND, 14)
    && prog[26] == SockFilter(JMP + JEQ + K, 0x16, 0, 1)
  }

  lemma Final(prog: seq<SockFilter>, n: nat, p: seq<byte>, m: Machine)
    requires Returns(prog, n) && (m.pc == 27 || m.pc == 28)
    ensures Run(prog, p, m) == Some(if m.pc == 27 then n else 0)
  {
    Execute(prog, p, m, prog[m.pc]);
  }

  /** Port 443 is established and X is the IP header length: find the TCP header length. */
  lemma TlsHeaderBlock(prog: seq<SockFilter>, p: seq<byte>, a: nat, h: nat)
    requires TlsInsns(prog) && h <= 60
    ensures Run(prog, p, Machine(20, a, h))
         == if 26 + h < |p| then Run(prog, p, Machine(25, 4 * (p[26 + h] / 16) + h, 4 * (p[26 + h] / 16) + h))
            else Some(0)
  {
    hide Run, BitAnd, Shr;
    Execute(prog, p, Machine(20, a, h), Stmt(LD + B + IND, 26));
    if 26 + h < |p| {
      var v := p[26 + h];
      HighNibble(v);
      Execute(prog, p, Machine(21, v, h), Stmt(ALU + AND + K, 0xf0));
      var a1 := BitAnd(v, 0xf0);
      Execute(prog, p, Machine(22, a1, h), Stmt(ALU + RSH + K, 2));
      var a2 := 4 * (v / 16);
      Execute(prog, p, Machine(23, a2, h), Stmt(ALU + ADD + X, 0));
      Execute(prog, p, Machine(24, a2 + h, h), Stmt(MISC + TAX, 0));
    }
  }

  lemma TlsBlock(prog: seq<SockFilter>, n: nat, p: seq<byte>, a: nat)
    requires TlsInsns(prog) && Returns(prog, n)
    requires |p| > 14 && Half(p, 16 + IpHeaderLen(p), TLS_PORT)
    ensures Run(prog, p, Machine(20, a, IpHeaderLen(p))) == Some(if HandshakeTo443(p) then n else 0)
  {
    hide Run;
    var h := IpHeaderLen(p);
    TlsHeaderBlock(prog, p, a, h);
    if 26 + h < |p| {
      var x := 4 * (p[26 + h] / 16) + h;
      Execute(prog, p, Machine(25, x, x), Stmt(LD + B + IND, 14));
      if x + 14 < |p| {
        Execute(prog, p, Machine(26, p[x + 14], x), SockFilter(JMP + JEQ + K, 0x16, 0, 1));
        Final(prog, n, p, Machine(if p[x + 14] == 0x16 then 27 else 28, p[x + 14], x));
      }
    }
  }

  predicate TcpInsns(prog: seq<SockFilter>) {
    && |prog| == 29
    && prog[12] == Stmt(LD + H + ABS, 20)
    && prog[13] == SockFilter(JMP + JSET + K, 0x1fff, 14, 0)
    && prog[14] == Stmt(LDX + B + MSH, 14)
    && prog[15] == Stmt(LD + H + IND, 14)
    && prog[16] == SockFilter(JMP + JEQ + K, 53, 10, 0)
    && prog[17] == Stmt(LD + H + IND, 16)
    && prog[18] == SockFilter(JMP + JEQ + K, 53, 8, 0)
    && prog[19] == SockFilter(JMP + JEQ + K, 443, 0, 8)
  }

  /** Source and destination port tests of the TCP path, X being the IP header length. */
  lemma TcpPortBlock(prog: seq<SockFilter>, n: nat, p: seq<byte>, a: nat)
    requires TcpInsns(prog) && TlsInsns(prog) && Returns(prog, n)
    requires |p| > 14
    ensures Run(prog, p, Machine(15, a, IpHeaderLen(p)))
         == Some(if DnsPort(p) || HandshakeTo443(p) then n else 0)
  {
    hide Run;
    var h := IpHeaderLen(p);
    Execute(prog, p, Machine(15, a, h), Stmt(LD + H + IND, 14));
    if 14 + h + 2 <= |p| {
      var src := Be16(p, 14 + h);
      Execute(prog, p, Machine(16, src, h), SockFilter(JMP + JEQ + K, 53, 10, 0));
      if src == 53 {
        Final(prog, n, p, Machine(27, src, h));
      } else {
        Execute(prog, p, Machine(17, src, h), Stmt(LD + H + IND, 16));
        if 16 + h + 2 <= |p| {
          TcpDestination(prog, n, p);
        }
      }
    }
  }

  lemma TcpDestination(prog: seq<SockFilter>, n: nat, p: seq<byte>)
    requires TcpInsns(prog) && TlsInsns(prog) && Returns(prog, n)
    requires |p| > 14 && 16 + IpHeaderLen(p) + 2 <= |p|
    ensures var h := IpHeaderLen(p);
            var dst := Be16(p, 16 + h);
            Run(prog, p, Machine(18, dst, h)) == Some(if dst == 53 || HandshakeTo443(p) then n else 0)
  {
    hide Run;
    var h := IpHeaderLen(p);
    var dst := Be16(p, 16 + h);
    Execute(prog, p, Machine(18, dst, h), SockFilter(JMP + JEQ + K, 53, 8, 0));
    if dst == 53 {
      Final(prog, n, p, Machine(27, dst, h));
    } else {
      Execute(prog, p, Machine(19, dst, h), SockFilter(JMP + JEQ + K, 443, 0, 8));
      if dst == 443 {
        TlsBlock(prog, n, p, dst);
      } else {
        Final(prog, n, p, Machine(28, dst, h));
      }
    }
  }

  lemma TcpBlock(prog: seq<SockFilter>, n: nat, p: seq<byte>, a: nat)
    requires TcpInsns(prog) && TlsInsns(prog) && Returns(prog, n)
    requires |p| > 23
    ensures Run(prog, p, Machine(12, a, 0))
         == Some(if Be16(p, 20) % 8192 == 0 && (DnsPort(p) || HandshakeTo443(p)) then n else 0)
  {
    hide Run;
    var frag := Be16(p, 20);
    Execute(prog, p, Machine(12, a, 0), Stmt(LD + H + ABS, 20));
    FragmentBits(frag);
    Execute(prog, p, Machine(13, frag, 0), SockFilter(JMP + JSET + K, 0x1fff, 14, 0));
    if frag % 8192 == 0 {
      LowNibble(p[14]);
      Execute(prog, p, Machine(14, frag, 0), Stmt(LDX + B + MSH, 14));
      TcpPortBlock(prog, n, p, frag);
    } else {
      Final(prog, n, p, Machine(28, frag, 0));
    }
  }

  predicate UdpInsns(prog: seq<SockFilter>) {
    && |prog| == 29
    && prog[5] == Stmt(LD + H + ABS, 20)
    && prog[6] == SockFilter(JMP + JSET + K, 0x1fff, 21, 0)
    && prog[7] == Stmt(LDX + B + MSH, 14)
    && prog[8] == Stmt(LD + H + IND, 14)
    && prog[9] == SockFilter(JMP + JEQ + K, 53, 17, 0)
    && prog[10] == Stmt(LD + H + IND, 16)
    && prog[11] == SockFilter(JMP + JEQ + K, 53, 15, 16)
  }

  lemma UdpPortBlock(prog: seq<SockFilter>, n: nat, p: seq<byte>, a: nat)
    requires UdpInsns(prog) && Returns(prog, n)
    requires |p| > 14
    ensures Run(prog, p, Machine(8, a, IpHeaderLen(p))) == Some(if DnsPort(p) then n else 0)
  {
    hide Run;
    var h := IpHeaderLen(p);
    Execute(prog, p, Machine(8, a, h), Stmt(LD + H + IND, 14));
    if 14 + h + 2 <= |p| {
      var src := Be16(p, 14 + h);
      Execute(prog, p, Machine(9, src, h), SockFilter(JMP + JEQ + K, 53, 17, 0));
      if src == 53 {
        Final(prog, n, p, Machine(27, src, h));
      } else {
        Execute(prog, p, Machine(10, src, h), Stmt(LD + H + IND, 16));
        if 16 + h + 2 <= |p| {
          var dst := Be16(p, 16 + h);
          Execute(prog, p, Machine(11, dst, h), SockFilter(JMP + JEQ + K, 53, 15, 16));
          Final(prog, n, p, Machine(if dst == 53 then 27 else 28, dst, h));
        }
      }
    }
  }

  lemma UdpBlock(prog: seq<SockFilter>, n: nat, p: seq<byte>, a: nat)
    requires UdpInsns(prog) && Returns(prog, n)
    requires |p| > 23
    ensures Run(prog, p, Machine(5, a, 0)) == Some(if Be16(p, 20) % 8192 == 0 && DnsPort(p) then n else 0)
  {
    hide Run;
    var frag := Be16(p, 20);
    Execute(prog, p, Machine(5, a, 0), Stmt(LD + H + ABS, 20));
    FragmentBits(frag);
    Execute(prog, p, Machine(6, frag, 0), SockFilter(JMP + JSET + K, 0x1fff, 21, 0));
    if frag % 8192 == 0 {
      LowNibble(p[14]);
      Execute(prog, p, Machine(7, frag, 0), Stmt(LDX + B + MSH, 14));
      UdpPortBlock(prog, n, p, frag);
    } else {
      Final(prog, n, p, Machine(28, frag, 0));
    }
  }

  predicate EntryInsns(prog: seq<SockFilter>) {
    && |prog| == 29
    && prog[0] == Stmt(LD + H + ABS, 12)
    && prog[1] == SockFilter(JMP + JEQ + K, 0x0800, 0, 26)
    && prog[2] == Stmt(LD + B + ABS, 23)
    && prog[3] == SockFilter(JMP + JEQ + K, 17, 1, 0)
    && prog[4] == SockFilter(JMP + JEQ + K, 6, 7, 23)
  }

  lemma EntryBlock(prog: seq<SockFilter>, n: nat, p: seq<byte>)
    requires EntryInsns(prog) && UdpInsns(prog) && TcpInsns(prog) && TlsInsns(prog) && Returns(prog, n)
    ensures Run(prog, p, Machine(0, 0, 0)) == Some(if Wanted(p) then n else 0)
  {
    hide Run;
    Execute(prog, p, Machine(0, 0, 0), Stmt(LD + H + ABS, 12));
    if |p| >= 14 {
      var et := Be16(p, 12);
      Execute(prog, p, Machine(1, et, 0), SockFilter(JMP + JEQ + K, 0x0800, 0, 26));
      if et == 0x0800 {
        Execute(prog, p, Machine(2, et, 0), Stmt(LD + B + ABS, 23));
        if |p| > 23 {
          DispatchBlock(prog, n, p);
        }
      } else {
        Final(prog, n, p, Machine(28, et, 0));
      }
    }
  }

  lemma DispatchBlock(prog: seq<SockFilter>, n: nat, p: seq<byte>)
    requires EntryInsns(prog) && UdpInsns(prog) && TcpInsns(prog) && TlsInsns(prog) && Returns(prog, n)
    requires |p| > 23 && Half(p, 12, IPV4)
    ensures Run(prog, p, Machine(3, p[23], 0)) == Some(if Wanted(p) then n else 0)
  {
    hide Run;
    var proto := p[23];
    Execute(prog, p, Machine(3, proto, 0), SockFilter(JMP + JEQ + K, 17, 1, 0));
    if proto == 17 {
      UdpBlock(prog, n, p, proto);
    } else {
      Execute(prog, p, Machine(4, proto, 0), SockFilter(JMP + JEQ + K, 6, 7, 23));
      if proto == 6 {
        TcpBlock(prog, n, p, proto);
      } else {
        Final(prog, n, p, Machine(28, proto, 0));
      }
    }
  }

  lemma TableLow(n: nat)
    ensures EntryInsns(Table(n)) && UdpInsns(Table(n))
  {
  }

  lemma TableHigh(n: nat)
    ensures TcpInsns(Table(n)) && TlsInsns(Table(n)) && Returns(Table(n), n)
  {
  }

  /** Main result: on every byte string the program halts, with the snap length for the wanted frames and 0 for all others. */
  lemma FilterMeansWanted(snaplen: nat, p: seq<byte>)
    ensures BuildFilter(snaplen).Program?
    ensures Run(BuildFilter(snaplen).insns, p, Machine(0, 0, 0))
         == Some(if Wanted(p) then SnapLen(snaplen) else 0)
  {
    hide Run, Wanted, Table, EntryInsns, UdpInsns, TcpInsns, TlsInsns;
    var n := SnapLen(snaplen);
    TableLow(n);
    TableHigh(n);
    assert Returns(Table(n), n);
    EntryBlock(Table(n), n, p);
  }
}

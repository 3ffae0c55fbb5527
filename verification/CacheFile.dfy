/**
 The file of the hostname cache: the text `hnc_cache_save` prints and the substring
 search with which `hnc_cache_load` reads it back.
 */
module CacheFile {
  import opened Bytes
  import opened JsonEscape

  const COLON: byte := 58
  const COMMA: byte := 44
  const OPEN: byte := 123
  const CLOSE: byte := 125

  // ":{"h":" and ,"s":" and ,"t":
  const HOST_MARK: seq<byte> := [34, 58, 123, 34, 104, 34, 58, 34]
  const SRC_MARK: seq<byte> := [44, 34, 115, 34, 58, 34]
  const TIME_MARK: seq<byte> := [44, 34, 116, 34, 58]

  const MAC_LEN := 17
  const HOST_ROOM := 63
  const SRC_ROOM := 11
  const ESC_SIZE := 128
  const MAX_ENTRIES := 1024

  datatype Record = Record(mac: seq<byte>, hostname: seq<byte>, src: seq<byte>, time: int)

  // ----- Numbers

  function Digits(n: nat): (r: seq<byte>)
    ensures r != [] && forall i :: 0 <= i < |r| ==> 48 <= r[i] <= 57
  {
    if n < 10 then [48 + n] else Digits(n / 10) + [48 + n % 10]
  }

  /** %ld */
  function PrintInt(t: int): seq<byte> {
    if t < 0 then [45] + Digits(-t) else Digits(t)
  }

  const LONG_MAX := 0x7fff_ffff_ffff_ffff
  const LONG_MIN := -0x8000_0000_0000_0000

  function Clamp(v: int): int {
    if v > LONG_MAX then LONG_MAX else if v < LONG_MIN then LONG_MIN else v
  }

  predicate IsBlank(c: byte) { c == 32 || 9 <= c <= 13 }

  function SkipBlanks(text: seq<byte>, i: nat): (j: nat)
    requires i <= |text|
    ensures i <= j <= |text|
    decreases |text| - i
  {
    if i < |text| && IsBlank(text[i]) then SkipBlanks(text, i + 1) else i
  }

  /** The number the digits from `i` on continue `acc` to. */
  function ReadDigits(text: seq<byte>, i: nat, acc: nat): nat
    decreases |text| - i
  {
    if i < |text| && 48 <= text[i] <= 57 then ReadDigits(text, i + 1, 10 * acc + (text[i] as int - 48)) else acc
  }

  /** strtol in base 10 */
  function ReadInt(text: seq<byte>, i: nat): int
    requires i <= |text|
  {
    var j := SkipBlanks(text, i);
    if j < |text| && text[j] == 45 then var v: int := ReadDigits(text, j + 1, 0); Clamp(-v)
    else if j < |text| && text[j] == 43 then Clamp(ReadDigits(text, j + 1, 0))
    else Clamp(ReadDigits(text, j, 0))
  }

  function HexValue(c: byte): Option<nat> {
    if 48 <= c <= 57 then Some(c as int - 48)
    else if 97 <= c <= 102 then Some(c as int - 87)
    else if 65 <= c <= 70 then Some(c as int - 55)
    else None
  }

  /** All of `h` as hexadecimal digits. */
  function HexNumber(h: seq<byte>, acc: nat): Option<nat>
    decreases |h|
  {
    if h == [] then Some(acc)
    else if HexValue(h[0]).Some? then HexNumber(h[1..], 16 * acc + HexValue(h[0]).value)
    else None
  }

  /** strtoul in base 16, when it uses up all of its field: blanks, a sign and 0x are allowed. */
  function ReadHex(h: seq<byte>): Option<nat> {
    var s := h[SkipBlanks(h, 0)..];
    var neg := s != [] && s[0] == 45;
    var t := if s != [] && (s[0] == 45 || s[0] == 43) then s[1..] else s;
    var u := if |t| > 2 && t[0] == 48 && (t[1] == 120 || t[1] == 88) then t[2..] else t;
    if u == [] then None
    else
      match HexNumber(u, 0)
      case None => None
      case Some(v) => Some(if neg && v > 0 then 0x1_0000_0000_0000_0000 - v % 0x1_0000_0000_0000_0000 else v)
  }

  // ----- Printing

  function EntryText(r: Record): seq<byte> {
    [QUOTE] + r.mac + HOST_MARK + Escaped(r.hostname, ESC_SIZE) + [QUOTE] + SRC_MARK + r.src + [QUOTE]
    + TIME_MARK + PrintInt(r.time) + [CLOSE]
  }

  /** The entries from the first or a later one on, and the end of the file. */
  function EntriesText(rs: seq<Record>, first: bool): seq<byte> {
    if rs == [] then [CLOSE, 10]
    else (if first then [] else [COMMA]) + EntryText(rs[0]) + EntriesText(rs[1..], false)
  }

  function FileText(rs: seq<Record>): seq<byte> {
    [OPEN] + EntriesText(rs, true)
  }

  // ----- Reading

  predicate MatchAt(text: seq<byte>, i: nat, pat: seq<byte>) {
    i + |pat| <= |text| && text[i..i + |pat|] == pat
  }

  /** strstr from `i` on. */
  function Find(text: seq<byte>, i: nat, pat: seq<byte>): (p: Option<nat>)
    ensures p.Some? ==> i <= p.value && MatchAt(text, p.value, pat)
    decreases |text| - i
  {
    if i > |text| then None
    else if MatchAt(text, i, pat) then Some(i)
    else Find(text, i + 1, pat)
  }

  /** The bytes a \u escape of value `cp` adds behind `j` bytes; nothing when there is no room. */
  function CodePoint(cp: nat, j: nat): seq<byte> {
    if cp < 0x80 then [cp]
    else if cp < 0x800 && j + 1 < HOST_ROOM then [192 + cp / 64, 128 + cp % 64]
    else if j + 2 < HOST_ROOM then
      [if cp < 0x1_0000 then 224 + cp / 4096 else 255, 128 + cp / 64 % 64, 128 + cp % 64]
    else []
  }

  datatype Piece = Piece(add: seq<byte>, len: nat)

  /** What the reader makes of the text at `q`: an escape or a plain byte. */
  function PieceAt(text: seq<byte>, q: nat, j: nat): (p: Piece)
    requires q < |text|
    ensures p.len > 0 && q + p.len <= |text|
  {
    if text[q] == BACKSLASH && q + 1 < |text| then
      var c := text[q + 1];
      if c == 110 then Piece([10], 2)
      else if c == 114 then Piece([13], 2)
      else if c == 116 then Piece([9], 2)
      else if c == 98 then Piece([8], 2)
      else if c == 102 then Piece([12], 2)
      else if c == 117 && q + 5 < |text| then
        match ReadHex(text[q + 2..q + 6])
        case Some(cp) => Piece(CodePoint(cp, j), 6)
        case None => Piece([c], 2)
      else Piece([c], 2)
    else Piece([text[q]], 1)
  }

  datatype Unescaped = Unescaped(hn: seq<byte>, end: nat)

  /** Reads a host name up to an unescaped quote, the end of the text or 63 bytes. */
  function Unescape(text: seq<byte>, q: nat, hn: seq<byte>): (u: Unescaped)
    requires q <= |text|
    ensures q <= u.end <= |text|
    decreases |text| - q
  {
    if q < |text| && text[q] != QUOTE && |hn| < HOST_ROOM then
      var p := PieceAt(text, q, |hn|);
      Unescape(text, q + p.len, hn + p.add)
    else Unescaped(hn, q)
  }

  /** Where the source field from `s` on ends: at a quote, after 11 bytes or at the end. */
  function SrcEnd(text: seq<byte>, s: nat, i: nat): (r: nat)
    requires s <= i <= |text|
    ensures i <= r <= |text|
    ensures r - s <= SRC_ROOM || r == i
    decreases |text| - i
  {
    if i < |text| && text[i] != QUOTE && i - s < SRC_ROOM then SrcEnd(text, s, i + 1) else i
  }

  /** One match of the host marker: not an entry after all, or an entry and where to go on. */
  datatype Attempt = Retry | Found(rec: Record, next: nat)

  function AttemptAt(text: seq<byte>, p: nat): (a: Attempt)
    requires MatchAt(text, p, HOST_MARK)
    ensures a.Found? ==> p < a.next <= |text|
  {
    if p < 18 || text[p - 18] != QUOTE then Retry
    else
      var u := Unescape(text, p + 8, []);
      if u.end >= |text| || text[u.end] != QUOTE then Retry
      else
        match Find(text, u.end, SRC_MARK)
        case None => Retry
        case Some(m) =>
          var s := m + 6;
          var r := SrcEnd(text, s, s);
          if r >= |text| || text[r] != QUOTE then Retry
          else
            var t := match Find(text, r, TIME_MARK) case None => 0 case Some(k) => ReadInt(text, k + 5);
            Found(Record(text[p - 17..p], u.hn, text[s..r], t), r + 1)
  }

  /** An entry is stored unless its name or source is empty; names end at a NUL. */
  function Stored(r: Record): seq<Record> {
    if r.hostname == [] || r.src == [] then [] else [r.(hostname := CStr(r.hostname))]
  }

  /** All entries read from position `p` on. */
  function ParseFrom(text: seq<byte>, p: nat): seq<Record>
    decreases |text| - p
  {
    match Find(text, p, HOST_MARK)
    case None => []
    case Some(m) =>
      match AttemptAt(text, m)
      case Retry => ParseFrom(text, m + 1)
      case Found(rec, next) => Stored(rec) + ParseFrom(text, next)
  }

  const MAX_FILE := 262144

  /** What loading a file gives; `None` when its size is refused. */
  function Parse(file: seq<byte>): (r: Option<seq<Record>>)
    ensures r.Some? ==> |r.value| <= MAX_ENTRIES
  {
    if |file| == 0 || |file| > MAX_FILE then None
    else
      var rs := ParseFrom(CStr(file), 0);
      Some(if |rs| > MAX_ENTRIES then rs[..MAX_ENTRIES] else rs)
  }
}

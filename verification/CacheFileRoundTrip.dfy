/**
 Loading a saved hostname cache gives its entries back.
 */
module CacheFileRoundTrip {
  import opened Bytes
  import opened JsonEscape
  import opened CacheFile

  // ----- Searching

  /** A match at `p` with none before it, from `i` on, is what strstr finds. */
  lemma {:induction false} FindsFirst(text: seq<byte>, i: nat, pat: seq<byte>, p: nat)
    requires i <= p && MatchAt(text, p, pat)
    requires forall k :: i <= k < p ==> !MatchAt(text, k, pat)
    ensures Find(text, i, pat) == Some(p)
    decreases p - i
  {
    hide MatchAt;
    if i < p {
      assert !MatchAt(text, i, pat);
      Bounded(text, p, pat);
      FindsFirst(text, i + 1, pat, p);
    } else {
      Bounded(text, p, pat);
    }
  }

  lemma Bounded(text: seq<byte>, p: nat, pat: seq<byte>)
    requires MatchAt(text, p, pat)
    ensures p + |pat| <= |text|
  {
  }

  lemma {:induction false} FindsNone(text: seq<byte>, i: nat, pat: seq<byte>)
    requires forall k :: i <= k <= |text| ==> !MatchAt(text, k, pat)
    ensures Find(text, i, pat) == None
    decreases |text| - i
  {
    hide MatchAt;
    if i <= |text| {
      assert !MatchAt(text, i, pat);
      FindsNone(text, i + 1, pat);
    }
  }

  /** The host marker needs a quote, ":{" behind it and another quote. */
  lemma NotHostMark(text: seq<byte>, k: nat)
    requires || k + 8 > |text| || text[k] != QUOTE || text[k + 1] != COLON || text[k + 2] != OPEN || text[k + 3] != QUOTE
    ensures !MatchAt(text, k, HOST_MARK)
  {
    if k + 8 <= |text| {
      var w := text[k..k + 8];
      assert w[0] == text[k] && w[1] == text[k + 1] && w[2] == text[k + 2] && w[3] == text[k + 3];
    }
  }

  lemma MatchIn(pre: seq<byte>, pat: seq<byte>, post: seq<byte>)
    ensures MatchAt(pre + pat + post, |pre|, pat)
  {
  }

  // ----- Numbers

  lemma {:induction false} ReadDigitsStep(pre: seq<byte>, d: seq<byte>, post: seq<byte>, acc: nat)
    requires forall i :: 0 <= i < |d| ==> 48 <= d[i] <= 57
    requires post != [] ==> !(48 <= post[0] <= 57)
    ensures ReadDigits(pre + d + post, |pre|, acc) == Value(d, acc)
    decreases |d|
  {
    var text := pre + d + post;
    if d != [] {
      assert text[|pre|] == d[0];
      assert text == (pre + [d[0]]) + d[1..] + post;
      ReadDigitsStep(pre + [d[0]], d[1..], post, 10 * acc + (d[0] as int - 48));
    } else {
      assert post != [] ==> text[|pre|] == post[0];
    }
  }

  function Value(d: seq<byte>, acc: nat): nat
    requires forall i :: 0 <= i < |d| ==> 48 <= d[i] <= 57
    decreases |d|
  {
    if d == [] then acc else Value(d[1..], 10 * acc + (d[0] as int - 48))
  }

  lemma {:induction false} ValueSnoc(d: seq<byte>, c: byte, acc: nat)
    requires (forall i :: 0 <= i < |d| ==> 48 <= d[i] <= 57) && 48 <= c <= 57
    ensures Value(d + [c], acc) == 10 * Value(d, acc) + (c as int - 48)
    decreases |d|
  {
    if d == [] {
      assert d + [c] == [c];
    } else {
      assert (d + [c])[1..] == d[1..] + [c];
      ValueSnoc(d[1..], c, 10 * acc + (d[0] as int - 48));
    }
  }

  lemma {:induction false} DigitsValue(n: nat)
    ensures Value(Digits(n), 0) == n
  {
    if n >= 10 {
      DigitsValue(n / 10);
      ValueSnoc(Digits(n / 10), 48 + n % 10, 0);
    }
  }

  predicate IsLong(t: int) { LONG_MIN <= t <= LONG_MAX }

  /** strtol reads back what %ld printed. */
  lemma IntRead(pre: seq<byte>, t: int, post: seq<byte>)
    requires IsLong(t) && post != [] && !(48 <= post[0] <= 57)
    ensures ReadInt(pre + PrintInt(t) + post, |pre|) == t
  {
    hide Digits, SkipBlanks, ReadDigits, Value;
    var text := pre + PrintInt(t) + post;
    var d := Digits(if t < 0 then -t else t);
    DigitsValue(if t < 0 then -t else t);
    assert text[|pre|] == if t < 0 then 45 else d[0];
    NoBlanks(text, |pre|);
    if t < 0 {
      assert text == (pre + [45]) + d + post;
      ReadDigitsStep(pre + [45], d, post, 0);
    } else {
      ReadDigitsStep(pre, d, post, 0);
    }
  }

  lemma NoBlanks(text: seq<byte>, i: nat)
    requires i < |text| && !IsBlank(text[i])
    ensures SkipBlanks(text, i) == i
  {
  }

  // ----- Unescaping

  /** One escaped byte is read back as that byte. */
  lemma PieceRead(pre: seq<byte>, c: byte, post: seq<byte>, j: nat)
    requires c != 0
    ensures var text := pre + Esc(c) + post;
            PieceAt(text, |pre|, j) == Piece([c], |Esc(c)|)
  {
    var text := pre + Esc(c) + post;
    var q := |pre|;
    assert text[q] == Esc(c)[0];
    if |Esc(c)| == 2 {
      assert text[q + 1] == Esc(c)[1];
    } else if |Esc(c)| == 6 {
      assert text[q + 1] == Esc(c)[1];
      var h := text[q + 2..q + 6];
      assert h == [48, 48, HexDigit(c / 16), HexDigit(c % 16)];
      ControlHex(c);
    }
  }

  lemma ControlHex(c: byte)
    requires c < 32
    ensures ReadHex([48, 48, HexDigit(c / 16), HexDigit(c % 16)]) == Some(c)
  {
    var a, b := HexDigit(c / 16), HexDigit(c % 16);
    assert HexValue(a) == Some(c / 16) && HexValue(b) == Some(c % 16);
    var h := [48, 48, a, b];
    assert h[0..] == h;
    HexFour(a, b);
  }

  lemma HexFour(a: byte, b: byte)
    requires HexValue(a).Some? && HexValue(b).Some?
    ensures HexNumber([48, 48, a, b], 0) == Some(16 * HexValue(a).value + HexValue(b).value)
  {
    var h := [48, 48, a, b];
    assert h[1..] == [48, a, b] && h[1..][1..] == [a, b] && h[1..][1..][1..] == [b] && h[1..][1..][1..][1..] == [];
    var va, vb := HexValue(a).value, HexValue(b).value;
    assert HexNumber([], 16 * va + vb) == Some(16 * va + vb);
    assert HexNumber([b], va) == Some(16 * va + vb);
    assert HexNumber([a, b], 0) == Some(16 * va + vb);
    assert HexNumber([48, a, b], 0) == Some(16 * va + vb);
  }

  lemma EscNoQuoteFirst(c: byte)
    ensures Esc(c)[0] != QUOTE
  {
  }

  lemma EscCons(s: seq<byte>)
    requires s != []
    ensures EscAll(s) == Esc(s[0]) + EscAll(s[1..])
  {
    assert s == [s[0]] + s[1..];
    EscAppend([s[0]], s[1..]);
    assert [s[0]][..0] == [];
    assert EscAll([s[0]]) == Esc(s[0]);
  }

  /** A host name is read back from its escape; the search for its end never stops inside. */
  lemma {:induction false} NameRead(pre: seq<byte>, done: seq<byte>, s: seq<byte>, post: seq<byte>)
    requires 0 !in s && |done| + |s| <= HOST_ROOM
    ensures var text := pre + EscAll(s) + [QUOTE] + post;
            Unescape(text, |pre|, done) == Unescaped(done + s, |pre| + |EscAll(s)|)
    decreases |s|
  {
    hide Esc, PieceAt, EscAll;
    var text := pre + EscAll(s) + [QUOTE] + post;
    if s == [] {
      assert EscAll(s) == [] by { EscNil(); }
      assert done + s == done && text[|pre|] == QUOTE;
    } else {
      var c, rest := s[0], s[1..];
      EscCons(s);
      PieceRead(pre, c, EscAll(rest) + [QUOTE] + post, |done|);
      assert text == pre + Esc(c) + (EscAll(rest) + [QUOTE] + post);
      EscNoQuoteFirst(c);
      assert text[|pre|] == Esc(c)[0];
      NameRead(pre + Esc(c), done + [c], rest, post);
      assert text == (pre + Esc(c)) + EscAll(rest) + [QUOTE] + post;
      assert (done + [c]) + rest == done + s;
    }
  }

  /** The source field is read up to its quote. */
  lemma {:induction false} SrcRead(pre: seq<byte>, done: nat, s: seq<byte>, post: seq<byte>)
    requires QUOTE !in s && done <= |pre| && done + |s| <= SRC_ROOM
    ensures SrcEnd(pre + s + [QUOTE] + post, |pre| - done, |pre|) == |pre| + |s|
    decreases |s|
  {
    var text := pre + s + [QUOTE] + post;
    if s == [] {
      assert text[|pre|] == QUOTE;
    } else {
      assert text[|pre|] == s[0] && s[0] in s;
      SrcRead(pre + [s[0]], done + 1, s[1..], post);
      assert text == (pre + [s[0]]) + s[1..] + [QUOTE] + post;
    }
  }

  // ----- One entry

  predicate ValidRecord(r: Record) {
    && |r.mac| == MAC_LEN && QUOTE !in r.mac && 0 !in r.mac
    && 1 <= |r.src| <= SRC_ROOM && QUOTE !in r.src && 0 !in r.src
    && 1 <= |r.hostname| <= HOST_ROOM && 0 !in r.hostname
    && IsLong(r.time)
  }

  predicate ValidRecords(rs: seq<Record>) {
    forall r :: r in rs ==> ValidRecord(r)
  }

  /** The record as it comes back: its host name cut to what the escape buffer holds. */
  function Loaded(r: Record): Record {
    r.(hostname := r.hostname[..Kept(r.hostname, ESC_SIZE)])
  }

  function AllLoaded(rs: seq<Record>): (r: seq<Record>)
    ensures |r| == |rs|
  {
    if rs == [] then [] else [Loaded(rs[0])] + AllLoaded(rs[1..])
  }

  /** An entry up to the quote behind its source, and the rest. */
  function Head(r: Record): seq<byte> {
    [QUOTE] + r.mac + HOST_MARK + Escaped(r.hostname, ESC_SIZE) + [QUOTE] + SRC_MARK + r.src + [QUOTE]
  }

  function TimeText(t: int): seq<byte> { TIME_MARK + PrintInt(t) + [CLOSE] }

  lemma EntryIsHeadAndTime(r: Record)
    ensures EntryText(r) == Head(r) + TimeText(r.time)
  {
  }

  lemma MacRead(pre: seq<byte>, mac: seq<byte>, post: seq<byte>)
    requires |mac| == MAC_LEN
    ensures var text := pre + [QUOTE] + mac + HOST_MARK + post;
            var p := |pre| + 18;
            MatchAt(text, p, HOST_MARK) && text[p - 18] == QUOTE && text[p - 17..p] == mac
  {
    var text := pre + [QUOTE] + mac + HOST_MARK + post;
    assert text[|pre|] == QUOTE;
    MatchIn(pre + [QUOTE] + mac, HOST_MARK, post);
  }

  lemma SrcPartRead(pre: seq<byte>, src: seq<byte>, post: seq<byte>)
    requires 1 <= |src| <= SRC_ROOM && QUOTE !in src
    ensures var text := pre + [QUOTE] + SRC_MARK + src + [QUOTE] + post;
            var s := |pre| + 7;
            var r := s + |src|;
            && text[|pre|] == QUOTE
            && Find(text, |pre|, SRC_MARK) == Some(|pre| + 1)
            && SrcEnd(text, s, s) == r && r < |text| && text[r] == QUOTE && text[s..r] == src
  {
    hide MatchAt, Find, SrcEnd;
    var text := pre + [QUOTE] + SRC_MARK + src + [QUOTE] + post;
    var a := pre + [QUOTE];
    assert text[|pre|] == QUOTE;
    MatchIn(a, SRC_MARK, src + [QUOTE] + post);
    assert text == a + SRC_MARK + (src + [QUOTE] + post);
    CommaFirst(text, |pre|, SRC_MARK);
    FindsFirst(text, |pre|, SRC_MARK, |pre| + 1);
    SrcRead(a + SRC_MARK, 0, src, post);
  }

  lemma TimePartRead(pre: seq<byte>, t: int, post: seq<byte>)
    requires IsLong(t)
    ensures var text := pre + [QUOTE] + TimeText(t) + post;
            Find(text, |pre|, TIME_MARK) == Some(|pre| + 1) && |pre| + 6 <= |text| && ReadInt(text, |pre| + 6) == t
  {
    hide ReadInt, PrintInt, MatchAt, Find;
    var text := pre + [QUOTE] + TimeText(t) + post;
    var a := pre + [QUOTE];
    MatchIn(a, TIME_MARK, PrintInt(t) + [CLOSE] + post);
    assert text == a + TIME_MARK + (PrintInt(t) + [CLOSE] + post);
    CommaFirst(text, |pre|, TIME_MARK);
    FindsFirst(text, |pre|, TIME_MARK, |pre| + 1);
    IntRead(a + TIME_MARK, t, [CLOSE] + post);
    assert text == a + TIME_MARK + PrintInt(t) + ([CLOSE] + post);
  }

  /** Behind the host name: the source and the time. */
  lemma SrcAndTimeRead(pre: seq<byte>, src: seq<byte>, t: int, post: seq<byte>)
    requires 1 <= |src| <= SRC_ROOM && QUOTE !in src && IsLong(t)
    ensures var text := pre + [QUOTE] + SRC_MARK + src + [QUOTE] + TimeText(t) + post;
            var s := |pre| + 7;
            var r := s + |src|;
            && text[|pre|] == QUOTE
            && Find(text, |pre|, SRC_MARK) == Some(|pre| + 1)
            && SrcEnd(text, s, s) == r && r < |text| && text[r] == QUOTE && text[s..r] == src
            && Find(text, r, TIME_MARK) == Some(r + 1)
            && r + 6 <= |text| && ReadInt(text, r + 6) == t
  {
    hide ReadInt, MatchAt, Find, SrcEnd, TimeText, IsLong;
    SrcPartRead(pre, src, TimeText(t) + post);
    var b := pre + [QUOTE] + SRC_MARK + src;
    TimePartRead(b, t, post);
    assert b + [QUOTE] + TimeText(t) + post == b + [QUOTE] + (TimeText(t) + post);
  }

  /** No marker that starts with a comma matches at a quote. */
  lemma CommaFirst(text: seq<byte>, k: nat, pat: seq<byte>)
    requires k < |text| && text[k] == QUOTE && pat != [] && pat[0] == COMMA
    ensures !MatchAt(text, k, pat)
  {
    if k + |pat| <= |text| {
      assert text[k..k + |pat|][0] == text[k];
    }
  }

  /** The steps of the reader at one marker, put together. */
  lemma AttemptSteps(text: seq<byte>, p: nat, mac: seq<byte>, u: Unescaped, m: nat, r: nat, k: nat)
    requires MatchAt(text, p, HOST_MARK) && 18 <= p && p + 8 <= |text|
    requires text[p - 18] == QUOTE && text[p - 17..p] == mac
    requires Unescape(text, p + 8, []) == u && u.end < |text| && text[u.end] == QUOTE
    requires Find(text, u.end, SRC_MARK) == Some(m) && m + 6 <= |text|
    requires SrcEnd(text, m + 6, m + 6) == r && r < |text| && text[r] == QUOTE
    requires Find(text, r, TIME_MARK) == Some(k) && k + 5 <= |text|
    ensures AttemptAt(text, p) == Found(Record(mac, u.hn, text[m + 6..r], ReadInt(text, k + 5)), r + 1)
  {
    hide MatchAt, Unescape, Find, SrcEnd, ReadInt;
  }

  lemma EntryRead(pre: seq<byte>, r: Record, post: seq<byte>)
    requires ValidRecord(r)
    ensures var text := pre + EntryText(r) + post;
            var p := |pre| + 18;
            && MatchAt(text, p, HOST_MARK)
            && AttemptAt(text, p) == Found(Loaded(r), |pre| + |Head(r)|)
  {
    hide Kept, EscAll, TimeText, PrintInt, AttemptAt, MatchAt, Find, Unescape, IsLong;
    var host := r.hostname[..Kept(r.hostname, ESC_SIZE)];
    EntryIsHeadAndTime(r);
    EntryPartsRead(pre, r.mac, host, r.src, r.time, post);
    assert pre + EntryText(r) + post == EntryParts(pre, r.mac, EscAll(host), r.src, r.time, post);
  }

  function EntryParts(pre: seq<byte>, mac: seq<byte>, esc: seq<byte>, src: seq<byte>, t: int, post: seq<byte>): seq<byte> {
    pre + [QUOTE] + mac + HOST_MARK + esc + [QUOTE] + SRC_MARK + src + [QUOTE] + TimeText(t) + post
  }

  lemma EntryGroups(a: seq<byte>, e: seq<byte>, q: seq<byte>, m: seq<byte>, s: seq<byte>, t: seq<byte>, post: seq<byte>)
    ensures var tail := m + s + q + t + post;
            var text := a + e + q + m + s + q + t + post;
            text == a + (e + q + tail) && text == a + e + q + tail
  {
  }

  lemma EntryPartsRead(pre: seq<byte>, mac: seq<byte>, host: seq<byte>, src: seq<byte>, t: int, post: seq<byte>)
    requires |mac| == MAC_LEN && |host| <= HOST_ROOM && 0 !in host
    requires 1 <= |src| <= SRC_ROOM && QUOTE !in src && IsLong(t)
    ensures var text := EntryParts(pre, mac, EscAll(host), src, t, post);
            var p := |pre| + 18;
            && MatchAt(text, p, HOST_MARK)
            && AttemptAt(text, p) == Found(Record(mac, host, src, t), p + 8 + |EscAll(host)| + 7 + |src| + 1)
  {
    hide ReadInt, PrintInt, MatchAt, EscAll, Unescape, TimeText, IsLong, AttemptAt, Find, SrcEnd;
    var esc := EscAll(host);
    var text := EntryParts(pre, mac, esc, src, t, post);
    var a := pre + [QUOTE] + mac + HOST_MARK;
    var tail := SRC_MARK + src + [QUOTE] + TimeText(t) + post;
    MacRead(pre, mac, esc + [QUOTE] + tail);
    EntryGroups(a, esc, [QUOTE], SRC_MARK, src, TimeText(t), post);
    NameRead(a, [], host, tail);
    assert [] + host == host;
    SrcAndTimeRead(a + esc, src, t, post);
    var m := |a| + |esc| + 1;
    AttemptSteps(text, |pre| + 18, mac, Unescaped(host, |a| + |esc|), m, m + 6 + |src|, m + 6 + |src| + 1);
  }

  // ----- The gaps between entries hold no host marker

  /** Every quote in the gap is seen, within the gap, not to start the host marker. */
  predicate Clean(gap: seq<byte>) {
    forall k :: 0 <= k < |gap| && gap[k] == QUOTE ==>
      k + 2 < |gap| && (gap[k + 1] != COLON || gap[k + 2] != OPEN)
  }

  lemma TimeTextClean(t: int)
    ensures Clean(TimeText(t)) && Clean(TimeText(t) + [COMMA])
  {
    hide Digits;
    var n := PrintInt(t);
    assert n[0] != OPEN && forall i :: 0 <= i < |n| ==> n[i] != QUOTE;
    var g := TimeText(t);
    assert g[..5] == TIME_MARK && g[5] == n[0];
    assert g[0] == 44 && g[1] == 34 && g[2] == 116 && g[3] == 34 && g[4] == 58;
    assert forall i :: 5 <= i < |g| ==> g[i] != QUOTE;
  }

  lemma NoMarkInGap(pre: seq<byte>, gap: seq<byte>, post: seq<byte>, k: nat)
    requires Clean(gap) && |pre| <= k < |pre| + |gap|
    ensures !MatchAt(pre + gap + post, k, HOST_MARK)
  {
    hide MatchAt;
    var text := pre + gap + post;
    var i := k - |pre|;
    assert text[k] == gap[i];
    if gap[i] == QUOTE {
      assert text[k + 1] == gap[i + 1] && text[k + 2] == gap[i + 2];
    }
    NotHostMark(text, k);
  }

  /** Across a clean gap the search finds the marker of the next entry. */
  lemma FindsEntry(pre: seq<byte>, gap: seq<byte>, r: Record, post: seq<byte>)
    requires Clean(gap) && ValidRecord(r)
    ensures var text := pre + gap + EntryText(r) + post;
            Find(text, |pre|, HOST_MARK) == Some(|pre| + |gap| + 18)
  {
    hide MatchAt, Find, EntryText, ValidRecord, Clean, AttemptAt, Head, Loaded;
    var text := pre + gap + EntryText(r) + post;
    EntryRead(pre + gap, r, post);
    forall k: nat | |pre| <= k < |pre| + |gap| + 18 ensures !MatchAt(text, k, HOST_MARK) {
      NoMarkBefore(pre, gap, r, post, k);
    }
    FindsFirst(text, |pre|, HOST_MARK, |pre| + |gap| + 18);
  }

  lemma NoMarkBefore(pre: seq<byte>, gap: seq<byte>, r: Record, post: seq<byte>, k: nat)
    requires Clean(gap) && ValidRecord(r) && |pre| <= k < |pre| + |gap| + 18
    ensures !MatchAt(pre + gap + EntryText(r) + post, k, HOST_MARK)
  {
    hide MatchAt, EntryText, ValidRecord, Clean;
    if k < |pre| + |gap| {
      NoMarkInGap(pre, gap, EntryText(r) + post, k);
      assert pre + gap + EntryText(r) + post == pre + gap + (EntryText(r) + post);
    } else {
      NoMarkInMac(pre + gap, r, post, k);
    }
  }

  lemma NoMarkInMac(pre: seq<byte>, r: Record, post: seq<byte>, k: nat)
    requires ValidRecord(r) && |pre| <= k < |pre| + 18
    ensures !MatchAt(pre + EntryText(r) + post, k, HOST_MARK)
  {
    hide MatchAt, Escaped, PrintInt, IsLong;
    var text := pre + EntryText(r) + post;
    var at := |pre| + 1;
    assert forall i :: 0 <= i < MAC_LEN ==> text[at + i] == r.mac[i] && r.mac[i] in r.mac;
    if k == |pre| {
      assert text[at + 2] == r.mac[2];
    } else {
      assert text[at + (k - at)] == r.mac[k - at];
    }
    NotHostMark(text, k);
  }

  lemma FindsEnd(pre: seq<byte>, gap: seq<byte>)
    requires Clean(gap)
    ensures Find(pre + gap + [CLOSE, 10], |pre|, HOST_MARK) == None
    ensures ParseFrom(pre + gap + [CLOSE, 10], |pre|) == []
  {
    hide MatchAt;
    var text := pre + gap + [CLOSE, 10];
    forall k | |pre| <= k <= |text| ensures !MatchAt(text, k, HOST_MARK) {
      if k < |pre| + |gap| {
        NoMarkInGap(pre, gap, [CLOSE, 10], k);
      } else {
        NotHostMark(text, k);
      }
    }
    FindsNone(text, |pre|, HOST_MARK);
  }

  // ----- The whole file

  lemma EscLength(s: seq<byte>)
    ensures |EscAll(s)| <= 6 * |s|
  {
    if s != [] {
      EscLength(s[..|s| - 1]);
    }
  }

  /** The escape buffer always keeps some of a non-empty name. */
  lemma KeptNonEmpty(s: seq<byte>)
    requires 1 <= |s| <= HOST_ROOM
    ensures Kept(s, ESC_SIZE) > 0
  {
    hide EscAll, Trailing;
    if |EscAll(s)| + 1 >= ESC_SIZE {
      var i := FillFrom(s, ESC_SIZE, 0);
      assert s[..0] == [] && |EscAll([])| == 0 by { EscNil(); }
      FillIsLongest(s, ESC_SIZE, 0);
      assert i >= 4 by {
        if i < |s| {
          EscLength(s[..i + 1]);
          assert |EscAll(s[..i + 1])| >= ESC_SIZE;
        } else {
          EscLength(s);
        }
      }
      assert BackUp(s[..i]) >= i - 3;
    }
  }

  lemma StoredLoaded(r: Record)
    requires ValidRecord(r)
    ensures Stored(Loaded(r)) == [Loaded(r)]
  {
    hide Kept;
    KeptNonEmpty(r.hostname);
    var h := r.hostname[..Kept(r.hostname, ESC_SIZE)];
    CStrNulFree(h);
  }

  lemma {:induction false} EntriesRead(pre: seq<byte>, gap: seq<byte>, rs: seq<Record>, first: bool)
    requires Clean(gap) && Clean(gap + Separator(first)) && ValidRecords(rs)
    ensures ParseFrom(pre + gap + EntriesText(rs, first), |pre|) == AllLoaded(rs)
    decreases |rs|
  {
    hide Clean, EntryText, ValidRecord, Head, Loaded, MatchAt, AttemptAt, TimeText, Stored, ParseFrom, Find;
    if rs == [] {
      FindsEnd(pre, gap);
    } else {
      var r, rest := rs[0], rs[1..];
      assert r in rs;
      var after := EntriesText(rest, false);
      TimeTextClean(r.time);
      EntriesRead(pre + (gap + Separator(first)) + Head(r), TimeText(r.time), rest, false);
      EntryIsHeadAndTime(r);
      EntriesGroups(pre, gap, Separator(first), EntryText(r), Head(r), TimeText(r.time), after);
      FirstEntry(pre, gap + Separator(first), r, after);
    }
  }

  /** What stands before an entry but the first. */
  function Separator(first: bool): seq<byte> { if first then [] else [COMMA] }

  lemma EntriesGroups(pre: seq<byte>, gap: seq<byte>, sep: seq<byte>, e: seq<byte>, head: seq<byte>, time: seq<byte>, after: seq<byte>)
    requires e == head + time
    ensures pre + gap + (sep + e + after) == pre + (gap + sep) + e + after
    ensures pre + (gap + sep) + e + after == pre + (gap + sep) + head + time + after
  {
  }

  /** One entry behind a clean gap is read, and the reading goes on behind its source. */
  lemma FirstEntry(pre: seq<byte>, gap: seq<byte>, r: Record, after: seq<byte>)
    requires Clean(gap) && ValidRecord(r)
    ensures var text := pre + gap + EntryText(r) + after;
            ParseFrom(text, |pre|) == [Loaded(r)] + ParseFrom(text, |pre + gap + Head(r)|)
  {
    hide Clean, EntryText, ValidRecord, Head, Loaded, MatchAt, AttemptAt, Stored, Find;
    FindsEntry(pre, gap, r, after);
    EntryRead(pre + gap, r, after);
    StoredLoaded(r);
  }

  // ----- No NUL, and small enough

  lemma {:induction false} DigitsLength(n: nat, k: nat, p: nat)
    requires k > 0 && p == TenTo(k) && n < p
    ensures |Digits(n)| <= k
    decreases k
  {
    if n >= 10 {
      DigitsLength(n / 10, k - 1, TenTo(k - 1));
    }
  }

  function TenTo(k: nat): nat { if k == 0 then 1 else 10 * TenTo(k - 1) }

  lemma IntLength(t: int)
    requires IsLong(t)
    ensures |PrintInt(t)| <= 20
  {
    hide Digits;
    assert TenTo(7) == 10_000_000;
    assert TenTo(14) == 100_000_000_000_000;
    assert TenTo(19) == 10_000_000_000_000_000_000;
    DigitsLength(if t < 0 then -t else t, 19, TenTo(19));
  }

  lemma EntryBounds(r: Record)
    requires ValidRecord(r)
    ensures |EntryText(r)| <= 198 && 0 !in EntryText(r)
  {
    hide Digits, EscAll, Kept;
    IntLength(r.time);
    EscNulFree(r.hostname[..Kept(r.hostname, ESC_SIZE)]);
    EscapedFits(r.hostname, ESC_SIZE);
    assert 0 !in PrintInt(r.time);
  }

  /** The escape always leaves room for the NUL. */
  lemma EscapedFits(s: seq<byte>, size: nat)
    requires size > 0
    ensures |Escaped(s, size)| < size
  {
    hide Esc, BackUp;
    assert s[..|s|] == s && s[..0] == [];
    if |EscAll(s)| + 1 >= size {
      FillIsLongest(s, size, 0);
      var i := FillFrom(s, size, 0);
      EscMono(s, BackUp(s[..i]), i);
    }
  }

  lemma {:induction false} EntriesBounds(rs: seq<Record>, first: bool)
    requires ValidRecords(rs)
    ensures |EntriesText(rs, first)| <= 199 * |rs| + 2 && 0 !in EntriesText(rs, first)
    decreases |rs|
  {
    hide EntryText, ValidRecord;
    if rs != [] {
      assert rs[0] in rs;
      EntryBounds(rs[0]);
      EntriesBounds(rs[1..], false);
    }
  }

  /** Even 1024 entries of the largest size stay within the size the loader accepts. */
  lemma FileWithinLimit(rs: seq<Record>)
    requires ValidRecords(rs) && |rs| <= 1024
    ensures 0 < |FileText(rs)| <= 262144 && CStr(FileText(rs)) == FileText(rs)
  {
    hide ValidRecord;
    EntriesBounds(rs, true);
    CStrNulFree(FileText(rs));
  }

  /** Only an empty file and one of more than 256 KB are refused; at most 1024 entries are taken. */
  lemma RefusedSize(file: seq<byte>)
    ensures Parse(file) == None <==> file == [] || |file| > 262144
    ensures Parse(file).Some? ==> |Parse(file).value| <= 1024
  {
  }

  /**
   Main result: a saved file gives back every entry, in order, with its MAC, source and
   time, and with as much of its host name as the escape buffer held.
   */
  lemma SavedIsLoaded(rs: seq<Record>)
    requires ValidRecords(rs) && |rs| <= 1024
    ensures Parse(FileText(rs)) == Some(AllLoaded(rs))
  {
    hide ValidRecords, EntriesText, ParseFrom, CStr, AllLoaded, Clean, Separator;
    FileWithinLimit(rs);
    OpenIsClean();
    EntriesRead([], [OPEN], rs, true);
    assert [] + [OPEN] == [OPEN];
  }

  lemma OpenIsClean()
    ensures Clean([OPEN]) && Clean([OPEN] + Separator(true))
  {
    assert [OPEN] + Separator(true) == [OPEN];
  }

  lemma {:induction false} LoadedUnchanged(rs: seq<Record>)
    requires ValidRecords(rs)
    ensures AllLoaded(rs) == rs <==> forall i :: 0 <= i < |rs| ==> Kept(rs[i].hostname, ESC_SIZE) == |rs[i].hostname|
  {
    hide Kept;
    if rs != [] {
      LoadedUnchanged(rs[1..]);
      assert forall i :: 1 <= i < |rs| ==> rs[i] == rs[1..][i - 1];
      var h := rs[0].hostname;
      assert h[..|h|] == h;
      assert AllLoaded(rs)[0] == Loaded(rs[0]) && AllLoaded(rs)[1..] == AllLoaded(rs[1..]);
      if AllLoaded(rs) == rs {
        assert Loaded(rs[0]).hostname == h;
      }
    }
  }

  /**
   Main result: a saved file gives back exactly what was saved if and only if every escaped name
   fits 126 bytes, or 127 and does not end within a character.
   */
  lemma RestoredExactly(rs: seq<Record>)
    requires ValidRecords(rs) && |rs| <= 1024
    ensures Parse(FileText(rs)) == Some(rs) <==> forall i :: 0 <= i < |rs| ==> FitsWhole(rs[i].hostname, ESC_SIZE)
  {
    hide Kept, EscAll, Parse, FileText, FitsWhole;
    SavedIsLoaded(rs);
    LoadedUnchanged(rs);
    forall i | 0 <= i < |rs|
      ensures FitsWhole(rs[i].hostname, ESC_SIZE) <==> Kept(rs[i].hostname, ESC_SIZE) == |rs[i].hostname|
    {
      KeptWholeExact(rs[i].hostname, ESC_SIZE);
    }
  }

  /** For UTF-8 names 127 bytes are enough. */
  lemma Utf8EndsWhole(s: seq<byte>)
    requires ValidUtf8(s)
    ensures FitsWhole(s, ESC_SIZE) <==> |EscAll(s)| < ESC_SIZE
  {
    hide Kept, EscAll;
    KeptWholeExact(s, ESC_SIZE);
    KeptIsLongest(s, ESC_SIZE);
  }

  /** A name as the cache may hold it, whose escape fits 127 bytes, that does not come back. */
  lemma LoneLeadByteNotRestored(mac: seq<byte>, src: seq<byte>, t: int)
    requires ValidRecord(Record(mac, LONE_LEAD, src, t))
    ensures |EscAll(LONE_LEAD)| < ESC_SIZE && Parse(FileText([Record(mac, LONE_LEAD, src, t)])) != Some([Record(mac, LONE_LEAD, src, t)])
  {
    hide EscAll, Parse, FileText, ValidRecord, EndsWhole;
    LoneLeadByteDropped();
    var rs := [Record(mac, LONE_LEAD, src, t)];
    RestoredExactly(rs);
    assert rs[0].hostname == LONE_LEAD && !FitsWhole(LONE_LEAD, ESC_SIZE);
  }

  // ----- What the file looks like, and what else is read

  /** An entry is `"MAC":{"h":"NAME","s":"SOURCE","t":TIME}`. */
  lemma EntryIsJson(r: Record)
    ensures EntryText(r)
         == Ascii("\"") + r.mac + Ascii("\":{\"h\":\"") + Escaped(r.hostname, 128) + Ascii("\",\"s\":\"") + r.src
            + Ascii("\",\"t\":") + PrintInt(r.time) + Ascii("}")
  {
    hide Escaped, PrintInt;
    var name, time := Escaped(r.hostname, 128), PrintInt(r.time);
    assert Ascii("\"") == [34] && Ascii("}") == [125];
    assert Ascii("\":{\"h\":\"") == HOST_MARK;
    assert Ascii("\",\"s\":\"") == [34] + SRC_MARK;
    assert Ascii("\",\"t\":") == [34] + TIME_MARK;
    hide Ascii;
    Assoc([34] + r.mac + HOST_MARK + name, [34], SRC_MARK);
    Assoc([34] + r.mac + HOST_MARK + name + [34] + SRC_MARK + r.src, [34], TIME_MARK);
  }

  /** The file starts as `{}` and a newline, and one more entry goes before these last two bytes,
      behind a comma unless it is the first. */
  lemma {:induction false} OneMoreEntry(rs: seq<Record>, r: Record, first: bool)
    ensures FileText([]) == [123, 125, 10]
    ensures var t := EntriesText(rs, first);
            && |t| >= 2 && t[|t| - 2..] == [125, 10]
            && EntriesText(rs + [r], first)
               == t[..|t| - 2] + (if first && rs == [] then [] else [44]) + EntryText(r) + [125, 10]
    decreases |rs|
  {
    hide EntryText;
    assert EntriesText([], false) == [125, 10];
    if rs == [] {
      assert ([] + [r])[1..] == [];
    } else {
      OneMoreEntry(rs[1..], r, false);
      assert (rs + [r])[1..] == rs[1..] + [r] && (rs + [r])[0] == rs[0];
      var front, t := (if first then [] else [COMMA]) + EntryText(rs[0]), EntriesText(rs[1..], false);
      assert EntriesText(rs, first) == front + t;
      InsertBehind(front, t, [44], EntryText(r));
    }
  }

  lemma InsertBehind(front: seq<byte>, t: seq<byte>, comma: seq<byte>, entry: seq<byte>)
    requires |t| >= 2
    ensures var u := front + t;
            u[|u| - 2..] == t[|t| - 2..]
            && front + (t[..|t| - 2] + comma + entry + [125, 10]) == u[..|u| - 2] + comma + entry + [125, 10]
  {
  }

  function FourHex(cp: nat): seq<byte>
    requires cp < 65536
  {
    [HexDigit(cp / 4096), HexDigit(cp / 256 % 16), HexDigit(cp / 16 % 16), HexDigit(cp % 16)]
  }

  /** A \u escape of any 16-bit number is read as its UTF-8 form (section 3 of RFC 3629), or as
      nothing when that would not fit behind the `j` bytes already read. */
  lemma UnicodeRead(text: seq<byte>, q: nat, cp: nat, j: nat)
    requires cp < 65536 && q + 6 <= |text| && j < 63 && text[q..q + 6] == [92, 117] + FourHex(cp)
    ensures PieceAt(text, q, j).len == 6 && IsUtf8(PieceAt(text, q, j).add, cp, 63 - j)
  {
    hide CodePoint;
    var h := text[q + 2..q + 6];
    assert text[q] == text[q..q + 6][0] && text[q + 1] == text[q..q + 6][1];
    assert h == FourHex(cp);
    FourDigits(cp);
    CodePointUtf8(cp, j);
  }

  lemma FourDigits(cp: nat)
    requires cp < 65536
    ensures ReadHex(FourHex(cp)) == Some(cp)
  {
    var a, b, c, d := cp / 4096, cp / 256 % 16, cp / 16 % 16, cp % 16;
    Sixteens(cp);
    HexOfFour(a, b, c, d);
    hide ReadHex, HexDigit;
  }

  lemma HexOfFour(a: nat, b: nat, c: nat, d: nat)
    requires a < 16 && b < 16 && c < 16 && d < 16
    ensures ReadHex([HexDigit(a), HexDigit(b), HexDigit(c), HexDigit(d)]) == Some(16 * (16 * (16 * a + b) + c) + d)
  {
    var h := [HexDigit(a), HexDigit(b), HexDigit(c), HexDigit(d)];
    DigitsKnown();
    hide HexDigit, HexValue, HexNumber, ReadHex;
    PlainHex(h);
    NumberOfFour(h, a, b, c, d);
  }

  lemma PlainHex(h: seq<byte>)
    requires |h| == 4 && forall i :: 0 <= i < 4 ==> 48 <= h[i] <= 57 || 97 <= h[i] <= 102
    ensures ReadHex(h) == HexNumber(h, 0)
  {
    hide HexValue, HexNumber;
    assert SkipBlanks(h, 0) == 0;
    assert h[0..] == h;
  }

  lemma Sixteens(cp: nat)
    ensures 16 * (16 * (16 * (cp / 4096) + cp / 256 % 16) + cp / 16 % 16) + cp % 16 == cp
  {
    assert cp / 256 == 16 * (cp / 4096) + cp / 256 % 16;
    assert cp / 16 == 16 * (cp / 256) + cp / 16 % 16;
  }

  lemma NumberOfFour(h: seq<byte>, a: nat, b: nat, c: nat, d: nat)
    requires |h| == 4 && HexValue(h[0]) == Some(a) && HexValue(h[1]) == Some(b) && HexValue(h[2]) == Some(c) && HexValue(h[3]) == Some(d)
    ensures HexNumber(h, 0) == Some(16 * (16 * (16 * a + b) + c) + d)
  {
    hide HexValue;
    var v := 16 * (16 * a + b) + c;
    assert h[1..] == [h[1], h[2], h[3]] && h[1..][1..] == [h[2], h[3]] && h[1..][1..][1..] == [h[3]] && h[1..][1..][1..][1..] == [];
    assert HexNumber([h[3]], v) == HexNumber([], 16 * v + d);
    assert HexNumber([h[2], h[3]], 16 * a + b) == HexNumber([h[3]], v);
    assert HexNumber([h[1], h[2], h[3]], a) == HexNumber([h[2], h[3]], 16 * a + b);
  }

  lemma DigitsKnown()
    ensures forall n: nat :: n < 16 ==> HexValue(HexDigit(n)) == Some(n) && (48 <= HexDigit(n) <= 57 || 97 <= HexDigit(n) <= 102)
  {
  }

  /** The bytes of `cp` in UTF-8, or nothing when there is room for fewer. */
  predicate IsUtf8(r: seq<byte>, cp: nat, room: nat) {
    if cp < 128 then r == [cp]
    else if cp < 2048 then
      if room < 2 then r == [] else |r| == 2 && 192 <= r[0] < 224 && 128 <= r[1] < 192 && (r[0] as int - 192) * 64 + (r[1] as int - 128) == cp
    else
      if room < 3 then r == []
      else && |r| == 3 && 224 <= r[0] < 240 && 128 <= r[1] < 192 && 128 <= r[2] < 192
           && (r[0] as int - 224) * 4096 + (r[1] as int - 128) * 64 + (r[2] as int - 128) == cp
  }

  lemma CodePointUtf8(cp: nat, j: nat)
    requires cp < 65536 && j < 63
    ensures IsUtf8(CodePoint(cp, j), cp, 63 - j)
  {
  }
}

/**
 hnc_json_escape: escaping a C string into a buffer, truncating at a character
 boundary (section 7 of RFC 8259, section 3 of RFC 3629).
 */
module JsonEscape {
  import opened Bytes

  const QUOTE: byte := 34
  const BACKSLASH: byte := 92

  function HexDigit(n: nat): (d: byte)
    requires n < 16
  {
    if n < 10 then 48 + n else 87 + n
  }

  /** The escape of one byte. */
  function Esc(c: byte): (r: seq<byte>)
    ensures 1 <= |r| <= 6
    ensures c >= 32 && c != QUOTE && c != BACKSLASH ==> r == [c]
    ensures c < 128 ==> r[|r| - 1] < 128
  {
    if c == QUOTE || c == BACKSLASH then [BACKSLASH, c]
    else if c == 10 then [BACKSLASH, 110]
    else if c == 13 then [BACKSLASH, 114]
    else if c == 9 then [BACKSLASH, 116]
    else if c < 32 then [BACKSLASH, 117, 48, 48, HexDigit(c / 16), HexDigit(c % 16)]
    else [c]
  }

  function EscAll(s: seq<byte>): (r: seq<byte>)
    ensures |r| >= |s|
  {
    if s == [] then [] else EscAll(s[..|s| - 1]) + Esc(s[|s| - 1])
  }

  lemma EscSnoc(s: seq<byte>, i: nat)
    requires i < |s|
    ensures EscAll(s[..i + 1]) == EscAll(s[..i]) + Esc(s[i])
  {
    assert s[..i + 1][..i] == s[..i];
  }

  lemma EscLast(s: seq<byte>, c: byte)
    ensures EscAll(s + [c]) == EscAll(s) + Esc(c)
  {
    assert (s + [c])[..|s|] == s;
  }

  lemma EscNil()
    ensures EscAll([]) == []
  {
  }

  lemma Assoc(a: seq<byte>, b: seq<byte>, c: seq<byte>)
    ensures a + (b + c) == a + b + c
  {
  }

  lemma {:induction false} EscAppend(a: seq<byte>, b: seq<byte>)
    ensures EscAll(a + b) == EscAll(a) + EscAll(b)
    decreases |b|
  {
    hide Esc, EscAll;
    if b == [] {
      EscNil();
      assert a + b == a && EscAll(a) + [] == EscAll(a);
    } else {
      var b', c := b[..|b| - 1], b[|b| - 1];
      EscAppend(a, b');
      EscLast(b', c);
      EscLast(a + b', c);
      assert b == b' + [c];
      Assoc(a, b', [c]);
      Assoc(EscAll(a), EscAll(b'), Esc(c));
    }
  }

  lemma {:induction false} EscNulFree(s: seq<byte>)
    requires 0 !in s
    ensures 0 !in EscAll(s)
  {
    if s != [] {
      EscNulFree(s[..|s| - 1]);
      assert s[|s| - 1] in s;
      assert 0 !in Esc(s[|s| - 1]);
    }
  }

  lemma EscMono(s: seq<byte>, i: nat, j: nat)
    requires i <= j <= |s|
    ensures EscAll(s[..i]) <= EscAll(s[..j])
  {
    EscAppend(s[..i], s[i..j]);
    assert s[..j] == s[..i] + s[i..j];
  }

  // ----- What a JSON string may hold

  /** Where a JSON string that has been read up to `i` ends: at the first quote that no backslash
      takes along (section 7 of RFC 8259). */
  function StringEnd(t: seq<byte>, i: nat): nat
    decreases |t| - i
  {
    if i >= |t| || t[i] == 34 then i
    else if t[i] == 92 then StringEnd(t, i + 2)
    else StringEnd(t, i + 1)
  }

  /** One escaped byte: printable, and the string goes on behind it. */
  lemma EscIsSafe(pre: seq<byte>, c: byte, post: seq<byte>)
    ensures forall k :: 0 <= k < |Esc(c)| ==> Esc(c)[k] >= 32
    ensures StringEnd(pre + Esc(c) + post, |pre|) == StringEnd(pre + Esc(c) + post, |pre + Esc(c)|)
  {
    var t, e, p := pre + Esc(c) + post, Esc(c), |pre|;
    assert forall k :: 0 <= k < |e| ==> t[p + k] == e[k];
    if |e| == 6 {
      assert StringEnd(t, p) == StringEnd(t, p + 2) == StringEnd(t, p + 3) == StringEnd(t, p + 4);
      assert StringEnd(t, p + 4) == StringEnd(t, p + 5) == StringEnd(t, p + 6);
    }
  }

  /** Main result: an escaped text has no byte below 32, and between two quotes it is one JSON
      string that ends at the second. */
  lemma {:induction false} EscapedIsOneString(pre: seq<byte>, s: seq<byte>, post: seq<byte>)
    ensures forall k :: 0 <= k < |EscAll(s)| ==> EscAll(s)[k] >= 32
    ensures StringEnd(pre + EscAll(s) + [34] + post, |pre|) == |pre + EscAll(s)|
    decreases |s|
  {
    hide Esc;
    if s == [] {
    } else {
      var init, c := s[..|s| - 1], s[|s| - 1];
      assert s == init + [c];
      EscLast(init, c);
      hide EscAll, StringEnd;
      EscapedGoesOn(pre, s, [34] + post);
      EscapedIsOneString(pre, init, post);
      EscIsSafe(pre + EscAll(init), c, [34] + post);
      EndsAtQuote(pre + EscAll(s), post);
      assert pre + EscAll(s) + ([34] + post) == pre + EscAll(s) + [34] + post;
    }
  }

  lemma EndsAtQuote(pre: seq<byte>, post: seq<byte>)
    ensures StringEnd(pre + [34] + post, |pre|) == |pre|
  {
  }

  lemma {:induction false} EscapedGoesOn(pre: seq<byte>, s: seq<byte>, post: seq<byte>)
    ensures StringEnd(pre + EscAll(s) + post, |pre|) == StringEnd(pre + EscAll(s) + post, |pre + EscAll(s)|)
    decreases |s|
  {
    hide Esc, StringEnd;
    if s == [] {
      EscNil();
      assert pre + [] == pre;
    } else {
      var init, c := s[..|s| - 1], s[|s| - 1];
      assert s == init + [c];
      EscLast(init, c);
      hide EscAll;
      EscapedGoesOn(pre, init, Esc(c) + post);
      Assoc(pre + EscAll(init), Esc(c), post);
      Assoc(pre, EscAll(init), Esc(c));
      EscIsSafe(pre + EscAll(init), c, post);
    }
  }

  // ----- What the loop copies

  /** How many source bytes from the i-th on are copied before the next one no longer fits. */
  function FillFrom(s: seq<byte>, size: nat, i: nat): (n: nat)
    requires i <= |s|
    ensures i <= n <= |s|
    decreases |s| - i
  {
    if i < |s| && |EscAll(s[..i + 1])| < size then FillFrom(s, size, i + 1) else i
  }

  /** It is the longest prefix whose escape leaves room for the NUL. */
  lemma {:induction false} FillIsLongest(s: seq<byte>, size: nat, i: nat)
    requires i <= |s| && |EscAll(s[..i])| < size
    ensures |EscAll(s[..FillFrom(s, size, i)])| < size
    ensures forall m :: FillFrom(s, size, i) < m <= |s| ==> |EscAll(s[..m])| >= size
    decreases |s| - i
  {
    if i < |s| && |EscAll(s[..i + 1])| < size {
      FillIsLongest(s, size, i + 1);
    } else {
      forall m | i < m <= |s| ensures |EscAll(s[..m])| >= size {
        EscMono(s, i + 1, m);
      }
    }
  }

  // ----- Backing up to a character boundary

  predicate Continuation(c: byte) { 128 <= c < 192 }

  /** Continuation bytes at the end. */
  function Trailing(s: seq<byte>): (n: nat)
    ensures n <= |s|
  {
    if s == [] || !Continuation(s[|s| - 1]) then 0 else 1 + Trailing(s[..|s| - 1])
  }

  lemma {:induction false} TrailingExact(s: seq<byte>, n: nat)
    requires n <= |s|
    requires forall k :: |s| - n <= k < |s| ==> Continuation(s[k])
    requires n < |s| ==> !Continuation(s[|s| - 1 - n])
    ensures Trailing(s) == n
    decreases n
  {
    if n > 0 {
      assert Continuation(s[|s| - 1]);
      var init := s[..|s| - 1];
      assert forall k :: |init| - (n - 1) <= k < |init| ==> Continuation(init[k]);
      TrailingExact(init, n - 1);
    }
  }

  /** The continuation bytes a lead byte calls for. */
  function Needed(lead: byte): nat {
    if lead < 192 then 0
    else if lead < 224 then 1
    else if lead < 240 then 2
    else if lead < 248 then 3
    else 0
  }

  /** The length left after an incomplete last character is dropped. */
  function BackUp(t: seq<byte>): (n: nat)
    ensures n <= |t|
  {
    var k := |t| - Trailing(t);
    if k > 0 && |t| - k < Needed(t[k - 1]) then k - 1 else |t|
  }

  lemma {:induction false} TrailingMeans(s: seq<byte>)
    ensures var n := Trailing(s);
            && (forall k :: |s| - n <= k < |s| ==> Continuation(s[k]))
            && (n < |s| ==> !Continuation(s[|s| - 1 - n]))
  {
    if s != [] && Continuation(s[|s| - 1]) { TrailingMeans(s[..|s| - 1]); }
  }

  lemma {:induction false} EscPlain(s: seq<byte>)
    requires forall k :: 0 <= k < |s| ==> Continuation(s[k])
    ensures EscAll(s) == s
  {
    if s != [] {
      var init := s[..|s| - 1];
      EscPlain(init);
      assert Continuation(s[|s| - 1]) && s == init + [s[|s| - 1]];
    }
  }

  lemma EscEnd(s: seq<byte>)
    requires s != [] && !Continuation(s[|s| - 1])
    ensures EscAll(s) != [] && !Continuation(EscAll(s)[|EscAll(s)| - 1])
  {
    var c := s[|s| - 1];
    assert EscAll(s)[|EscAll(s)| - 1] == Esc(c)[|Esc(c)| - 1];
  }

  /** Escaping leaves the continuation bytes at the end as they are. */
  lemma TrailingOfEscape(s: seq<byte>)
    ensures Trailing(EscAll(s)) == Trailing(s)
    ensures |EscAll(s)| - Trailing(s) == |EscAll(s[..|s| - Trailing(s)])|
    ensures Trailing(s) == |s| ==> |EscAll(s)| == |s|
  {
    hide EscAll, Esc, Continuation, Trailing;
    var n := Trailing(s);
    TrailingMeans(s);
    TrailingAfter(s[..|s| - n], s[|s| - n..]);
    assert s[..|s| - n] + s[|s| - n..] == s;
  }

  lemma TrailingAfter(stem: seq<byte>, tail: seq<byte>)
    requires forall k :: 0 <= k < |tail| ==> Continuation(tail[k])
    requires stem != [] ==> !Continuation(stem[|stem| - 1])
    ensures EscAll(stem + tail) == EscAll(stem) + tail && Trailing(EscAll(stem + tail)) == |tail|
    ensures stem == [] ==> EscAll(stem) == []
  {
    EscAppend(stem, tail);
    EscPlain(tail);
    if stem == [] { EscPlain(stem); } else { EscEnd(stem); }
    hide EscAll, Esc, Continuation, Trailing;
    TrailingExact(EscAll(stem) + tail, |tail|);
  }

  /** The last byte of an escape calls for as many continuation bytes as the byte itself. */
  lemma NeededOfEscape(c: byte)
    ensures Needed(Esc(c)[|Esc(c)| - 1]) == Needed(c)
    ensures Needed(c) > 0 ==> |Esc(c)| == 1
  {
  }

  /** The escape of the k-th byte ends where the escape of the first k bytes ends. */
  lemma EscapeEndsAt(s: seq<byte>, k: nat)
    requires 0 < k <= |s|
    ensures var e, ek := EscAll(s), |EscAll(s[..k])|;
            && 0 < ek <= |e| && |EscAll(s[..k - 1])| <= |e|
            && Needed(e[ek - 1]) == Needed(s[k - 1])
            && e[..|EscAll(s[..k - 1])|] == EscAll(s[..k - 1])
            && (Needed(s[k - 1]) > 0 ==> ek == |EscAll(s[..k - 1])| + 1)
  {
    hide Needed, Esc, EscAll;
    assert s[..|s|] == s;
    EscSnoc(s, k - 1);
    EscMono(s, k, |s|);
    EscMono(s, k - 1, |s|);
    NeededOfEscape(s[k - 1]);
    var ek := |EscAll(s[..k])|;
    assert EscAll(s)[ek - 1] == EscAll(s[..k])[ek - 1] == Esc(s[k - 1])[|Esc(s[k - 1])| - 1];
  }

  lemma BackUpCases(t: seq<byte>, k: nat)
    requires k == |t| - Trailing(t)
    ensures k > 0 && |t| - k < Needed(t[k - 1]) ==> BackUp(t) == k - 1
    ensures k == 0 || |t| - k >= Needed(t[k - 1]) ==> BackUp(t) == |t|
  {
    hide Trailing, Needed;
  }

  lemma BackUpDrops(s: seq<byte>, k: nat)
    requires k == |s| - Trailing(s) && k > 0 && |s| - k < Needed(s[k - 1])
    ensures BackUp(s) == k - 1 && BackUp(EscAll(s)) == |EscAll(s[..k - 1])|
    ensures EscAll(s)[..BackUp(EscAll(s))] == EscAll(s[..k - 1])
  {
    hide Trailing, Needed, Esc, EscAll, BackUp;
    TrailingOfEscape(s);
    BackUpCases(s, k);
    EscapeEndsAt(s, k);
    BackUpCases(EscAll(s), |EscAll(s[..k])|);
  }

  lemma BackUpKeeps(s: seq<byte>, k: nat)
    requires k == |s| - Trailing(s) && (k == 0 || |s| - k >= Needed(s[k - 1]))
    ensures BackUp(s) == |s| && BackUp(EscAll(s)) == |EscAll(s)|
  {
    hide Trailing, Needed, Esc, EscAll, BackUp;
    TrailingOfEscape(s);
    BackUpCases(s, k);
    if k > 0 {
      EscapeEndsAt(s, k);
      BackUpCases(EscAll(s), |EscAll(s[..k])|);
    } else {
      BackUpCases(EscAll(s), 0);
    }
  }

  /** Backing up in the escaped text is backing up in the source. */
  lemma BackUpOfEscape(s: seq<byte>)
    ensures BackUp(EscAll(s)) == |EscAll(s[..BackUp(s)])|
    ensures EscAll(s)[..BackUp(EscAll(s))] == EscAll(s[..BackUp(s)])
  {
    hide Trailing, Needed, Esc, EscAll, BackUp;
    var k := |s| - Trailing(s);
    if k > 0 && |s| - k < Needed(s[k - 1]) {
      BackUpDrops(s, k);
    } else {
      BackUpKeeps(s, k);
      assert s[..|s|] == s && EscAll(s)[..|EscAll(s)|] == EscAll(s);
    }
  }

  /** How many bytes of the source appear, escaped, in a buffer of `size` bytes. */
  function Kept(s: seq<byte>, size: nat): (m: nat)
    ensures m <= |s|
  {
    if |EscAll(s)| + 1 < size then |s| else BackUp(s[..FillFrom(s, size, 0)])
  }

  function Escaped(s: seq<byte>, size: nat): seq<byte> {
    EscAll(s[..Kept(s, size)])
  }

  /** hnc_json_escape: the buffer gets the escape of a prefix, NUL terminated. */
  method EscapeInto(src: seq<byte>, dst: array<byte>)
    requires 0 !in src
    modifies dst
    ensures dst.Length > 0 ==>
              |Escaped(src, dst.Length)| < dst.Length
              && dst[..|Escaped(src, dst.Length)| + 1] == Escaped(src, dst.Length) + [0]
  {
    hide Esc, BackUp, Trailing;
    var size := dst.Length;
    if size == 0 { return; }
    var j: nat, i: nat, truncated := 0, 0, false;
    while i < |src| && j + 1 < size
      invariant i <= |src| && j == |EscAll(src[..i])| < size && dst[..j] == EscAll(src[..i])
      invariant FillFrom(src, size, 0) == FillFrom(src, size, i)
    {
      var c := src[i];
      EscSnoc(src, i);
      var n := RoomFor(c);
      if j + n >= size {
        truncated := true;
        break;
      }
      PutEscape(dst, j, c);
      j := j + n;
      i := i + 1;
    }
    ghost var text := src[..i];
    if i < |src| { EscSnoc(src, i); }
    AfterLoop(src, size, i);
    if truncated || (src != [] && j + 1 >= size) {
      BackUpOfEscape(text);
      assert text[..BackUp(text)] == src[..BackUp(text)];
      assert dst[..j] == EscAll(text);
      j := BackUpIn(dst, j);
    }
    dst[j] := 0;
  }

  lemma AfterLoop(src: seq<byte>, size: nat, i: nat)
    requires i <= |src| && |EscAll(src[..i])| < size
    requires i < |src| ==> |EscAll(src[..i + 1])| >= size
    requires FillFrom(src, size, 0) == FillFrom(src, size, i)
    ensures i < |src| || |EscAll(src)| + 1 >= size ==> Kept(src, size) == BackUp(src[..i])
    ensures i == |src| && |EscAll(src)| + 1 < size ==> Kept(src, size) == i
    ensures src[..|src|] == src
  {
    hide BackUp, Esc;
    assert src[..|src|] == src;
    if i < |src| {
      EscMono(src, i + 1, |src|);
    }
  }

  /** The bytes an escape takes. */
  method RoomFor(c: byte) returns (n: nat)
    ensures n == |Esc(c)|
  {
    if c == QUOTE || c == BACKSLASH || c == 10 || c == 13 || c == 9 { n := 2; }
    else if c < 32 { n := 6; }
    else { n := 1; }
  }

  method PutEscape(dst: array<byte>, j: nat, c: byte)
    requires j + |Esc(c)| < dst.Length
    modifies dst
    ensures dst[..j + |Esc(c)|] == old(dst[..j]) + Esc(c)
  {
    var e := Esc(c);
    for k := 0 to |e|
      invariant dst[..j + k] == old(dst[..j]) + e[..k]
    {
      dst[j + k] := e[k];
    }
  }

  /** The back-up loop. */
  method BackUpIn(dst: array<byte>, j: nat) returns (n: nat)
    requires j < dst.Length
    ensures n == BackUp(dst[..j])
  {
    var k: nat := j;
    while k > 0 && Continuation(dst[k - 1])
      invariant 0 <= k <= j && Trailing(dst[..j]) == j - k + Trailing(dst[..k])
    {
      assert dst[..k][..k - 1] == dst[..k - 1];
      k := k - 1;
    }
    n := j;
    if k > 0 {
      var lead := dst[k - 1];
      var needed := 0;
      if lead < 128 { needed := 0; }
      else if 192 <= lead < 224 { needed := 1; }
      else if 224 <= lead < 240 { needed := 2; }
      else if 240 <= lead < 248 { needed := 3; }
      if j - k < needed { n := k - 1; }
    }
  }

  // ----- Valid UTF-8

  predicate InRange(s: seq<byte>, i: nat, lo: byte, hi: byte) {
    i < |s| && lo <= s[i] <= hi
  }

  /** Length of the well-formed character at `i` (section 4 of RFC 3629); 0 when there is none. */
  function CharAt(s: seq<byte>, i: nat): (n: nat)
    requires i < |s|
    ensures n <= 4 && i + n <= |s|
  {
    var c := s[i];
    if c < 128 then 1
    else if 194 <= c <= 223 && InRange(s, i + 1, 128, 191) then 2
    else if 224 <= c <= 239 && InRange(s, i + 2, 128, 191)
            && InRange(s, i + 1, if c == 224 then 160 else 128, if c == 237 then 159 else 191) then 3
    else if 240 <= c <= 244 && InRange(s, i + 2, 128, 191) && InRange(s, i + 3, 128, 191)
            && InRange(s, i + 1, if c == 240 then 144 else 128, if c == 244 then 143 else 191) then 4
    else 0
  }

  predicate ValidUtf8From(s: seq<byte>, i: nat)
    requires i <= |s|
    decreases |s| - i
  {
    i == |s| || (CharAt(s, i) > 0 && ValidUtf8From(s, i + CharAt(s, i)))
  }

  predicate ValidUtf8(s: seq<byte>) { ValidUtf8From(s, 0) }

  /** A character of `s`, valid from `i` on, starts or ends at `m`. */
  predicate BoundaryFrom(s: seq<byte>, i: nat, m: nat)
    requires i <= |s|
    decreases |s| - i
  {
    i == m || (i < m && i < |s| && CharAt(s, i) > 0 && BoundaryFrom(s, i + CharAt(s, i), m))
  }

  predicate Boundary(s: seq<byte>, m: nat) { BoundaryFrom(s, 0, m) }

  /** The start of the character that holds byte `i`. */
  function CharStart(s: seq<byte>, from: nat, i: nat): (c: nat)
    requires from <= i < |s| && ValidUtf8From(s, from)
    ensures from <= c <= i < c + CharAt(s, c)
    decreases i - from
  {
    if i < from + CharAt(s, from) then from else CharStart(s, from + CharAt(s, from), i)
  }

  lemma {:induction false} CharStartIsBoundary(s: seq<byte>, from: nat, i: nat)
    requires from <= i < |s| && ValidUtf8From(s, from)
    ensures var c := CharStart(s, from, i);
            && BoundaryFrom(s, from, c) && BoundaryFrom(s, from, c + CharAt(s, c))
            && forall m :: c < m < c + CharAt(s, c) ==> !BoundaryFrom(s, from, m)
    decreases i - from
  {
    hide CharAt;
    var n := CharAt(s, from);
    if i >= from + n {
      CharStartIsBoundary(s, from + n, i);
    }
  }

  /** A character is a lead byte and the continuation bytes it calls for. */
  lemma CharParts(s: seq<byte>, c: nat)
    requires c < |s| && CharAt(s, c) > 0
    ensures var n := CharAt(s, c);
            && !Continuation(s[c]) && Needed(s[c]) == n - 1
            && forall k :: c < k < c + n ==> Continuation(s[k])
  {
  }

  /** Backing up a prefix of valid text keeps it whole or drops its incomplete last character. */
  lemma BackUpValid(s: seq<byte>, i: nat)
    requires ValidUtf8(s) && i <= |s|
    ensures Boundary(s, BackUp(s[..i])) && BackUp(s[..i]) <= i
    ensures forall m :: BackUp(s[..i]) < m <= i ==> !Boundary(s, m)
  {
    hide CharAt, Trailing, Needed;
    if i > 0 {
      var c := CharStart(s, 0, i - 1);
      CharStartIsBoundary(s, 0, i - 1);
      CharParts(s, c);
      TrailingExact(s[..i], i - 1 - c);
    }
  }

  /**
   Main result: for valid UTF-8 the text kept ends on a character boundary and is the
   longest such prefix whose escape fits; so it is the whole text whenever that fits.
   */
  lemma KeptIsLongest(s: seq<byte>, size: nat)
    requires ValidUtf8(s) && size > 0
    ensures Boundary(s, Kept(s, size)) && |EscAll(s[..Kept(s, size)])| < size
    ensures forall m :: Kept(s, size) < m <= |s| && Boundary(s, m) ==> |EscAll(s[..m])| >= size
    ensures |EscAll(s)| < size <==> Kept(s, size) == |s|
  {
    hide BackUp, Esc;
    assert s[..|s|] == s && s[..0] == [];
    WholeIsBoundary(s, 0);
    if |EscAll(s)| + 1 >= size {
      FillIsLongest(s, size, 0);
      var i := FillFrom(s, size, 0);
      BackUpValid(s, i);
      EscMono(s, BackUp(s[..i]), i);
    }
  }

  lemma {:induction false} WholeIsBoundary(s: seq<byte>, i: nat)
    requires i <= |s| && ValidUtf8From(s, i)
    ensures BoundaryFrom(s, i, |s|)
    decreases |s| - i
  {
    hide CharAt;
    if i < |s| {
      WholeIsBoundary(s, i + CharAt(s, i));
    }
  }

  /** The last character has all the continuation bytes its lead byte calls for. */
  predicate EndsWhole(s: seq<byte>) {
    var k := |s| - Trailing(s);
    k == 0 || Trailing(s) >= Needed(s[k - 1])
  }

  /** The buffer holds all of `s` with a byte to spare, or exactly and `s` ends with a whole character. */
  predicate FitsWhole(s: seq<byte>, size: nat) {
    |EscAll(s)| + 1 < size || (|EscAll(s)| + 1 == size && EndsWhole(s))
  }

  /** Main result, any bytes: all of the source is kept if and only if it fits with a byte to spare,
      or fits exactly and does not end within a character. */
  lemma KeptWholeExact(s: seq<byte>, size: nat)
    requires size > 0
    ensures Kept(s, size) == |s| <==> FitsWhole(s, size)
  {
    hide BackUp, Esc, EscAll, Trailing, Needed;
    assert s[..|s|] == s;
    BackUpCases(s, |s| - Trailing(s));
    if |EscAll(s)| + 1 >= size {
      assert s[..0] == [] && |EscAll([])| == 0 by { EscNil(); }
      FillIsLongest(s, size, 0);
      var i := FillFrom(s, size, 0);
      EscMono(s, i, |s|);
    }
  }

  lemma {:induction false} ControlBytes(n: nat)
    ensures |EscAll(seq(n, _ => 1 as byte))| == 6 * n
  {
    if n > 0 {
      ControlBytes(n - 1);
      assert seq(n, _ => 1 as byte) == seq(n - 1, _ => 1 as byte) + [1];
      EscLast(seq(n - 1, _ => 1 as byte), 1);
    }
  }

  /** 21 control bytes and a lone lead byte. */
  const LONE_LEAD: seq<byte> := seq(21, _ => 1 as byte) + [195]

  /** A lone lead byte is lost from the cache's 128-byte buffer although the escape fits it exactly. */
  lemma LoneLeadByteDropped()
    ensures |EscAll(LONE_LEAD)| == 127 && !EndsWhole(LONE_LEAD) && Kept(LONE_LEAD, 128) < |LONE_LEAD| == 22
  {
    ControlBytes(21);
    EscLast(seq(21, _ => 1 as byte), 195);
    hide EscAll;
    TrailingExact(LONE_LEAD, 0);
    KeptWholeExact(LONE_LEAD, 128);
  }
}

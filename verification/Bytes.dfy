/**
 Bytes and byte strings, as the daemons see them: packet buffers, C strings and
 file contents are all sequences of bytes.
 */
module Bytes {

  type byte = b: int | 0 <= b < 256

  datatype Option<+T> = None | Some(value: T)

  /** The bytes of an ASCII literal. */
  function Ascii(s: string): (r: seq<byte>)
    requires forall i :: 0 <= i < |s| ==> s[i] < 128 as char
  {
    seq(|s|, i requires 0 <= i < |s| => s[i] as int)
  }

  /** Big-endian 16-bit load, the network byte order. */
  function Be16(b: seq<byte>, i: nat): (v: nat)
    requires i + 2 <= |b|
  {
    (b[i] as int) * 256 + b[i + 1]
  }

  /** Big-endian 32-bit load. */
  function Be32(b: seq<byte>, i: nat): (v: nat)
    requires i + 4 <= |b|
  {
    Be16(b, i) * 65536 + Be16(b, i + 2)
  }

  /** The two bytes of a 16-bit number in network order. */
  function PutBe16(v: nat): (r: seq<byte>)
    requires v < 65536
  {
    [v / 256, v % 256]
  }

  function LowerByte(c: byte): byte {
    if 65 <= c <= 90 then c + 32 else c
  }

  /** ASCII lower-casing, byte by byte. */
  function Lower(s: seq<byte>): (r: seq<byte>)
    ensures |r| == |s|
    ensures forall i :: 0 <= i < |s| ==> r[i] == LowerByte(s[i])
  {
    seq(|s|, i requires 0 <= i < |s| => LowerByte(s[i]))
  }

  /** The same letter in either case, or the same byte. */
  predicate SameLetter(x: byte, y: byte) {
    x == y || (65 <= x <= 90 && y == x + 32) || (65 <= y <= 90 && x == y + 32)
  }

  /** Lower-casing is what forgets the case of the letters A to Z and nothing else. */
  lemma LowerForgetsCase(a: seq<byte>, b: seq<byte>)
    ensures Lower(a) == Lower(b) <==> |a| == |b| && forall i :: 0 <= i < |a| ==> SameLetter(a[i], b[i])
    ensures Lower(Lower(a)) == Lower(a) && forall i :: 0 <= i < |a| ==> !(65 <= Lower(a)[i] <= 90)
  {
    if Lower(a) == Lower(b) {
      forall i | 0 <= i < |a| ensures SameLetter(a[i], b[i]) { assert Lower(a)[i] == Lower(b)[i]; }
    }
  }

  /** What a C string function sees of a buffer: everything before the first NUL. */
  function CStr(s: seq<byte>): (r: seq<byte>)
    ensures r <= s && 0 !in r
    ensures |r| < |s| ==> s[|r|] == 0
  {
    if s == [] || s[0] == 0 then [] else [s[0]] + CStr(s[1..])
  }

  lemma {:induction false} CStrNulFree(s: seq<byte>)
    ensures CStr(s) == s <==> 0 !in s
  {
    if s != [] && s[0] != 0 {
      CStrNulFree(s[1..]);
      assert s == [s[0]] + s[1..];
    }
  }

  /** Nothing behind a NUL is seen. */
  lemma {:induction false} CStrStops(text: seq<byte>, rest: seq<byte>)
    ensures CStr(text + [0] + rest) == CStr(text)
  {
    var s := text + [0] + rest;
    if text != [] && text[0] != 0 {
      assert s[1..] == text[1..] + [0] + rest;
      CStrStops(text[1..], rest);
    }
  }
}

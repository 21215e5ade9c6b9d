/**
 * UTF-8 as the WHATWG Encoding Standard defines it: the encoder used on every
 * string before percent-encoding, and "UTF-8 decode without BOM", which
 * replaces every ill-formed subsequence with U+FFFD.
 */
module Utf8 {

  type byte = b: int | 0 <= b < 256

  const Replacement: char := 0xFFFD as char

  function EncodeChar(c: char): (r: seq<byte>)
    ensures 1 <= |r| <= 4
    ensures (c as int < 0x80) == (|r| == 1)
    ensures |r| == 1 ==> r[0] == c as int
    ensures |r| > 1 ==> r[0] >= 0xC2
  {
    var cp := c as int;
    if cp < 0x80 then [cp]
    else if cp < 0x800 then [0xC0 + cp / 64, 0x80 + cp % 64]
    else if cp < 0x10000 then [0xE0 + cp / 4096, 0x80 + cp / 64 % 64, 0x80 + cp % 64]
    else [0xF0 + cp / 262144, 0x80 + cp / 4096 % 64, 0x80 + cp / 64 % 64, 0x80 + cp % 64]
  }

  function Encode(s: string): (r: seq<byte>)
    ensures |r| >= |s|
  {
    if s == [] then [] else EncodeChar(s[0]) + Encode(s[1..])
  }

  /** Number of continuation bytes a lead byte announces; 0 for ASCII and for bytes that cannot start a sequence. */
  function Needed(b: byte): (n: nat)
    ensures n <= 3
  {
    if 0xC2 <= b <= 0xDF then 1
    else if 0xE0 <= b <= 0xEF then 2
    else if 0xF0 <= b <= 0xF4 then 3
    else 0
  }

  /** The range the first continuation byte after lead `b` must fall in. */
  function Lower(b: byte): byte { if b == 0xE0 then 0xA0 else if b == 0xF0 then 0x90 else 0x80 }
  function Upper(b: byte): byte { if b == 0xED then 0x9F else if b == 0xF4 then 0x8F else 0xBF }

  /** Whether `bs[j]` is an acceptable `j`-th continuation byte after the lead `bs[0]`. */
  predicate ContinuationOk(bs: seq<byte>, j: nat)
    requires 0 < j < |bs|
  {
    if j == 1 then Lower(bs[0]) <= bs[j] <= Upper(bs[0]) else 0x80 <= bs[j] <= 0xBF
  }

  /**
   * How many continuation bytes after the lead `bs[0]` the decoder accepts
   * before it meets a byte outside the allowed range or the end of input.
   */
  function Accepted(bs: seq<byte>, k: nat): (n: nat)
    requires 0 < k <= |bs|
    requires k <= Needed(bs[0]) + 1
    ensures k - 1 <= n <= Needed(bs[0])
    ensures 1 + n <= |bs|
    decreases Needed(bs[0]) + 1 - k
  {
    if k > Needed(bs[0]) || k >= |bs| then k - 1
    else if ContinuationOk(bs, k) then Accepted(bs, k + 1)
    else k - 1
  }

  /** The scalar value of a well-formed sequence of `Needed(bs[0]) + 1` bytes. */
  function CodePoint(bs: seq<byte>): int
    requires |bs| > 1 && |bs| == Needed(bs[0]) + 1
  {
    if |bs| == 2 then (bs[0] as int - 0xC0) * 64 + (bs[1] as int - 0x80)
    else if |bs| == 3 then (bs[0] as int - 0xE0) * 4096 + (bs[1] as int - 0x80) * 64 + (bs[2] as int - 0x80)
    else (bs[0] as int - 0xF0) * 262144 + (bs[1] as int - 0x80) * 4096 + (bs[2] as int - 0x80) * 64 + (bs[3] as int - 0x80)
  }

  function Decode(bs: seq<byte>): (s: string)
    ensures |s| <= |bs|
    decreases |bs|
  {
    if bs == [] then []
    else if bs[0] < 0x80 then [bs[0] as char] + Decode(bs[1..])
    else if Needed(bs[0]) == 0 then [Replacement] + Decode(bs[1..])
    else
      var n := Accepted(bs, 1);
      if n == Needed(bs[0]) then
        AcceptedInRange(bs);
        [CodePoint(bs[..n + 1]) as char] + Decode(bs[n + 1..])
      else [Replacement] + Decode(bs[n + 1..])
  }

  /** The first `n` continuation bytes the decoder accepts lie in their allowed ranges. */
  lemma AcceptedRanges(bs: seq<byte>, k: nat)
    requires 0 < k <= |bs| && k <= Needed(bs[0]) + 1
    requires forall j :: 0 < j < k ==> ContinuationOk(bs, j)
    ensures forall j :: 0 < j <= Accepted(bs, k) ==> ContinuationOk(bs, j)
    decreases Needed(bs[0]) + 1 - k
  {
    if k > Needed(bs[0]) || k >= |bs| {
    } else if ContinuationOk(bs, k) {
      AcceptedRanges(bs, k + 1);
    }
  }

  /** A fully accepted sequence decodes to a Unicode scalar value (never a surrogate, never above U+10FFFF). */
  lemma AcceptedInRange(bs: seq<byte>)
    requires 0 < |bs| && Needed(bs[0]) > 0 && Accepted(bs, 1) == Needed(bs[0])
    ensures var cp := CodePoint(bs[..Needed(bs[0]) + 1]);
      0x80 <= cp < 0xD800 || 0xE000 <= cp < 0x11_0000
  {
    var n := Needed(bs[0]);
    AcceptedRanges(bs, 1);
    assert ContinuationOk(bs, 1);
    assert n >= 2 ==> ContinuationOk(bs, 2);
    assert n >= 3 ==> ContinuationOk(bs, 3);
  }

  /** Decoding the encoding of one scalar value, followed by anything, yields that value first. */
  lemma DecodeEncodeChar(c: char, rest: seq<byte>)
    ensures Decode(EncodeChar(c) + rest) == [c] + Decode(rest)
  {
    var cp := c as int;
    var bs := EncodeChar(c) + rest;
    if cp < 0x80 {
      assert bs[1..] == rest;
    } else if cp < 0x800 {
      DecodeTwo(c, rest);
    } else if cp < 0x10000 {
      DecodeThree(c, rest);
    } else {
      DecodeFour(c, rest);
    }
  }

  lemma DecodeTwo(c: char, rest: seq<byte>)
    requires 0x80 <= c as int < 0x800
    ensures Decode(EncodeChar(c) + rest) == [c] + Decode(rest)
  {
    var cp := c as int;
    var e := EncodeChar(c);
    var bs := e + rest;
    assert e == [0xC0 + cp / 64, 0x80 + cp % 64];
    assert Needed(bs[0]) == 1;
    assert ContinuationOk(bs, 1);
    assert Accepted(bs, 1) == 1;
    assert bs[..2] == e;
    assert CodePoint(e) == cp;
    assert bs[2..] == rest;
  }

  lemma DecodeThree(c: char, rest: seq<byte>)
    requires 0x800 <= c as int < 0x10000
    ensures Decode(EncodeChar(c) + rest) == [c] + Decode(rest)
  {
    var cp := c as int;
    var e := EncodeChar(c);
    var bs := e + rest;
    assert e == [0xE0 + cp / 4096, 0x80 + cp / 64 % 64, 0x80 + cp % 64];
    assert Needed(bs[0]) == 2;
    assert ContinuationOk(bs, 1);
    assert ContinuationOk(bs, 2);
    assert Accepted(bs, 3) == 2;
    assert Accepted(bs, 2) == 2;
    assert Accepted(bs, 1) == 2;
    assert bs[..3] == e;
    assert CodePoint(e) == cp;
    assert bs[3..] == rest;
  }

  lemma DecodeFour(c: char, rest: seq<byte>)
    requires 0x10000 <= c as int
    ensures Decode(EncodeChar(c) + rest) == [c] + Decode(rest)
  {
    var cp := c as int;
    var e := EncodeChar(c);
    var bs := e + rest;
    FourBytes(cp);
    assert e == [0xF0 + cp / 262144, 0x80 + cp / 4096 % 64, 0x80 + cp / 64 % 64, 0x80 + cp % 64];
    assert Needed(bs[0]) == 3;
    assert ContinuationOk(bs, 1);
    assert ContinuationOk(bs, 2);
    assert ContinuationOk(bs, 3);
    assert Accepted(bs, 4) == 3;
    assert Accepted(bs, 3) == 3;
    assert Accepted(bs, 2) == 3;
    assert Accepted(bs, 1) == 3;
    assert bs[..4] == e;
    assert CodePoint(e) == cp;
    assert bs[4..] == rest;
  }

  /** The arithmetic behind the four-byte form: the lead and continuation ranges, and recombination. */
  lemma FourBytes(cp: int)
    requires 0x10000 <= cp < 0x11_0000
    ensures 0xF0 <= 0xF0 + cp / 262144 <= 0xF4
    ensures cp / 262144 == 0 ==> 0x90 <= 0x80 + cp / 4096 % 64
    ensures cp / 262144 == 4 ==> 0x80 + cp / 4096 % 64 <= 0x8F
    ensures cp / 262144 * 262144 + cp / 4096 % 64 * 4096 + cp / 64 % 64 * 64 + cp % 64 == cp
  {
    var q := cp / 4096;
    assert q / 64 == cp / 262144;
    assert q % 64 * 4096 + (cp % 4096) == cp - q / 64 * 262144;
    var r := cp % 4096;
    assert r / 64 == cp / 64 % 64;
    assert r % 64 == cp % 64;
  }

  /** UTF-8 decoding inverts UTF-8 encoding on every string. */
  lemma {:induction false} DecodeEncode(s: string)
    ensures Decode(Encode(s)) == s
  {
    if s != [] {
      DecodeEncodeChar(s[0], Encode(s[1..]));
      DecodeEncode(s[1..]);
    }
  }

  /** Bytes below 0x80 read as the characters with the same code. */
  function AsciiChars(bs: seq<byte>): string
    requires forall i :: 0 <= i < |bs| ==> bs[i] < 0x80
  {
    seq(|bs|, i requires 0 <= i < |bs| => bs[i] as char)
  }

  /** Encoding an ASCII string gives back its bytes. */
  lemma {:induction false} EncodeAscii(bs: seq<byte>)
    requires forall i :: 0 <= i < |bs| ==> bs[i] < 0x80
    ensures Encode(AsciiChars(bs)) == bs
  {
    if bs != [] {
      var s := AsciiChars(bs);
      assert s[1..] == AsciiChars(bs[1..]);
      EncodeAscii(bs[1..]);
    }
  }
}

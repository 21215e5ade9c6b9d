/**
 * The application/x-www-form-urlencoded format of section 5 of the WHATWG URL
 * Standard, which the browser's URLSearchParams uses to read and write the
 * permalink fragment: the serializer (`toString()`), the parser (the
 * constructor given a string) and `get(name)`.
 */
module FormUrlencoded {
  import opened Options
  import opened Utf8

  /** A name/value tuple of a URLSearchParams list. */
  type Pair = (string, string)

  const Amp: byte := 0x26
  const Eq: byte := 0x3D
  const Plus: byte := 0x2B
  const Percent: byte := 0x25
  const Space: byte := 0x20
  const Question: byte := 0x3F

  /** Bytes the urlencoded serializer writes as themselves: ASCII alphanumerics and `*-._`. */
  predicate Unreserved(b: byte) {
    0x30 <= b <= 0x39 || 0x41 <= b <= 0x5A || 0x61 <= b <= 0x7A
    || b == 0x2A || b == 0x2D || b == 0x2E || b == 0x5F
  }

  /** Every byte the serializer can emit inside a name or a value. */
  predicate Emitted(b: byte) {
    Unreserved(b) || b == Plus || b == Percent
  }

  predicate IsHex(b: byte) {
    0x30 <= b <= 0x39 || 0x41 <= b <= 0x46 || 0x61 <= b <= 0x66
  }

  /** The upper-case hexadecimal digit the serializer writes for `n`. */
  function HexDigit(n: int): (b: byte)
    requires 0 <= n < 16
    ensures IsHex(b) && Unreserved(b)
  {
    if n < 10 then 0x30 + n else 0x41 + (n - 10)
  }

  function HexValue(b: byte): (n: int)
    requires IsHex(b)
    ensures 0 <= n < 16
  {
    if b <= 0x39 then b - 0x30 else if b <= 0x46 then b - 0x41 + 10 else b - 0x61 + 10
  }

  /** The urlencoded percent-encoding of one byte, with space as `+`. */
  function EncodeByte(b: byte): seq<byte> {
    if b == Space then [Plus]
    else if Unreserved(b) then [b]
    else [Percent, HexDigit(b / 16), HexDigit(b % 16)]
  }

  function EncodeBytes(bs: seq<byte>): seq<byte> {
    if bs == [] then [] else EncodeByte(bs[0]) + EncodeBytes(bs[1..])
  }

  /** The percent-encoding of any byte string uses only unreserved bytes, `+` and `%`. */
  lemma {:induction false} EncodeBytesAlphabet(bs: seq<byte>)
    ensures forall i :: 0 <= i < |EncodeBytes(bs)| ==> Emitted(EncodeBytes(bs)[i])
  {
    if bs != [] {
      EncodeBytesAlphabet(bs[1..]);
      var x := EncodeByte(bs[0]);
      var r := EncodeBytes(bs);
      assert forall i :: 0 <= i < |x| ==> Emitted(x[i]);
      assert forall i :: |x| <= i < |r| ==> r[i] == EncodeBytes(bs[1..])[i - |x|];
    }
  }

  /** Percent-decoding as section 1.3 of the URL Standard defines it: a `%` not followed by two hex digits stays. */
  function PercentDecode(bs: seq<byte>): (r: seq<byte>)
    ensures |r| <= |bs|
  {
    if bs == [] then []
    else if bs[0] == Percent && |bs| >= 3 && IsHex(bs[1]) && IsHex(bs[2]) then
      [HexValue(bs[1]) * 16 + HexValue(bs[2])] + PercentDecode(bs[3..])
    else [bs[0]] + PercentDecode(bs[1..])
  }

  function PlusToSpace(bs: seq<byte>): seq<byte> {
    seq(|bs|, i requires 0 <= i < |bs| => if bs[i] == Plus then Space else bs[i])
  }

  /** A name or value as the serializer writes it. */
  function EncodeString(s: string): seq<byte> {
    EncodeBytes(Utf8.Encode(s))
  }

  /** A name or value as the parser reads it. */
  function DecodeString(bs: seq<byte>): string {
    Utf8.Decode(PercentDecode(PlusToSpace(bs)))
  }

  function PairBytes(p: Pair): seq<byte> {
    EncodeString(p.0) + [Eq] + EncodeString(p.1)
  }

  /** The serializer: tuples written `name=value` and joined by `&`. */
  function SerializeBytes(pairs: seq<Pair>): seq<byte> {
    if pairs == [] then []
    else if |pairs| == 1 then PairBytes(pairs[0])
    else PairBytes(pairs[0]) + [Amp] + SerializeBytes(pairs[1..])
  }

  /** Every byte is one the serializer may write. */
  predicate Written(bs: seq<byte>) {
    forall i :: 0 <= i < |bs| ==> Emitted(bs[i]) || bs[i] == Eq || bs[i] == Amp
  }

  lemma PairBytesAlphabet(p: Pair)
    ensures Written(PairBytes(p)) && !(Amp in PairBytes(p))
  {
    EncodeBytesAlphabet(Utf8.Encode(p.0));
    EncodeBytesAlphabet(Utf8.Encode(p.1));
  }

  /**
   * The serializer writes only unreserved bytes, `+`, `%`, `=` and `&`, and
   * the output of a non-empty list starts with a name byte or `=`.
   */
  lemma {:induction false} SerializeBytesAlphabet(pairs: seq<Pair>)
    ensures Written(SerializeBytes(pairs))
    ensures pairs != [] ==> SerializeBytes(pairs) != []
                            && (Emitted(SerializeBytes(pairs)[0]) || SerializeBytes(pairs)[0] == Eq)
  {
    if pairs != [] {
      PairBytesAlphabet(pairs[0]);
      var h := PairBytes(pairs[0]);
      assert |h| > 0;
      if |pairs| > 1 {
        SerializeBytesAlphabet(pairs[1..]);
        WrittenJoin(h, SerializeBytes(pairs[1..]));
      }
    }
  }

  lemma WrittenJoin(a: seq<byte>, b: seq<byte>)
    requires Written(a) && Written(b)
    ensures Written(a + [Amp] + b)
  {
    var r := a + [Amp] + b;
    assert forall i :: |a| < i < |r| ==> r[i] == b[i - |a| - 1];
  }

  function Serialize(pairs: seq<Pair>): string {
    SerializeBytesAlphabet(pairs);
    WrittenAscii(SerializeBytes(pairs));
    Utf8.AsciiChars(SerializeBytes(pairs))
  }

  /**
   * A serialized list is printable ASCII with none of `" < > \`` and does not
   * start with `#`: none of these is unreserved, `+`, `%`, `=` or `&`.
   */
  lemma SerializeStoredVerbatim(pairs: seq<Pair>)
    ensures var f := Serialize(pairs);
      (f != [] ==> f[0] != '#')
      && forall i :: 0 <= i < |f| ==>
        0x20 < f[i] as int < 0x7F && f[i] != '"' && f[i] != '<' && f[i] != '>' && f[i] != '`'
  {
    var bs := SerializeBytes(pairs);
    var f := Serialize(pairs);
    SerializeBytesAlphabet(pairs);
    forall i | 0 <= i < |f|
      ensures 0x20 < f[i] as int < 0x7F && f[i] != '"' && f[i] != '<' && f[i] != '>' && f[i] != '`'
    {
      assert f[i] as int == bs[i];
      assert Emitted(bs[i]) || bs[i] == Eq || bs[i] == Amp;
    }
  }

  /** The index of the first `b` in `bs`, or `|bs|` when there is none. */
  function FirstIndex(bs: seq<byte>, b: byte): (i: nat)
    ensures i <= |bs|
    ensures forall j :: 0 <= j < i ==> bs[j] != b
    ensures i < |bs| ==> bs[i] == b
  {
    if bs == [] || bs[0] == b then 0 else 1 + FirstIndex(bs[1..], b)
  }

  /** One `&`-separated piece: name before the first `=`, value after it (empty when there is no `=`). */
  function ParsePiece(piece: seq<byte>): Pair {
    var j := FirstIndex(piece, Eq);
    (DecodeString(piece[..j]), DecodeString(if j < |piece| then piece[j + 1..] else []))
  }

  /** The byte parser: split on `&`, skip empty pieces, read each remaining piece. */
  function ParseBytes(bs: seq<byte>): seq<Pair>
    decreases |bs|
  {
    if bs == [] then []
    else
      var i := FirstIndex(bs, Amp);
      (if i == 0 then [] else [ParsePiece(bs[..i])])
      + (if i < |bs| then ParseBytes(bs[i + 1..]) else [])
  }

  /** `new URLSearchParams(s)`: a leading `?` is dropped, the rest UTF-8 encoded and parsed. */
  function Parse(s: string): seq<Pair> {
    ParseBytes(Utf8.Encode(if |s| > 0 && s[0] == '?' then s[1..] else s))
  }

  /** `URLSearchParams.get(name)`: the value of the first tuple with that name. */
  function Get(pairs: seq<Pair>, name: string): Option<string> {
    if pairs == [] then None
    else if pairs[0].0 == name then Some(pairs[0].1)
    else Get(pairs[1..], name)
  }

  /** `get` finds nothing exactly when no tuple has the name, and otherwise the value of the first one that has it. */
  lemma {:induction false} GetSpec(pairs: seq<Pair>, name: string)
    ensures var r := Get(pairs, name);
      && (r.None? <==> forall i :: 0 <= i < |pairs| ==> pairs[i].0 != name)
      && (r.Some? ==> exists i :: 0 <= i < |pairs| && pairs[i] == (name, r.value)
                                 && forall j :: 0 <= j < i ==> pairs[j].0 != name)
  {
    if pairs != [] && pairs[0].0 != name {
      GetSpec(pairs[1..], name);
      var r := Get(pairs, name);
      if r.Some? {
        var i :| 0 <= i < |pairs| - 1 && pairs[1..][i] == (name, r.value)
                 && forall j :: 0 <= j < i ==> pairs[1..][j].0 != name;
        assert pairs[i + 1] == (name, r.value);
      } else {
        assert forall i :: 1 <= i < |pairs| ==> pairs[i] == pairs[1..][i - 1];
      }
    }
  }

  /** `get` returns the value of the first tuple with that name. */
  lemma {:induction false} GetFirst(pairs: seq<Pair>, name: string, i: nat)
    requires i < |pairs| && pairs[i].0 == name
    requires forall j :: 0 <= j < i ==> pairs[j].0 != name
    ensures Get(pairs, name) == Some(pairs[i].1)
  {
    if i > 0 {
      GetFirst(pairs[1..], name, i - 1);
    }
  }

  lemma FirstIndexIs(bs: seq<byte>, b: byte, k: nat)
    requires k <= |bs|
    requires forall j :: 0 <= j < k ==> bs[j] != b
    requires k == |bs| || bs[k] == b
    ensures FirstIndex(bs, b) == k
  {
  }

  /** Reading back the percent-encoding of a byte string, with `+` as space, gives the byte string. */
  lemma {:induction false} DecodeEncodeBytes(bs: seq<byte>)
    ensures PercentDecode(PlusToSpace(EncodeBytes(bs))) == bs
  {
    if bs != [] {
      var x := EncodeByte(bs[0]);
      var rest := EncodeBytes(bs[1..]);
      assert PlusToSpace(x + rest) == PlusToSpace(x) + PlusToSpace(rest);
      DecodeEncodeByte(bs[0], PlusToSpace(rest));
      DecodeEncodeBytes(bs[1..]);
    }
  }

  /** One encoded byte decodes back to itself, whatever follows it. */
  lemma DecodeEncodeByte(b: byte, t: seq<byte>)
    ensures PercentDecode(PlusToSpace(EncodeByte(b)) + t) == [b] + PercentDecode(t)
  {
    var u := PlusToSpace(EncodeByte(b)) + t;
    if b == Space || Unreserved(b) {
      assert u[1..] == t;
    } else {
      assert u[3..] == t;
      assert HexValue(HexDigit(b / 16)) * 16 + HexValue(HexDigit(b % 16)) == b;
    }
  }

  /** Reading back a serialized name or value gives the original string. */
  lemma DecodeEncodeString(s: string)
    ensures DecodeString(EncodeString(s)) == s
  {
    DecodeEncodeBytes(Utf8.Encode(s));
    Utf8.DecodeEncode(s);
  }

  lemma ParsePairBytes(p: Pair)
    ensures ParsePiece(PairBytes(p)) == p
  {
    var n := EncodeString(p.0);
    var v := EncodeString(p.1);
    var bs := PairBytes(p);
    EncodeBytesAlphabet(Utf8.Encode(p.0));
    FirstIndexIs(bs, Eq, |n|);
    assert bs[..|n|] == n;
    assert bs[|n| + 1..] == v;
    DecodeEncodeString(p.0);
    DecodeEncodeString(p.1);
  }

  /** The byte parser inverts the byte serializer. */
  lemma {:induction false} ParseSerializeBytes(pairs: seq<Pair>)
    ensures ParseBytes(SerializeBytes(pairs)) == pairs
  {
    if pairs != [] {
      var bs := SerializeBytes(pairs);
      var head := PairBytes(pairs[0]);
      PairBytesAlphabet(pairs[0]);
      FirstIndexIs(bs, Amp, |head|);
      assert bs[..|head|] == head;
      ParsePairBytes(pairs[0]);
      if |pairs| > 1 {
        assert bs[|head| + 1..] == SerializeBytes(pairs[1..]);
        ParseSerializeBytes(pairs[1..]);
      }
    }
  }

  /** The parser inverts the serializer: every list of tuples survives a `toString()` / `new URLSearchParams()` round trip. */
  lemma ParseSerialize(pairs: seq<Pair>)
    ensures Parse(Serialize(pairs)) == pairs
  {
    var bs := SerializeBytes(pairs);
    SerializeBytesAlphabet(pairs);
    WrittenAscii(bs);
    var s := Serialize(pairs);
    if |s| > 0 {
      assert s[0] as int == bs[0];
    }
    Utf8.EncodeAscii(bs);
    ParseSerializeBytes(pairs);
  }

  lemma WrittenAscii(bs: seq<byte>)
    requires Written(bs)
    ensures forall i :: 0 <= i < |bs| ==> bs[i] < 0x80 && bs[i] != Question
  {
  }
}

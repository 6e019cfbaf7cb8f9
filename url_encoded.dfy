/**
 * The application/x-www-form-urlencoded format of the WHATWG URL Standard,
 * as `URLSearchParams` uses it: the parser of section 5.1 and the serializer
 * of section 5.2. A name-value list is a sequence of string pairs.
 */
module UrlEncoded {
  import opened Wrappers
  import opened Utf8
  import opened JsText

  const Amp: Byte := 0x26
  const Eq: Byte := 0x3D
  const Plus: Byte := 0x2B
  const Percent: Byte := 0x25
  const Space: Byte := 0x20

  type Pairs = seq<(string, string)>

  // ---------------------------------------------------------------------------
  // Serializer (section 5.2)

  predicate IsAsciiAlnum(b: Byte) {
    (0x30 <= b <= 0x39) || (0x41 <= b <= 0x5A) || (0x61 <= b <= 0x7A)
  }

  /** The bytes left as they are: those outside the application/x-www-form-urlencoded percent-encode set. */
  predicate Unreserved(b: Byte) {
    IsAsciiAlnum(b) || b == 0x2A || b == 0x2D || b == 0x2E || b == 0x5F
  }

  /** An upper-case hexadecimal digit. */
  function HexDigit(n: nat): (b: Byte)
    requires n < 16
    ensures IsAsciiAlnum(b)
  {
    if n < 10 then 0x30 + n else 0x41 + (n - 10)
  }

  /** One byte of the urlencoded byte serializer: space as `+`, unreserved as is, the rest as `%XX`. */
  function EncodeByte(b: Byte): seq<Byte> {
    if b == Space then [Plus]
    else if Unreserved(b) then [b]
    else [Percent, HexDigit(b / 16), HexDigit(b % 16)]
  }

  function PercentEncode(bs: seq<Byte>): seq<Byte> {
    if bs == [] then [] else EncodeByte(bs[0]) + PercentEncode(bs[1..])
  }

  /** The bytes a serialized name or value can contain. */
  predicate Safe(b: Byte) {
    Unreserved(b) || b == Plus || b == Percent
  }

  function SerializePair(p: (string, string)): seq<Byte> {
    PercentEncode(Encode(p.0)) + [Eq] + PercentEncode(Encode(p.1))
  }

  /** The pairs serialized as `name=value`, joined by `&`. */
  function SerializeBytes(l: Pairs): seq<Byte> {
    if l == [] then []
    else if |l| == 1 then SerializePair(l[0])
    else SerializePair(l[0]) + [Amp] + SerializeBytes(l[1..])
  }

  /** The serializer's output is ASCII, so it is a string char for char. */
  function AsString(bs: seq<Byte>): string
    requires forall i :: 0 <= i < |bs| ==> bs[i] < 0x80
  {
    seq(|bs|, i requires 0 <= i < |bs| => bs[i] as char)
  }

  // ---------------------------------------------------------------------------
  // Parser (section 5.1)

  predicate IsHex(b: Byte) {
    (0x30 <= b <= 0x39) || (0x41 <= b <= 0x46) || (0x61 <= b <= 0x66)
  }

  function HexValue(b: Byte): (n: nat)
    requires IsHex(b)
    ensures n < 16
  {
    if b <= 0x39 then b - 0x30 else if b <= 0x46 then b - 0x41 + 10 else b - 0x61 + 10
  }

  /** Percent-decode: `%` and two hex digits become one byte; any other `%` stays. */
  function PercentDecode(bs: seq<Byte>): seq<Byte> {
    if bs == [] then []
    else if bs[0] == Percent && |bs| >= 3 && IsHex(bs[1]) && IsHex(bs[2]) then
      [HexValue(bs[1]) * 16 + HexValue(bs[2])] + PercentDecode(bs[3..])
    else [bs[0]] + PercentDecode(bs[1..])
  }

  /** Replace every `+` by a space. */
  function ReplacePlus(bs: seq<Byte>): seq<Byte> {
    seq(|bs|, i requires 0 <= i < |bs| => if bs[i] == Plus then Space else bs[i])
  }

  /** A name or value: replace `+`, percent-decode, then UTF-8 decode without BOM. */
  function Component(bs: seq<Byte>): string {
    Decode(PercentDecode(ReplacePlus(bs)))
  }

  /** One non-empty `&`-separated piece: the name before the first `=`, the value after it. */
  function ParsePiece(p: seq<Byte>): (string, string) {
    match IndexOf(p, Eq)
    case None => (Component(p), "")
    case Some(i) => (Component(p[..i]), Component(p[i + 1..]))
  }

  /** Split on `&`, skip the empty pieces, parse the others. */
  function ParseBytes(bs: seq<Byte>): Pairs
    decreases |bs|
  {
    match IndexOf(bs, Amp)
    case None => if bs == [] then [] else [ParsePiece(bs)]
    case Some(i) => (if i == 0 then [] else [ParsePiece(bs[..i])]) + ParseBytes(bs[i + 1..])
  }

  /** `new URLSearchParams(s)`: the parse of the UTF-8 encoding of `s`. */
  function Parse(s: string): Pairs {
    ParseBytes(Encode(s))
  }

  // ---------------------------------------------------------------------------
  // Facts

  lemma {:induction false} PercentEncodeSafe(bs: seq<Byte>)
    ensures forall i :: 0 <= i < |PercentEncode(bs)| ==> Safe(PercentEncode(bs)[i])
  {
    if bs != [] {
      PercentEncodeSafe(bs[1..]);
      var e := EncodeByte(bs[0]);
      assert PercentEncode(bs) == e + PercentEncode(bs[1..]);
      assert forall i :: 0 <= i < |e| ==> Safe(e[i]);
    }
  }

  lemma {:induction false} SerializeBytesAscii(l: Pairs)
    ensures forall i :: 0 <= i < |SerializeBytes(l)| ==>
              Safe(SerializeBytes(l)[i]) || SerializeBytes(l)[i] == Eq || SerializeBytes(l)[i] == Amp
  {
    if l != [] {
      PercentEncodeSafe(Encode(l[0].0));
      PercentEncodeSafe(Encode(l[0].1));
      if |l| > 1 {
        SerializeBytesAscii(l[1..]);
      }
    }
  }

  /** `params.toString()`. */
  function Serialize(l: Pairs): string {
    SerializeBytesAscii(l);
    AsString(SerializeBytes(l))
  }

  lemma HexRoundTrip(n: nat)
    requires n < 16
    ensures IsHex(HexDigit(n)) && HexValue(HexDigit(n)) == n
  {
  }

  /** Percent-decoding after `+` replacement undoes one encoded byte, whatever follows. */
  lemma DecodeByteStep(b: Byte, rest: seq<Byte>)
    ensures PercentDecode(ReplacePlus(EncodeByte(b) + rest)) == [b] + PercentDecode(ReplacePlus(rest))
  {
    var e := EncodeByte(b);
    var r := ReplacePlus(e + rest);
    assert r == ReplacePlus(e) + ReplacePlus(rest);
    if b == Space {
      assert r == [Space] + ReplacePlus(rest);
    } else if Unreserved(b) {
      assert r == [b] + ReplacePlus(rest);
    } else {
      HexRoundTrip(b / 16);
      HexRoundTrip(b % 16);
      assert ReplacePlus(e) == e;
      assert r[3..] == ReplacePlus(rest);
    }
  }

  /** A serialized name or value parses back to the bytes it came from. */
  lemma {:induction false} ComponentBytesRoundTrip(bs: seq<Byte>)
    ensures PercentDecode(ReplacePlus(PercentEncode(bs))) == bs
  {
    if bs != [] {
      DecodeByteStep(bs[0], PercentEncode(bs[1..]));
      ComponentBytesRoundTrip(bs[1..]);
    }
  }

  lemma ComponentRoundTrip(s: string)
    ensures Component(PercentEncode(Encode(s))) == s
  {
    ComponentBytesRoundTrip(Encode(s));
    DecodeEncode(s);
  }

  /** One serialized pair parses back to the pair. */
  lemma PieceRoundTrip(p: (string, string))
    ensures ParsePiece(SerializePair(p)) == p
  {
    var n := PercentEncode(Encode(p.0));
    var v := PercentEncode(Encode(p.1));
    PercentEncodeSafe(Encode(p.0));
    assert Eq !in n;
    var bs := SerializePair(p);
    assert bs[|n|] == Eq;
    assert bs[..|n|] == n && bs[|n| + 1..] == v;
    ComponentRoundTrip(p.0);
    ComponentRoundTrip(p.1);
  }

  /** Parsing a serialization gives back the same pairs, in order. */
  lemma {:induction false} ParseSerialize(l: Pairs)
    ensures Parse(Serialize(l)) == l
  {
    var bs := SerializeBytes(l);
    SerializeBytesAscii(l);
    EncodeAscii(Serialize(l));
    assert Encode(Serialize(l)) == bs;
    ParseBytesSerialize(l);
  }

  /** A serialized pair is a non-empty piece without `&`. */
  lemma PairIsPiece(p: (string, string))
    ensures SerializePair(p) != [] && Amp !in SerializePair(p)
  {
    PercentEncodeSafe(Encode(p.0));
    PercentEncodeSafe(Encode(p.1));
    assert SerializePair(p)[|PercentEncode(Encode(p.0))|] == Eq;
  }

  /** A non-empty piece followed by `&` parses as that piece, then the rest. */
  lemma ParseBytesCons(p: seq<Byte>, rest: seq<Byte>)
    requires p != [] && Amp !in p
    ensures ParseBytes(p + [Amp] + rest) == [ParsePiece(p)] + ParseBytes(rest)
  {
    var bs := p + [Amp] + rest;
    assert bs[|p|] == Amp && bs[..|p|] == p;
    assert bs[|p| + 1..] == rest;
  }

  lemma {:induction false} ParseBytesSerialize(l: Pairs)
    ensures ParseBytes(SerializeBytes(l)) == l
  {
    if l != [] {
      var p := SerializePair(l[0]);
      PairIsPiece(l[0]);
      PieceRoundTrip(l[0]);
      if |l| > 1 {
        ParseBytesCons(p, SerializeBytes(l[1..]));
        ParseBytesSerialize(l[1..]);
        assert l == [l[0]] + l[1..];
      }
    }
  }

  /** The serialization is non-empty exactly when there is a pair to serialize. */
  lemma SerializeNonEmpty(l: Pairs)
    ensures |Serialize(l)| > 0 <==> l != []
  {
    if l != [] {
      if |l| > 1 {
        assert |SerializeBytes(l)| >= |SerializePair(l[0])|;
      }
    }
  }

  /** A parse is empty exactly when every byte is `&`. */
  lemma {:induction false} ParseBytesEmpty(bs: seq<Byte>)
    ensures ParseBytes(bs) == [] <==> forall i :: 0 <= i < |bs| ==> bs[i] == Amp
    decreases |bs|
  {
    match IndexOf(bs, Amp)
    case None =>
      if bs != [] {
        assert bs[0] != Amp;
        assert ParseBytes(bs) == [ParsePiece(bs)];
      }
    case Some(i) =>
      var rest := bs[i + 1..];
      ParseBytesEmpty(rest);
      if i > 0 {
        assert bs[0] in bs[..i];
        assert |ParseBytes(bs)| > 0;
      } else {
        assert ParseBytes(bs) == ParseBytes(rest);
        assert forall k :: 1 <= k < |bs| ==> bs[k] == rest[k - 1];
      }
  }

  /** `new URLSearchParams(s)` is empty exactly when `s` is made of `&` only (the empty string included). */
  lemma ParseEmpty(s: string)
    ensures Parse(s) == [] <==> forall i :: 0 <= i < |s| ==> s[i] == '&'
  {
    ParseBytesEmpty(Encode(s));
    if forall i :: 0 <= i < |s| ==> s[i] == '&' {
      EncodeAscii(s);
    }
    if forall i :: 0 <= i < |Encode(s)| ==> Encode(s)[i] == Amp {
      AsciiOfEncode(s);
      EncodeAscii(s);
    }
  }
}

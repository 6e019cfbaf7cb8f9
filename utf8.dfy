/**
 * UTF-8 as the WHATWG Encoding Standard uses it: "UTF-8 encode" of a string of
 * scalar values, and "UTF-8 decode without BOM" with replacement, which turns
 * every maximal ill-formed subpart into one U+FFFD.
 */
module Utf8 {
  type Byte = b: int | 0 <= b < 256

  const Replacement: char := 0xFFFD as char

  // ---------------------------------------------------------------------------
  // Encoding

  /** The one to four bytes of a scalar value. */
  function EncodeChar(c: char): (bs: seq<Byte>)
    ensures 1 <= |bs| <= 4
    ensures (c as int < 0x80) <==> |bs| == 1
  {
    var u := c as int;
    if u < 0x80 then [u]
    else if u < 0x800 then [0xC0 + u / 64, 0x80 + u % 64]
    else if u < 0x10000 then [0xE0 + u / 4096, 0x80 + (u / 64) % 64, 0x80 + u % 64]
    else [0xF0 + u / 262144, 0x80 + (u / 4096) % 64, 0x80 + (u / 64) % 64, 0x80 + u % 64]
  }

  /** UTF-8 encode. */
  function Encode(s: string): seq<Byte> {
    if s == [] then [] else EncodeChar(s[0]) + Encode(s[1..])
  }

  // ---------------------------------------------------------------------------
  // Decoding

  predicate InRange(b: Byte, lo: int, hi: int) {
    lo <= b <= hi
  }

  /** How many continuation bytes the lead byte `b` announces; `-1` for a byte that cannot lead. */
  function Needed(b: Byte): int {
    if b < 0x80 then 0
    else if 0xC2 <= b <= 0xDF then 1
    else if 0xE0 <= b <= 0xEF then 2
    else if 0xF0 <= b <= 0xF4 then 3
    else -1
  }

  /** The range allowed for the first continuation byte after lead `b`. */
  function FirstLow(b: Byte): int {
    if b == 0xE0 then 0xA0 else if b == 0xF0 then 0x90 else 0x80
  }

  function FirstHigh(b: Byte): int {
    if b == 0xED then 0x9F else if b == 0xF4 then 0x8F else 0xBF
  }

  /** Byte `k` of `bs` (for `1 <= k`) is an acceptable continuation of the lead `bs[0]`. */
  predicate Continues(bs: seq<Byte>, k: nat)
    requires 1 <= k && bs != []
  {
    k < |bs| && InRange(bs[k], if k == 1 then FirstLow(bs[0]) else 0x80, if k == 1 then FirstHigh(bs[0]) else 0xBF)
  }

  /** The number of continuation bytes accepted in a row, starting at byte `k`, up to `need`. */
  function Accepted(bs: seq<Byte>, k: nat, need: nat): (n: nat)
    requires 1 <= k && bs != []
    ensures n <= need - (k - 1) || (k > need && n == 0)
    ensures forall m :: k <= m < k + n ==> Continues(bs, m)
    ensures k + n <= need ==> !Continues(bs, k + n)
    decreases need + 1 - k
  {
    if k > need || !Continues(bs, k) then 0 else 1 + Accepted(bs, k + 1, need)
  }

  /** The scalar value of a complete, well-formed sequence of `need + 1` bytes. */
  function Assemble(bs: seq<Byte>, need: nat): int
    requires need <= 3 && need < |bs|
  {
    var b: seq<int> := bs;
    if need == 0 then b[0]
    else if need == 1 then (b[0] - 0xC0) * 64 + (b[1] - 0x80)
    else if need == 2 then (b[0] - 0xE0) * 4096 + (b[1] - 0x80) * 64 + (b[2] - 0x80)
    else (b[0] - 0xF0) * 262144 + (b[1] - 0x80) * 4096 + (b[2] - 0x80) * 64 + (b[3] - 0x80)
  }

  predicate IsScalar(u: int) {
    (0 <= u < 0xD800) || (0xE000 <= u < 0x110000)
  }

  /** A well-formed sequence always assembles to a scalar value. */
  lemma AssembleScalar(bs: seq<Byte>)
    requires bs != [] && 0 <= Needed(bs[0])
    requires Needed(bs[0]) < |bs|
    requires forall m :: 1 <= m <= Needed(bs[0]) ==> Continues(bs, m)
    ensures IsScalar(Assemble(bs, Needed(bs[0])))
  {
    var need := Needed(bs[0]);
    if need >= 1 {
      assert Continues(bs, 1);
    }
    if need >= 2 {
      assert Continues(bs, 2);
    }
    if need == 3 {
      assert Continues(bs, 3);
    }
  }

  /**
   * One step of the decoder: the next scalar value and the number of bytes it
   * used. An ill-formed subpart yields U+FFFD and consumes only the bytes that
   * were accepted, so the byte that broke the sequence is read again.
   */
  function DecodeStep(bs: seq<Byte>): (r: (char, nat))
    requires bs != []
    ensures 1 <= r.1 <= |bs|
  {
    var need := Needed(bs[0]);
    if need < 0 then (Replacement, 1)
    else
      var n := Accepted(bs, 1, need);
      if n == need then
        AssembleScalar(bs);
        (Assemble(bs, need) as char, need + 1)
      else
        (Replacement, n + 1)
  }

  /** UTF-8 decode without BOM, with replacement. */
  function Decode(bs: seq<Byte>): string
    decreases |bs|
  {
    if bs == [] then []
    else
      var (c, n) := DecodeStep(bs);
      [c] + Decode(bs[n..])
  }

  // ---------------------------------------------------------------------------
  // Round trip

  /** The decoder reads back a one-byte character, whatever follows it. */
  lemma DecodeStep1(c: char, rest: seq<Byte>)
    requires c as int < 0x80
    ensures DecodeStep(EncodeChar(c) + rest) == (c, 1)
  {
    assert (EncodeChar(c) + rest)[0] == c as int;
  }

  /** The decoder reads back a two-byte character, whatever follows it. */
  lemma DecodeStep2(c: char, rest: seq<Byte>)
    requires 0x80 <= c as int < 0x800
    ensures DecodeStep(EncodeChar(c) + rest) == (c, 2)
  {
    var u := c as int;
    var bs := EncodeChar(c) + rest;
    var b0, b1 := u / 64, u % 64;
    assert u == b0 * 64 + b1;
    assert bs[0] == 0xC0 + b0 && bs[1] == 0x80 + b1;
    assert Continues(bs, 1);
    assert Assemble(bs, 1) == u;
  }

  /** The decoder reads back a three-byte character, whatever follows it. */
  lemma DecodeStep3(c: char, rest: seq<Byte>)
    requires 0x800 <= c as int < 0x10000
    ensures DecodeStep(EncodeChar(c) + rest) == (c, 3)
  {
    var u := c as int;
    var bs := EncodeChar(c) + rest;
    var b0, b1, b2 := u / 4096, (u / 64) % 64, u % 64;
    assert u / 64 == b0 * 64 + b1;
    assert u == b0 * 4096 + b1 * 64 + b2;
    assert bs[0] == 0xE0 + b0 && bs[1] == 0x80 + b1 && bs[2] == 0x80 + b2;
    assert Continues(bs, 1);
    assert Continues(bs, 2);
    assert Assemble(bs, 2) == u;
  }

  /** The decoder reads back a four-byte character, whatever follows it. */
  lemma DecodeStep4(c: char, rest: seq<Byte>)
    requires 0x10000 <= c as int
    ensures DecodeStep(EncodeChar(c) + rest) == (c, 4)
  {
    var u := c as int;
    var bs := EncodeChar(c) + rest;
    var b0, b1, b2, b3 := u / 262144, (u / 4096) % 64, (u / 64) % 64, u % 64;
    assert u / 4096 == b0 * 64 + b1;
    assert u / 64 == (u / 4096) * 64 + b2;
    assert u == b0 * 262144 + b1 * 4096 + b2 * 64 + b3;
    assert bs[0] == 0xF0 + b0 && bs[1] == 0x80 + b1 && bs[2] == 0x80 + b2 && bs[3] == 0x80 + b3;
    assert Continues(bs, 1);
    assert Continues(bs, 2);
    assert Continues(bs, 3);
    assert Assemble(bs, 3) == u;
  }

  /** The decoder reads back the first character of an encoding, whatever follows it. */
  lemma DecodeStepOfEncodeChar(c: char, rest: seq<Byte>)
    ensures DecodeStep(EncodeChar(c) + rest) == (c, |EncodeChar(c)|)
  {
    var u := c as int;
    if u < 0x80 {
      DecodeStep1(c, rest);
    } else if u < 0x800 {
      DecodeStep2(c, rest);
    } else if u < 0x10000 {
      DecodeStep3(c, rest);
    } else {
      DecodeStep4(c, rest);
    }
  }

  /** Decoding what was encoded gives the string back. */
  lemma {:induction false} DecodeEncode(s: string)
    ensures Decode(Encode(s)) == s
  {
    if s != [] {
      var e := EncodeChar(s[0]);
      DecodeStepOfEncodeChar(s[0], Encode(s[1..]));
      assert (e + Encode(s[1..]))[|e|..] == Encode(s[1..]);
      DecodeEncode(s[1..]);
    }
  }

  /** An ASCII string encodes byte for byte. */
  lemma {:induction false} EncodeAscii(s: string)
    requires forall i :: 0 <= i < |s| ==> s[i] as int < 0x80
    ensures |Encode(s)| == |s|
    ensures forall i :: 0 <= i < |s| ==> Encode(s)[i] == s[i] as int
  {
    if s != [] {
      EncodeAscii(s[1..]);
      assert Encode(s) == [s[0] as int] + Encode(s[1..]);
    }
  }

  /** Only an ASCII string encodes to bytes that are all below 0x80. */
  lemma {:induction false} AsciiOfEncode(s: string)
    requires forall i :: 0 <= i < |Encode(s)| ==> Encode(s)[i] < 0x80
    ensures forall i :: 0 <= i < |s| ==> s[i] as int < 0x80
  {
    if s != [] {
      var e := EncodeChar(s[0]);
      assert Encode(s) == e + Encode(s[1..]);
      assert Encode(s)[0] == e[0];
      assert forall i :: 0 <= i < |Encode(s[1..])| ==> Encode(s[1..])[i] == Encode(s)[i + |e|];
      AsciiOfEncode(s[1..]);
      assert forall i :: 1 <= i < |s| ==> s[i] == s[1..][i - 1];
    }
  }
}

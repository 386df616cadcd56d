/**
 * UTF-8 as the URL Standard and `decodeURIComponent` use it: the encoding of
 * one Unicode scalar value, and the decoder step of the WHATWG Encoding
 * Standard (section 9.1.1, "UTF-8 decoder"), which either yields a scalar
 * value or reports a malformed "maximal subpart".
 */
module Utf8 {

  type byte = b: int | 0 <= b < 256

  /** Outcome of decoding the bytes at the front of a sequence. */
  datatype Step = Decoded(c: char, size: nat) | Malformed(size: nat)

  predicate IsContinuation(b: byte)
  {
    0x80 <= b <= 0xBF
  }

  /** The length of the sequence a lead byte announces; 0 for a byte that
      cannot begin a well-formed sequence (0x80..0xC1 and 0xF5..0xFF). */
  function SequenceLength(lead: byte): (n: nat)
    ensures n <= 4
  {
    if lead < 0x80 then 1
    else if 0xC2 <= lead <= 0xDF then 2
    else if 0xE0 <= lead <= 0xEF then 3
    else if 0xF0 <= lead <= 0xF4 then 4
    else 0
  }

  /** The range allowed for the byte after `lead` (rules out overlong forms,
      surrogates and values above U+10FFFF); other continuation bytes may
      be anything in 0x80..0xBF. */
  function SecondLow(lead: byte): byte
  {
    if lead == 0xE0 then 0xA0 else if lead == 0xF0 then 0x90 else 0x80
  }

  function SecondHigh(lead: byte): byte
  {
    if lead == 0xED then 0x9F else if lead == 0xF4 then 0x8F else 0xBF
  }

  predicate Accepts(lead: byte, i: nat, b: byte)
  {
    if i == 1 then SecondLow(lead) <= b <= SecondHigh(lead) else IsContinuation(b)
  }

  /** The number of bytes, starting at index `i`, that the decoder consumes
      before it completes `n` bytes or meets a byte it does not accept. */
  function Accepted(bs: seq<byte>, n: nat, i: nat): (k: nat)
    requires 1 <= i <= n && i <= |bs|
    ensures i <= k <= n && k <= |bs|
    ensures forall j | i <= j < k :: Accepts(bs[0], j, bs[j])
    ensures k < n ==> k == |bs| || !Accepts(bs[0], k, bs[k])
    decreases n - i
  {
    if i < n && i < |bs| && Accepts(bs[0], i, bs[i]) then Accepted(bs, n, i + 1) else i
  }

  /** The scalar value of a complete, accepted sequence of `n` bytes. */
  function ScalarValue(bs: seq<byte>, n: nat): (cp: int)
    requires 2 <= n <= 4 && n <= |bs| && SequenceLength(bs[0]) == n
    requires forall j | 1 <= j < n :: Accepts(bs[0], j, bs[j])
    ensures 0x80 <= cp < 0xD800 || 0xE000 <= cp < 0x11_0000
    ensures n == 2 ==> 0x80 <= cp < 0x800
    ensures n == 3 ==> 0x800 <= cp < 0x1_0000
    ensures n == 4 ==> 0x1_0000 <= cp
  {
    assert Accepts(bs[0], 1, bs[1]);
    var b0, b1 := bs[0] as int, bs[1] as int;
    if n == 2 then (b0 - 0xC0) * 64 + (b1 - 0x80)
    else if n == 3 then
      assert Accepts(bs[0], 2, bs[2]);
      ((b0 - 0xE0) * 64 + (b1 - 0x80)) * 64 + (bs[2] as int - 0x80)
    else
      assert Accepts(bs[0], 2, bs[2]) && Accepts(bs[0], 3, bs[3]);
      (((b0 - 0xF0) * 64 + (b1 - 0x80)) * 64 + (bs[2] as int - 0x80)) * 64 + (bs[3] as int - 0x80)
  }

  /** One step of the UTF-8 decoder at the front of `bs`. A malformed
      sequence consumes the lead byte and the continuation bytes accepted
      after it, but never the byte that broke it off. */
  function DecodeStep(bs: seq<byte>): (r: Step)
    requires |bs| > 0
    ensures 1 <= r.size <= |bs|
    ensures r.Decoded? && bs[0] < 0x80 ==> r == Decoded(bs[0] as char, 1)
    ensures r.Decoded? ==> r.size == SequenceLength(bs[0]) && (r.size == 1 <==> bs[0] < 0x80)
    ensures SequenceLength(bs[0]) == 0 ==> r == Malformed(1)
  {
    var lead := bs[0];
    var n := SequenceLength(lead);
    if n == 0 then Malformed(1)
    else if n == 1 then Decoded(lead as char, 1)
    else
      var k := Accepted(bs, n, 1);
      if k < n then Malformed(k) else Decoded(ScalarValue(bs, n) as char, n)
  }

  /** The UTF-8 encoding of one scalar value. */
  function Encode(c: char): (bs: seq<byte>)
    ensures 1 <= |bs| <= 4 && SequenceLength(bs[0]) == |bs|
    ensures |bs| == 1 <==> c as int < 0x80
  {
    var cp := c as int;
    if cp < 0x80 then [cp]
    else if cp < 0x800 then [0xC0 + cp / 64, 0x80 + cp % 64]
    else if cp < 0x1_0000 then [0xE0 + cp / 4096, 0x80 + (cp / 64) % 64, 0x80 + cp % 64]
    else [0xF0 + cp / 262144, 0x80 + (cp / 4096) % 64, 0x80 + (cp / 64) % 64, 0x80 + cp % 64]
  }

  /** The UTF-8 encoding of a string. */
  function EncodeString(s: string): (bs: seq<byte>)
    ensures |bs| >= |s|
  {
    if s == [] then [] else Encode(s[0]) + EncodeString(s[1..])
  }

  /** "UTF-8 decode without BOM": every malformed subpart becomes U+FFFD. */
  function DecodeLossy(bs: seq<byte>): string
    decreases |bs|
  {
    if bs == [] then []
    else match DecodeStep(bs)
      case Decoded(c, k) => [c] + DecodeLossy(bs[k..])
      case Malformed(k) => ['\U{FFFD}'] + DecodeLossy(bs[k..])
  }

  lemma EncodeStep2(cp: int)
    requires 0x80 <= cp < 0x800
    ensures var b0, b1 := 0xC0 + cp / 64, 0x80 + cp % 64;
      0xC2 <= b0 <= 0xDF && IsContinuation(b1) && (b0 - 0xC0) * 64 + (b1 - 0x80) == cp
  {
  }

  lemma EncodeStep3(cp: int)
    requires 0x800 <= cp < 0x1_0000
    ensures var b0, b1, b2 := 0xE0 + cp / 4096, 0x80 + (cp / 64) % 64, 0x80 + cp % 64;
      && 0xE0 <= b0 <= 0xEF && IsContinuation(b1) && IsContinuation(b2)
      && (b0 == 0xE0 ==> 0xA0 <= b1)
      && (b0 == 0xED ==> (b1 <= 0x9F <==> cp < 0xD800))
      && ((b0 - 0xE0) * 64 + (b1 - 0x80)) * 64 + (b2 - 0x80) == cp
  {
    var q := cp / 64;
    assert cp == q * 64 + cp % 64;
    assert q == (q / 64) * 64 + q % 64;
    assert cp / 4096 == q / 64;
  }

  lemma EncodeStep4(cp: int)
    requires 0x1_0000 <= cp < 0x11_0000
    ensures var b0, b1, b2, b3 := 0xF0 + cp / 262144, 0x80 + (cp / 4096) % 64, 0x80 + (cp / 64) % 64, 0x80 + cp % 64;
      && 0xF0 <= b0 <= 0xF4 && IsContinuation(b1) && IsContinuation(b2) && IsContinuation(b3)
      && (b0 == 0xF0 ==> 0x90 <= b1)
      && (b0 == 0xF4 ==> b1 <= 0x8F)
      && (((b0 - 0xF0) * 64 + (b1 - 0x80)) * 64 + (b2 - 0x80)) * 64 + (b3 - 0x80) == cp
  {
    var q := cp / 64;
    var p := q / 64;
    assert cp == q * 64 + cp % 64;
    assert q == p * 64 + q % 64;
    assert p == (p / 64) * 64 + p % 64;
    assert cp / 4096 == p;
    assert cp / 262144 == p / 64;
  }

  /** Decoding undoes encoding, whatever follows the encoded character. */
  lemma DecodeEncode(c: char, rest: seq<byte>)
    ensures DecodeStep(Encode(c) + rest) == Decoded(c, |Encode(c)|)
  {
    var cp := c as int;
    var e := Encode(c);
    var bs := e + rest;
    assert bs[..|e|] == e;
    if cp < 0x80 {
    } else if cp < 0x800 {
      EncodeStep2(cp);
      assert Accepts(bs[0], 1, bs[1]);
      assert Accepted(bs, 2, 1) == 2 by { assert Accepted(bs, 2, 2) == 2; }
    } else if cp < 0x1_0000 {
      EncodeStep3(cp);
      assert Accepts(bs[0], 1, bs[1]) && Accepts(bs[0], 2, bs[2]);
      assert Accepted(bs, 3, 1) == 3 by { assert Accepted(bs, 3, 3) == 3; }
    } else {
      EncodeStep4(cp);
      assert Accepts(bs[0], 1, bs[1]) && Accepts(bs[0], 2, bs[2]) && Accepts(bs[0], 3, bs[3]);
      assert Accepted(bs, 4, 1) == 4 by { assert Accepted(bs, 4, 4) == 4; }
    }
  }

  /** The lossy decoder gives back any string it is handed in UTF-8. */
  lemma {:induction false} DecodeLossyEncodeString(s: string)
    ensures DecodeLossy(EncodeString(s)) == s
  {
    if s != [] {
      var e := Encode(s[0]);
      var bs := EncodeString(s);
      assert bs == e + EncodeString(s[1..]);
      DecodeEncode(s[0], EncodeString(s[1..]));
      assert bs[|e|..] == EncodeString(s[1..]);
      DecodeLossyEncodeString(s[1..]);
    }
  }

  /** An ASCII character is its own one-byte encoding. */
  lemma EncodeAscii(c: char)
    requires c as int < 0x80
    ensures Encode(c) == [c as int]
  {
  }

  /** The string whose characters have the code points `bs`, one per byte. */
  function Latin1(bs: seq<byte>): (s: string)
    ensures |s| == |bs| && forall i | 0 <= i < |bs| :: s[i] as int == bs[i]
  {
    if bs == [] then [] else [bs[0] as char] + Latin1(bs[1..])
  }

  /** An ASCII string is encoded byte for byte. */
  lemma {:induction false} EncodeAsciiString(s: string)
    requires forall i | 0 <= i < |s| :: s[i] as int < 0x80
    ensures |EncodeString(s)| == |s| && forall i | 0 <= i < |s| :: EncodeString(s)[i] == s[i] as int
  {
    if s != [] {
      EncodeAscii(s[0]);
      EncodeAsciiString(s[1..]);
    }
  }

  /** ASCII bytes read as text encode back to themselves. */
  lemma {:induction false} EncodeLatin1(bs: seq<byte>)
    requires forall i | 0 <= i < |bs| :: bs[i] < 0x80
    ensures EncodeString(Latin1(bs)) == bs
  {
    EncodeAsciiString(Latin1(bs));
  }
}

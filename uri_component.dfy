/**
 * `decodeURIComponent` and `encodeURIComponent` of ECMA-262 (section 19.2.6,
 * "URI Handling Functions"): percent-decoding per section 2.1 of RFC 3986,
 * where an escape of a byte of 0x80 or more must start a complete, valid
 * UTF-8 sequence of escapes and anything else is a URIError. For
 * `decodeURIComponent` the set of reserved characters is empty, so every
 * escape is decoded.
 */
module UriComponent {
  import opened Wrappers
  import Utf8

  predicate IsHexDigit(c: char)
  {
    ('0' <= c <= '9') || ('A' <= c <= 'F') || ('a' <= c <= 'f')
  }

  function HexValue(c: char): (v: nat)
    requires IsHexDigit(c)
    ensures v < 16
  {
    if '0' <= c <= '9' then c as int - '0' as int
    else if 'A' <= c <= 'F' then c as int - 'A' as int + 10
    else c as int - 'a' as int + 10
  }

  /** The upper-case digit `encodeURIComponent` writes. */
  function HexDigit(v: nat): (c: char)
    requires v < 16
    ensures IsHexDigit(c) && HexValue(c) == v
  {
    if v < 10 then ('0' as int + v) as char else ('A' as int + v - 10) as char
  }

  /** `s` starts with `%` and two hexadecimal digits. */
  predicate IsEscape(s: string)
  {
    |s| >= 3 && s[0] == '%' && IsHexDigit(s[1]) && IsHexDigit(s[2])
  }

  function EscapeValue(s: string): Utf8.byte
    requires IsEscape(s)
  {
    HexValue(s[1]) * 16 + HexValue(s[2])
  }

  /** The `n` bytes written as `n` consecutive escapes at the front of `s`. */
  function Escapes(s: string, n: nat): (r: Option<seq<Utf8.byte>>)
    ensures r.Some? ==> |r.value| == n && 3 * n <= |s|
    decreases n
  {
    if n == 0 then Some([])
    else if !IsEscape(s) then None
    else match Escapes(s[3..], n - 1)
      case None => None
      case Some(bs) => Some([EscapeValue(s)] + bs)
  }

  /** The number of leading 1 bits of a byte; 5 stands for "five or more". */
  function LeadingOnes(b: Utf8.byte): nat
  {
    if b < 0x80 then 0 else if b < 0xC0 then 1 else if b < 0xE0 then 2
    else if b < 0xF0 then 3 else if b < 0xF8 then 4 else 5
  }

  function Prepend(c: char, r: Option<string>): Option<string>
  {
    match r
    case None => None
    case Some(t) => Some([c] + t)
  }

  /** `decodeURIComponent(s)`: `None` stands for the URIError it throws. */
  function Decode(s: string): (r: Option<string>)
    ensures '%' !in s ==> r == Some(s)
    ensures r.Some? ==> |r.value| <= |s|
    ensures r.Some? && s != [] ==> r.value != []
    decreases |s|
  {
    if s == [] then Some([])
    else if s[0] != '%' then
      assert s == [s[0]] + s[1..];
      Prepend(s[0], Decode(s[1..]))
    else if !IsEscape(s) then None
    else
      var b := EscapeValue(s);
      if b < 0x80 then Prepend(b as char, Decode(s[3..]))
      else
        var n := LeadingOnes(b);
        if n < 2 || n > 4 then None
        else match Escapes(s, n)
          case None => None
          case Some(octets) =>
            match Utf8.DecodeStep(octets)
            case Decoded(c, k) => if k == n then Prepend(c, Decode(s[3 * n..])) else None
            case Malformed(_) => None
  }

  /** The characters `encodeURIComponent` leaves as they are. */
  predicate IsUnescaped(c: char)
  {
    || ('a' <= c <= 'z') || ('A' <= c <= 'Z') || ('0' <= c <= '9')
    || c == '-' || c == '_' || c == '.' || c == '!' || c == '~' || c == '*' || c == '\'' || c == '(' || c == ')'
  }

  function EscapeBytes(bs: seq<Utf8.byte>): (s: string)
    ensures |s| == 3 * |bs|
  {
    if bs == [] then [] else ['%', HexDigit(bs[0] / 16), HexDigit(bs[0] % 16)] + EscapeBytes(bs[1..])
  }

  function EncodeChar(c: char): string
  {
    if IsUnescaped(c) then [c] else EscapeBytes(Utf8.Encode(c))
  }

  /** `encodeURIComponent(s)`, the partner of `Decode`. */
  function Encode(s: string): string
  {
    if s == [] then [] else EncodeChar(s[0]) + Encode(s[1..])
  }

  /** The escape `encodeURIComponent` writes for one byte reads back as that byte. */
  lemma EscapeOfByte(b: Utf8.byte, rest: string)
    ensures var s := ['%', HexDigit(b / 16), HexDigit(b % 16)] + rest;
      IsEscape(s) && EscapeValue(s) == b && s[3..] == rest
  {
    var s := ['%', HexDigit(b / 16), HexDigit(b % 16)] + rest;
    assert HexValue(s[1]) == b / 16 && HexValue(s[2]) == b % 16;
  }

  lemma {:induction false} EscapesOfEscapeBytes(bs: seq<Utf8.byte>, rest: string)
    ensures Escapes(EscapeBytes(bs) + rest, |bs|) == Some(bs)
  {
    if bs != [] {
      var tail := EscapeBytes(bs[1..]) + rest;
      var s := EscapeBytes(bs) + rest;
      assert s == ['%', HexDigit(bs[0] / 16), HexDigit(bs[0] % 16)] + tail;
      assert IsEscape(s) && EscapeValue(s) == bs[0] && s[3..] == tail by { EscapeOfByte(bs[0], tail); }
      assert Escapes(tail, |bs| - 1) == Some(bs[1..]) by { EscapesOfEscapeBytes(bs[1..], rest); }
      assert [bs[0]] + bs[1..] == bs;
    }
  }

  /** An escape of an ASCII byte decodes to that character. */
  lemma DecodeSingleByte(s: string, b: Utf8.byte)
    requires Escapes(s, 1) == Some([b]) && b < 0x80
    ensures Decode(s) == Prepend(b as char, Decode(s[3..]))
  {
    assert IsEscape(s);
    assert Escapes(s[3..], 0) == Some([]);
    assert [EscapeValue(s)] + [] == [b];
    assert EscapeValue(s) == [b][0] == b;
    assert s != [] && s[0] == '%';
  }

  /** Escapes of a complete UTF-8 sequence decode to its character. */
  lemma DecodeMultiByte(s: string, bs: seq<Utf8.byte>, c: char)
    requires 2 <= |bs| <= 4 && Escapes(s, |bs|) == Some(bs) && LeadingOnes(bs[0]) == |bs|
    requires Utf8.DecodeStep(bs) == Utf8.Decoded(c, |bs|)
    ensures Decode(s) == Prepend(c, Decode(s[3 * |bs|..]))
  {
    assert IsEscape(s) && EscapeValue(s) == bs[0];
  }

  lemma LeadingOnesOfEncoding(c: char)
    requires c as int >= 0x80
    ensures LeadingOnes(Utf8.Encode(c)[0]) == |Utf8.Encode(c)|
  {
  }

  lemma DecodeEncodeChar(c: char, rest: string)
    ensures Decode(EncodeChar(c) + rest) == Prepend(c, Decode(rest))
  {
    var s := EncodeChar(c) + rest;
    if IsUnescaped(c) {
      assert s[0] == c && s[1..] == rest;
    } else {
      var bs := Utf8.Encode(c);
      var n := |bs|;
      assert s == EscapeBytes(bs) + rest;
      assert Escapes(s, n) == Some(bs) by { EscapesOfEscapeBytes(bs, rest); }
      assert s[3 * n..] == rest;
      if n == 1 {
        assert bs == [c as int] by { Utf8.EncodeAscii(c); }
        DecodeSingleByte(s, bs[0]);
      } else {
        assert Utf8.DecodeStep(bs) == Utf8.Decoded(c, n) by {
          Utf8.DecodeEncode(c, []);
          assert bs + [] == bs;
        }
        LeadingOnesOfEncoding(c);
        DecodeMultiByte(s, bs, c);
      }
    }
  }

  /** `decodeURIComponent(encodeURIComponent(s)) == s` for every string. */
  lemma {:induction false} DecodeEncode(s: string)
    ensures Decode(Encode(s)) == Some(s)
  {
    if s != [] {
      DecodeEncodeChar(s[0], Encode(s[1..]));
      DecodeEncode(s[1..]);
      assert [s[0]] + s[1..] == s;
    }
  }

  /** Every `%` inside a run of `n` escapes starts an escape of its own. */
  lemma {:induction false} EscapesCoverPercent(s: string, n: nat, k: nat)
    requires Escapes(s, n).Some? && k < 3 * n && s[k] == '%'
    ensures IsEscape(s[k..])
    decreases n
  {
    if k >= 3 {
      assert s[3..][k - 3..] == s[k..];
      EscapesCoverPercent(s[3..], n - 1, k - 3);
    }
  }

  /** A `%` anywhere in the text that is not followed by two hexadecimal
      digits makes decoding fail: the decoder reaches every `%` as the start
      of an escape. */
  lemma {:induction false} AnyStrayPercentFails(s: string, k: nat)
    requires k < |s| && s[k] == '%' && !IsEscape(s[k..])
    ensures Decode(s) == None
    decreases |s|
  {
    if s[0] != '%' {
      assert s[1..][k - 1..] == s[k..];
      AnyStrayPercentFails(s[1..], k - 1);
    } else if IsEscape(s) {
      var b := EscapeValue(s);
      if b < 0x80 {
        if k >= 3 {
          assert s[3..][k - 3..] == s[k..];
          AnyStrayPercentFails(s[3..], k - 3);
        }
      } else {
        var n := LeadingOnes(b);
        if 2 <= n <= 4 && Escapes(s, n).Some? {
          if k < 3 * n {
            EscapesCoverPercent(s, n, k);
          } else {
            assert s[3 * n..][k - 3 * n..] == s[k..];
            AnyStrayPercentFails(s[3 * n..], k - 3 * n);
          }
        }
      }
    }
  }

  /** Literal cases of the decoder: an escaped slash is decoded, a truncated
      escape is a URIError. */
  lemma DecodeEscapedSlash(s: string)
    requires s == "4%2F0Ab"
    ensures Decode(s) == Some("4/0Ab")
  {
    var t := s[1..];
    assert t[3..] == s[4..] == "0Ab";
    assert Decode(s[4..]) == Some("0Ab");
    assert IsEscape(t) && EscapeValue(t) == 0x2F && t[0] == '%';
    assert Decode(t) == Prepend(0x2F as char, Decode(t[3..]));
    assert ['/'] + "0Ab" == "/0Ab";
    assert Decode(s) == Prepend('4', Decode(t));
    assert ['4'] + "/0Ab" == "4/0Ab";
  }

  lemma DecodeTruncatedEscape(s: string)
    requires s == "4%2"
    ensures Decode(s) == None
  {
    assert !IsEscape(s[1..]);
    assert Decode(s) == Prepend('4', Decode(s[1..]));
  }
}

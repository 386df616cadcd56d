/**
 * `URLSearchParams` over a query: the application/x-www-form-urlencoded
 * parser of the WHATWG URL Standard (section 5.1), its percent-decoding
 * (section 1.3) and, as its partner, the serializer of section 5.2.
 * Parsing works on the UTF-8 bytes of the query and never fails.
 */
module FormUrlEncoded {
  import opened Wrappers
  import Utf8

  type byte = Utf8.byte

  const Ampersand: byte := 0x26
  const EqualsSign: byte := 0x3D
  const PlusSign: byte := 0x2B
  const Space: byte := 0x20
  const PercentSign: byte := 0x25

  predicate IsHexByte(b: byte)
  {
    (0x30 <= b <= 0x39) || (0x41 <= b <= 0x46) || (0x61 <= b <= 0x66)
  }

  function HexByteValue(b: byte): (v: nat)
    requires IsHexByte(b)
    ensures v < 16
  {
    if b <= 0x39 then b - 0x30 else if b <= 0x46 then b - 0x41 + 10 else b - 0x61 + 10
  }

  function UpperHex(v: nat): (b: byte)
    requires v < 16
    ensures IsHexByte(b) && HexByteValue(b) == v
  {
    if v < 10 then 0x30 + v else 0x41 + v - 10
  }

  /** Percent-decoding of bytes: `%` and two hexadecimal digits become one
      byte; any other `%` is kept as it is, so decoding never fails. */
  function PercentDecode(bs: seq<byte>): (r: seq<byte>)
    ensures |r| <= |bs|
    ensures PercentSign !in bs ==> r == bs
  {
    if bs == [] then []
    else if bs[0] == PercentSign && |bs| >= 3 && IsHexByte(bs[1]) && IsHexByte(bs[2]) then
      [(HexByteValue(bs[1]) * 16 + HexByteValue(bs[2])) as byte] + PercentDecode(bs[3..])
    else
      assert bs == [bs[0]] + bs[1..];
      [bs[0]] + PercentDecode(bs[1..])
  }

  /** `+` stands for a space. */
  function ReplacePlus(bs: seq<byte>): (r: seq<byte>)
    ensures |r| == |bs| && PlusSign !in r
    ensures forall i | 0 <= i < |bs| :: r[i] == (if bs[i] == PlusSign then Space else bs[i])
  {
    if bs == [] then [] else [if bs[0] == PlusSign then Space else bs[0]] + ReplacePlus(bs[1..])
  }

  /** The index of the first `b` in `bs`, or `|bs|` if there is none. */
  function IndexOf(bs: seq<byte>, b: byte): (i: nat)
    ensures i <= |bs| && (i < |bs| ==> bs[i] == b) && b !in bs[..i]
  {
    if bs == [] then 0
    else if bs[0] == b then 0
    else
      var i := 1 + IndexOf(bs[1..], b);
      assert bs[..i] == [bs[0]] + bs[1..][..i - 1];
      i
  }

  lemma {:induction false} IndexOfFirst(bs: seq<byte>, b: byte, k: nat)
    requires k < |bs| && bs[k] == b && b !in bs[..k]
    ensures IndexOf(bs, b) == k
  {
    if k > 0 {
      assert bs[0] == bs[..k][0];
      assert bs[1..][..k - 1] == bs[..k][1..];
      IndexOfFirst(bs[1..], b, k - 1);
    }
  }

  /** The pieces of `bs` between the separators `sep`. */
  function Split(bs: seq<byte>, sep: byte): (pieces: seq<seq<byte>>)
    ensures |pieces| >= 1
    ensures forall k | 0 <= k < |pieces| :: sep !in pieces[k]
    decreases |bs|
  {
    var i := IndexOf(bs, sep);
    if i == |bs| then [bs] else [bs[..i]] + Split(bs[i + 1..], sep)
  }

  /** A name or a value: `+` becomes a space, then percent-decoding, then
      UTF-8 decoding with replacement of malformed sequences. */
  function DecodeComponent(bs: seq<byte>): string
  {
    Utf8.DecodeLossy(PercentDecode(ReplacePlus(bs)))
  }

  /** A piece splits at its first `=`; a piece without one is a name with
      the empty value. */
  function ParsePair(piece: seq<byte>): (string, string)
  {
    var i := IndexOf(piece, EqualsSign);
    (DecodeComponent(piece[..i]), DecodeComponent(if i < |piece| then piece[i + 1..] else []))
  }

  /** Empty pieces are skipped. */
  function ParsePieces(pieces: seq<seq<byte>>): seq<(string, string)>
  {
    if pieces == [] then []
    else (if pieces[0] == [] then [] else [ParsePair(pieces[0])]) + ParsePieces(pieces[1..])
  }

  /** The name-value list of a query. */
  function Parse(bs: seq<byte>): seq<(string, string)>
  {
    ParsePieces(Split(bs, Ampersand))
  }

  /** `searchParams.get(name)`: the value of the first pair with that name. */
  function Get(pairs: seq<(string, string)>, name: string): (r: Option<string>)
    ensures r.None? <==> forall i | 0 <= i < |pairs| :: pairs[i].0 != name
    ensures r.Some? ==> exists i | 0 <= i < |pairs| :: pairs[i] == (name, r.value) && forall j | 0 <= j < i :: pairs[j].0 != name
  {
    if pairs == [] then None
    else if pairs[0].0 == name then Some(pairs[0].1)
    else
      var r := Get(pairs[1..], name);
      assert forall i | 0 <= i < |pairs[1..]| :: pairs[1..][i] == pairs[i + 1];
      assert r.Some? ==> exists i | 0 <= i < |pairs| :: pairs[i] == (name, r.value) && forall j | 0 <= j < i :: pairs[j].0 != name by {
        if r.Some? {
          var i :| 0 <= i < |pairs[1..]| && pairs[1..][i] == (name, r.value) && forall j | 0 <= j < i :: pairs[1..][j].0 != name;
          assert pairs[i + 1] == (name, r.value);
          assert forall j | 0 <= j < i + 1 :: pairs[j].0 != name by {
            forall j | 0 <= j < i + 1 ensures pairs[j].0 != name {
              if j > 0 { assert pairs[j] == pairs[1..][j - 1]; }
            }
          }
        }
      }
      r
  }

  /** The bytes the serializer writes unchanged. */
  predicate IsKept(b: byte)
  {
    (0x30 <= b <= 0x39) || (0x41 <= b <= 0x5A) || (0x61 <= b <= 0x7A)
    || b == 0x2A || b == 0x2D || b == 0x2E || b == 0x5F
  }

  function SerializeByte(b: byte): seq<byte>
  {
    if b == Space then [PlusSign]
    else if IsKept(b) then [b]
    else [PercentSign, UpperHex(b / 16), UpperHex(b % 16)]
  }

  /** The form-urlencoded byte serializer: a space becomes `+`, every byte
      outside the kept set an upper-case escape. */
  function SerializeBytes(bs: seq<byte>): seq<byte>
  {
    if bs == [] then [] else SerializeByte(bs[0]) + SerializeBytes(bs[1..])
  }

  function SerializePair(p: (string, string)): seq<byte>
  {
    SerializeBytes(Utf8.EncodeString(p.0)) + [EqualsSign] + SerializeBytes(Utf8.EncodeString(p.1))
  }

  /** The serializer of a name-value list: pairs joined by `&`. */
  function Serialize(pairs: seq<(string, string)>): seq<byte>
  {
    if pairs == [] then []
    else if |pairs| == 1 then SerializePair(pairs[0])
    else SerializePair(pairs[0]) + [Ampersand] + Serialize(pairs[1..])
  }

  lemma {:induction false} SerializedHasNoSeparator(bs: seq<byte>)
    ensures Ampersand !in SerializeBytes(bs) && EqualsSign !in SerializeBytes(bs)
  {
    if bs != [] {
      SerializedHasNoSeparator(bs[1..]);
    }
  }

  lemma ReplacePlusAppend(a: seq<byte>, b: seq<byte>)
    ensures ReplacePlus(a + b) == ReplacePlus(a) + ReplacePlus(b)
  {
  }

  lemma {:induction false} DecodeSerializedBytes(bs: seq<byte>)
    ensures PercentDecode(ReplacePlus(SerializeBytes(bs))) == bs
  {
    if bs != [] {
      var chunk := SerializeByte(bs[0]);
      var rest := SerializeBytes(bs[1..]);
      ReplacePlusAppend(chunk, rest);
      var r := ReplacePlus(rest);
      var c := ReplacePlus(chunk);
      if bs[0] == Space || IsKept(bs[0]) {
        assert c == [bs[0]];
        assert (c + r)[0] == bs[0] && (c + r)[1..] == r;
      } else {
        assert c == chunk;
        assert (c + r)[..3] == chunk && (c + r)[3..] == r;
        assert HexByteValue(UpperHex(bs[0] / 16)) * 16 + HexByteValue(UpperHex(bs[0] % 16)) == bs[0];
      }
      DecodeSerializedBytes(bs[1..]);
      assert [bs[0]] + bs[1..] == bs;
    }
  }

  lemma DecodeSerializedString(s: string)
    ensures DecodeComponent(SerializeBytes(Utf8.EncodeString(s))) == s
  {
    DecodeSerializedBytes(Utf8.EncodeString(s));
    Utf8.DecodeLossyEncodeString(s);
  }

  lemma ParseSerializedPair(p: (string, string))
    ensures SerializePair(p) != [] && Ampersand !in SerializePair(p)
    ensures ParsePair(SerializePair(p)) == p
  {
    var n := SerializeBytes(Utf8.EncodeString(p.0));
    var v := SerializeBytes(Utf8.EncodeString(p.1));
    var piece := n + [EqualsSign] + v;
    SerializedHasNoSeparator(Utf8.EncodeString(p.0));
    SerializedHasNoSeparator(Utf8.EncodeString(p.1));
    assert piece[..|n|] == n;
    IndexOfFirst(piece, EqualsSign, |n|);
    assert piece[..|n|] == n && piece[|n| + 1..] == v;
    DecodeSerializedString(p.0);
    DecodeSerializedString(p.1);
    assert Ampersand !in piece by {
      forall k | 0 <= k < |piece| ensures piece[k] != Ampersand {
        if k < |n| { assert piece[k] == n[k]; } else if k > |n| { assert piece[k] == v[k - |n| - 1]; }
      }
    }
  }

  lemma SplitAtFirst(piece: seq<byte>, rest: seq<byte>)
    requires Ampersand !in piece
    ensures Split(piece + [Ampersand] + rest, Ampersand) == [piece] + Split(rest, Ampersand)
  {
    var bs := piece + [Ampersand] + rest;
    assert bs[..|piece|] == piece;
    IndexOfFirst(bs, Ampersand, |piece|);
    var i := |piece|;
    assert bs[..i] == piece && bs[i + 1..] == rest;
  }

  lemma SplitWhole(piece: seq<byte>)
    requires Ampersand !in piece
    ensures Split(piece, Ampersand) == [piece]
  {
  }

  /** Parsing gives back every list of pairs the serializer wrote, so `Get`
      on a serialized query finds the first value given for a name. */
  lemma {:induction false} ParseSerialize(pairs: seq<(string, string)>)
    ensures Parse(Serialize(pairs)) == pairs
  {
    if pairs == [] {
      assert Split([], Ampersand) == [[]];
      assert ParsePieces([[]]) == [] + ParsePieces([]);
    } else {
      ParseSerializedPair(pairs[0]);
      var first := SerializePair(pairs[0]);
      if |pairs| == 1 {
        SplitWhole(first);
        assert ParsePieces([first]) == [ParsePair(first)];
      } else {
        SplitAtFirst(first, Serialize(pairs[1..]));
        var pieces := [first] + Split(Serialize(pairs[1..]), Ampersand);
        assert pieces[0] == first && pieces[1..] == Split(Serialize(pairs[1..]), Ampersand);
        ParseSerialize(pairs[1..]);
        assert [pairs[0]] + pairs[1..] == pairs;
      }
    }
  }

  /** A byte a query may hold without further escaping: printable ASCII
      other than the fragment delimiter `#`. */
  predicate IsQueryByte(b: byte)
  {
    0x21 <= b <= 0x7E && b != 0x23
  }

  lemma {:induction false} SerializedBytesAreQueryBytes(bs: seq<byte>)
    ensures forall i | 0 <= i < |SerializeBytes(bs)| :: IsQueryByte(SerializeBytes(bs)[i])
  {
    if bs != [] {
      SerializedBytesAreQueryBytes(bs[1..]);
      var c := SerializeByte(bs[0]);
      assert forall i | 0 <= i < |c| :: IsQueryByte(c[i]);
    }
  }

  /** The serializer writes only bytes a query may hold as they are. */
  lemma {:induction false} SerializedAreQueryBytes(pairs: seq<(string, string)>)
    ensures forall i | 0 <= i < |Serialize(pairs)| :: IsQueryByte(Serialize(pairs)[i])
  {
    if pairs != [] {
      SerializedBytesAreQueryBytes(Utf8.EncodeString(pairs[0].0));
      SerializedBytesAreQueryBytes(Utf8.EncodeString(pairs[0].1));
      if |pairs| > 1 {
        SerializedAreQueryBytes(pairs[1..]);
      }
    }
  }
}

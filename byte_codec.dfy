/** `TestFileParser::formattedStringToBytes` and
    `TestFileParser::bytesToFormattedString`: the conversion between a
    comma-separated list of decimal literals and a byte string plus one
    `ByteFormat` per literal. The functions specify; the methods are the
    source's loops, proved to compute the functions. */
module ByteCodec {
  import opened Ascii
  import opened U256
  import opened Wrappers
  import opened Lexing

  datatype FormatType = UnsignedDec | SignedDec

  /** How one value of a byte string is rendered back, and how many bytes it takes. */
  datatype ByteFormat = ByteFormat(kind: FormatType, size: nat)

  const DefaultFormatSize: nat := 32

  /** A `ByteFormat` with its size left at the default. */
  function NewFormat(kind: FormatType): (f: ByteFormat)
    ensures f.kind == kind && f.size == 32
  {
    ByteFormat(kind, DefaultFormatSize)
  }

  /** The bytes and formats produced by the encoder. */
  type Encoding = (seq<byte>, seq<ByteFormat>)

  const ArgumentEncodingInvalid: string := "Argument encoding invalid."

  /** The shape test at the start of each token: a digit, or a minus followed by a digit. */
  predicate StartsNumber(s: string, i: nat)
    requires i < |s|
  {
    IsDigit(s[i]) || (s[i] == '-' && i + 1 < |s| && IsDigit(s[i + 1]))
  }

  /** A token runs up to the first whitespace or comma. */
  function TokenEnd(s: string, i: nat): (r: nat)
    requires i <= |s|
    ensures i <= r <= |s|
    ensures r < |s| ==> IsSpace(s[r]) || s[r] == ','
    decreases |s| - i
  {
    if i < |s| && !IsSpace(s[i]) && s[i] != ',' then TokenEnd(s, i + 1) else i
  }

  /** The bytes for one converted value: the single byte 0 for zero, the
      32-byte big-endian word otherwise. */
  function EncodeNumber(v: nat): (bs: seq<byte>)
    requires v < Modulus
    ensures |bs| == (if v == 0 then 1 else WordSize)
  {
    if v == 0 then [0] else ToBigEndianWord(v)
  }

  /** Reading the bytes of a value back gives the value. */
  lemma EncodeNumberValue(v: nat)
    requires v < Modulus
    ensures FromBigEndian(EncodeNumber(v)) == v
  {
    if v != 0 {
      WordRoundTrip(v);
    }
  }

  function Prepend(bytes: seq<byte>, formats: seq<ByteFormat>, r: Result<Encoding>): Result<Encoding> {
    match r
    case Ok((b, f)) => Ok((bytes + b, formats + f))
    case Err(m) => Err(m)
  }

  lemma PrependTwice(b1: seq<byte>, f1: seq<ByteFormat>, b2: seq<byte>, f2: seq<ByteFormat>, r: Result<Encoding>)
    ensures Prepend(b1, f1, Prepend(b2, f2, r)) == Prepend(b1 + b2, f1 + f2, r)
  {
    if r.Ok? {
      assert b1 + (b2 + r.value.0) == b1 + b2 + r.value.0;
      assert f1 + (f2 + r.value.1) == f1 + f2 + r.value.1;
    }
  }

  lemma PrependNothing(r: Result<Encoding>)
    ensures Prepend([], [], r) == r
  {
    if r.Ok? {
      assert [] + r.value.0 == r.value.0 && [] + r.value.1 == r.value.1;
    }
  }

  /** The encoding of the text from cursor `i` on: nothing at the end,
      otherwise the encoding from the literal that stands there. */
  function EncodeFrom(s: string, i: nat): (r: Result<Encoding>)
    requires i <= |s|
    ensures r.Ok? ==> forall k :: 0 <= k < |r.value.1| ==> r.value.1[k].size == DefaultFormatSize
    decreases |s| - i, 1
  {
    if i == |s| then Ok(([], [])) else EncodeLiteral(s, i)
  }

  /** The encoding from a literal at `i` on: the literal must start like a
      number and convert to a u256, and be followed by whitespace and then
      the end or a comma; its bytes and format come first, and the encoding
      goes on after the comma and the whitespace behind it. */
  function EncodeLiteral(s: string, i: nat): (r: Result<Encoding>)
    requires i < |s|
    ensures r.Ok? ==> forall k :: 0 <= k < |r.value.1| ==> r.value.1[k].size == DefaultFormatSize
    decreases |s| - i, 0
  {
    if !StartsNumber(s, i) then Err(ArgumentEncodingInvalid)
    else
      var kind := if s[i] == '-' then SignedDec else UnsignedDec;
      var e := TokenEnd(s, i);
      match ParseU256(s[i..e])
      case None => Err(ArgumentEncodingInvalid)
      case Some(v) =>
        var p := SkipSpaces(s, e);
        match (if p == |s| then Ok(p) else Expect(s, p, ','))
        case Err(m) => Err(m)
        case Ok(q) => Prepend(EncodeNumber(v), [NewFormat(kind)], EncodeFrom(s, SkipSpaces(s, q)))
  }

  /** `formattedStringToBytes` as a function of the whole text. */
  function Encode(s: string): Result<Encoding> {
    EncodeFrom(s, 0)
  }

  /** `formattedStringToBytes`: one pass over the text with a cursor,
      appending the bytes and the format of each literal as it is read. */
  method FormattedStringToBytes(s: string) returns (r: Result<Encoding>)
    ensures r == Encode(s)
  {
    var result: seq<byte> := [];
    var formats: seq<ByteFormat> := [];
    var it := 0;
    PrependNothing(Encode(s));
    while it != |s|
      invariant it <= |s|
      invariant Encode(s) == Prepend(result, formats, EncodeFrom(s, it))
      decreases |s| - it
    {
      ghost var start := it;
      if IsDigit(s[it]) || (s[it] == '-' && it + 1 != |s| && IsDigit(s[it + 1])) {
        var kind := UnsignedDec;
        var isNegative := s[it] == '-';
        if isNegative {
          kind := SignedDec;
        }
        var valueBegin := it;
        while it != |s| && !IsSpace(s[it]) && s[it] != ','
          invariant valueBegin <= it <= |s|
          invariant TokenEnd(s, it) == TokenEnd(s, valueBegin)
        {
          it := it + 1;
        }
        var numberValue := ParseU256(s[valueBegin..it]);
        if numberValue.None? {
          return Err(ArgumentEncodingInvalid);
        }
        var newBytes := if numberValue.value == 0 then [0] else ToBigEndianWord(numberValue.value);
        assert newBytes == EncodeNumber(numberValue.value);
        ghost var done := Prepend(result, formats, EncodeFrom(s, start));
        result := result + newBytes;
        formats := formats + [NewFormat(kind)];
        it := SkipWhitespace(s, it);
        if it != |s| {
          var expected := Expect(s, it, ',');
          if expected.Err? {
            return Err(expected.msg);
          }
          it := expected.value;
        }
        it := SkipWhitespace(s, it);
        assert EncodeFrom(s, start) == Prepend(newBytes, [NewFormat(kind)], EncodeFrom(s, it));
        PrependTwice(result[..|result| - |newBytes|], formats[..|formats| - 1], newBytes, [NewFormat(kind)], EncodeFrom(s, it));
        assert result[..|result| - |newBytes|] + newBytes == result;
        assert formats[..|formats| - 1] + [NewFormat(kind)] == formats;
      } else {
        return Err(ArgumentEncodingInvalid);
      }
    }
    assert EncodeFrom(s, it) == Ok(([], []));
    assert result + [] == result && formats + [] == formats;
    r := Ok((result, formats));
  }

  /** The number of bytes the formats claim. */
  function SumSizes(formats: seq<ByteFormat>): nat {
    if formats == [] then 0 else formats[0].size + SumSizes(formats[1..])
  }

  /** What `bytesToFormattedString` needs of its arguments, entry by entry:
      each format's slice lies within the bytes, a signed entry has a first
      byte to test, and the last slice ends exactly at the end. */
  predicate Decodable(bytes: seq<byte>, formats: seq<ByteFormat>) {
    if formats == [] then bytes == []
    else
      && formats[0].size <= |bytes|
      && (formats[0].kind == SignedDec ==> formats[0].size > 0)
      && Decodable(bytes[formats[0].size..], formats[1..])
  }

  /** Decodable formats cover the bytes exactly. */
  lemma {:induction false} DecodableCoversBytes(bytes: seq<byte>, formats: seq<ByteFormat>)
    requires Decodable(bytes, formats)
    ensures SumSizes(formats) == |bytes|
  {
    if formats != [] {
      DecodableCoversBytes(bytes[formats[0].size..], formats[1..]);
    }
  }

  /** Conversely, formats whose sizes add up to the byte count and whose
      signed entries are non-empty are decodable. */
  lemma {:induction false} CoveringFormatsDecodable(bytes: seq<byte>, formats: seq<ByteFormat>)
    requires SumSizes(formats) == |bytes|
    requires forall k :: 0 <= k < |formats| && formats[k].kind == SignedDec ==> formats[k].size > 0
    ensures Decodable(bytes, formats)
  {
    if formats != [] {
      var rest := formats[1..];
      forall k | 0 <= k < |rest| && rest[k].kind == SignedDec
        ensures rest[k].size > 0
      {
        assert rest[k] == formats[k + 1];
      }
      CoveringFormatsDecodable(bytes[formats[0].size..], rest);
    }
  }

  /** The text of one slice: an unsigned reading, or for a signed slice with
      the high bit set, a minus and the two's-complement magnitude. */
  function RenderValue(format: ByteFormat, slice: seq<byte>): (r: string)
    requires |slice| == format.size
    requires format.kind == SignedDec ==> format.size > 0
    ensures |r| > 0 && IsDigit(r[|r| - 1])
  {
    if format.kind == SignedDec && HighBitSet(slice[0]) then
      "-" + NatToDecimal((FromBigEndian(Complement(slice)) + 1) % Modulus)
    else
      NatToDecimal(FromBigEndian(slice))
  }

  /** `bytesToFormattedString`: the entries joined by commas; there is no
      separator once the bytes are used up, so the text never ends in one. */
  function Decode(bytes: seq<byte>, formats: seq<ByteFormat>): (r: string)
    requires Decodable(bytes, formats)
    ensures r == [] <==> formats == []
    ensures r != [] ==> IsDigit(r[|r| - 1])
  {
    if formats == [] then "" else
      var n := formats[0].size;
      RenderValue(formats[0], bytes[..n]) + (if n < |bytes| then "," else "") + Decode(bytes[n..], formats[1..])
  }

  /** The `switch` of `bytesToFormattedString` on one slice. A negative
      signed slice is complemented in place, byte by byte, before it is read. */
  method FormatSlice(format: ByteFormat, byteRange: seq<byte>) returns (text: string)
    requires |byteRange| == format.size
    requires format.kind == SignedDec ==> format.size > 0
    ensures text == RenderValue(format, byteRange)
  {
    match format.kind
    case SignedDec =>
      if HighBitSet(byteRange[0]) {
        var flipped := byteRange;
        for j := 0 to |flipped|
          invariant |flipped| == |byteRange|
          invariant forall m :: 0 <= m < j ==> flipped[m] == 255 - byteRange[m]
          invariant forall m :: j <= m < |byteRange| ==> flipped[m] == byteRange[m]
        {
          flipped := flipped[j := FlipBits(flipped[j])];
        }
        assert forall m :: 0 <= m < |byteRange| ==> flipped[m] == Complement(byteRange)[m];
        assert flipped == Complement(byteRange);
        text := "-" + NatToDecimal((FromBigEndian(flipped) + 1) % Modulus);
      } else {
        text := NatToDecimal(FromBigEndian(byteRange));
      }
    case UnsignedDec =>
      text := NatToDecimal(FromBigEndian(byteRange));
  }

  lemma ConcatAssoc(a: string, b: string, c: string)
    ensures a + (b + c) == a + b + c
  {}

  lemma ConcatEmpty(a: string)
    ensures a + "" == a
  {}

  /** The decoder's loop invariant survives rendering the next entry. */
  lemma DecodeAdvance(rest: seq<byte>, restFormats: seq<ByteFormat>, out: string, whole: string)
    requires Decodable(rest, restFormats) && restFormats != []
    requires out + Decode(rest, restFormats) == whole
    ensures restFormats[0].size <= |rest|
    ensures Decodable(rest[restFormats[0].size..], restFormats[1..])
    ensures var n := restFormats[0].size;
      n < |rest| ==> out + RenderValue(restFormats[0], rest[..n]) + "," + Decode(rest[n..], restFormats[1..]) == whole
    ensures var n := restFormats[0].size;
      n == |rest| ==> out + RenderValue(restFormats[0], rest[..n]) + Decode(rest[n..], restFormats[1..]) == whole
  {
    var n := restFormats[0].size;
    var text := RenderValue(restFormats[0], rest[..n]);
    var tail := Decode(rest[n..], restFormats[1..]);
    if n < |rest| {
      assert Decode(rest, restFormats) == text + "," + tail;
      ConcatAssoc(text, ",", tail);
      ConcatAssoc(out, text + ",", tail);
      ConcatAssoc(out, text, ",");
    } else {
      assert Decode(rest, restFormats) == text + "" + tail;
      ConcatEmpty(text);
      ConcatAssoc(out, text, tail);
    }
  }

  /** `bytesToFormattedString`: walks the formats, with the iterator into
      the bytes held as the range it has not passed yet, rendering each slice
      and a comma while bytes remain. */
  method BytesToFormattedString(bytes: seq<byte>, formats: seq<ByteFormat>) returns (out: string)
    requires Decodable(bytes, formats)
    ensures out == Decode(bytes, formats)
  {
    var remaining := bytes;
    out := "";
    var k := 0;
    while k < |formats|
      invariant k <= |formats|
      invariant Decodable(remaining, formats[k..])
      invariant out + Decode(remaining, formats[k..]) == Decode(bytes, formats)
    {
      var format := formats[k];
      assert formats[k..][0] == format && formats[k..][1..] == formats[k + 1..];
      DecodeAdvance(remaining, formats[k..], out, Decode(bytes, formats));
      var text := FormatSlice(format, remaining[..format.size]);
      remaining := remaining[format.size..];
      out := out + text;
      if remaining != [] {
        out := out + ",";
      }
      k := k + 1;
    }
    ConcatEmpty(out);
  }
}

/** The 256-bit unsigned integer `u256` of libdevcore and the conversions the
    codec relies on: `u256(string)`, `toBigEndian(u256)` and
    `fromBigEndian<u256>(bytes)`. All arithmetic is on `nat` with the
    wrap-around at 2^256 written out. */
module U256 {
  import opened Ascii
  import opened Wrappers

  type byte = b: int | 0 <= b < 256

  /** 2^256 */
  const Modulus: nat := 0x1_0000_0000_0000_0000_0000_0000_0000_0000_0000_0000_0000_0000_0000_0000_0000_0000
  /** 2^255: values at or above it have the high bit of a 32-byte word set. */
  const SignBoundary: nat := 0x8000_0000_0000_0000_0000_0000_0000_0000_0000_0000_0000_0000_0000_0000_0000_0000
  /** `toBigEndian(u256)` always yields a full word. */
  const WordSize: nat := 32

  function Pow256(n: nat): (p: nat)
    ensures p >= 1
  {
    if n == 0 then 1 else 256 * Pow256(n - 1)
  }

  lemma WordPowers()
    ensures Pow256(31) * 128 == SignBoundary
    ensures Pow256(32) == Modulus
  {
    assert Pow256(8) == 0x1_0000_0000_0000_0000;
    assert Pow256(16) == 0x1_0000_0000_0000_0000_0000_0000_0000_0000;
    assert Pow256(24) == 0x1_0000_0000_0000_0000_0000_0000_0000_0000_0000_0000_0000_0000;
  }

  lemma MulBounds(m: int, k: int)
    requires m > 0
    ensures k >= 1 ==> m * k >= m
    ensures k <= -1 ==> m * k <= -m
  {}

  /** Euclidean division is determined by any decomposition a == m * t + x with 0 <= x < m. */
  lemma DivUnique(a: int, m: int, t: int, x: int)
    requires m > 0 && a == m * t + x && 0 <= x < m
    ensures a / m == t && a % m == x
  {
    var q, r := a / m, a % m;
    assert m * (t - q) == r - x;
    MulBounds(m, t - q);
  }

  /** Splitting a dividend by 256 first and then by `p` is dividing by 256 * p. */
  lemma DivModBy256Then(v: nat, p: nat)
    requires p >= 1
    ensures (v / 256) / p == v / (256 * p)
    ensures (v / 256) % p * 256 + v % 256 == v % (256 * p)
  {
    var q, s := v / 256, v % 256;
    var t, u := q / p, q % p;
    assert v == 256 * q + s;
    assert q == p * t + u;
    assert v == (256 * p) * t + (256 * u + s);
    assert 256 * u + s < 256 * p by { MulBounds(256, p - u); }
    DivUnique(v, 256 * p, t, 256 * u + s);
  }

  /** The value of a big-endian byte string, without truncation. */
  function BigEndianValue(bs: seq<byte>): (v: nat)
    ensures v < Pow256(|bs|)
  {
    if bs == [] then 0 else BigEndianValue(bs[..|bs| - 1]) * 256 + bs[|bs| - 1]
  }

  /** The low `width` bytes of `v`, most significant first. */
  function ToBigEndian(v: nat, width: nat): (bs: seq<byte>)
    ensures |bs| == width
  {
    if width == 0 then [] else ToBigEndian(v / 256, width - 1) + [v % 256]
  }

  /** Reading back the low `width` bytes of `v` gives `v` modulo 256^width. */
  lemma {:induction false} ToBigEndianValue(v: nat, width: nat)
    ensures BigEndianValue(ToBigEndian(v, width)) == v % Pow256(width)
  {
    if width > 0 {
      var bs := ToBigEndian(v, width);
      assert bs[..width - 1] == ToBigEndian(v / 256, width - 1);
      ToBigEndianValue(v / 256, width - 1);
      DivModBy256Then(v, Pow256(width - 1));
    }
  }

  /** The first byte of a big-endian string of a value that fits is its top digit base 256. */
  lemma {:induction false} FirstByte(v: nat, width: nat)
    requires 1 <= width && v < Pow256(width)
    ensures ToBigEndian(v, width)[0] == v / Pow256(width - 1)
  {
    if width > 1 {
      DivModBy256Then(v, Pow256(width - 2));
      FirstByte(v / 256, width - 1);
    }
  }

  /** `toBigEndian` of a u256: one 32-byte word. */
  function ToBigEndianWord(v: nat): (bs: seq<byte>)
    requires v < Modulus
    ensures |bs| == WordSize
  {
    ToBigEndian(v, WordSize)
  }

  /** `fromBigEndian<u256>`: each byte is shifted in from the right; bits that
      leave the 256-bit word are lost. */
  function FromBigEndian(bs: seq<byte>): (v: nat)
    ensures v < Modulus
  {
    BigEndianValue(bs) % Modulus
  }

  /** A word read back is the value written. */
  lemma WordRoundTrip(v: nat)
    requires v < Modulus
    ensures FromBigEndian(ToBigEndianWord(v)) == v
  {
    WordPowers();
    ToBigEndianValue(v, WordSize);
    DivUnique(v, Modulus, 0, v);
    assert BigEndianValue(ToBigEndianWord(v)) == v;
  }

  /** A quotient reaches `c` exactly when the dividend reaches `c` times the divisor. */
  lemma QuotientAtLeast(v: nat, p: nat, c: nat)
    requires p >= 1
    ensures v / p >= c <==> v >= c * p
  {
    var t, x := v / p, v % p;
    assert v == p * t + x;
    assert p * t - c * p == p * (t - c);
    MulBounds(p, t - c);
    MulBounds(p, t - c + 1);
    assert p * (t - c + 1) == p * (t - c) + p;
  }

  /** The high bit of a 32-byte word is set exactly when the value is at least 2^255. */
  lemma WordSignBit(v: nat)
    requires v < Modulus
    ensures ToBigEndianWord(v)[0] >= 128 <==> v >= SignBoundary
  {
    WordPowers();
    FirstByte(v, WordSize);
    QuotientAtLeast(v, Pow256(31), 128);
  }

  /** `b ^ 0xFF` on an 8-bit byte. */
  function FlipBits(b: byte): byte {
    255 - b
  }

  /** `b & 0x80` is non-zero: the byte is at least 128. */
  predicate HighBitSet(b: byte) {
    b >= 128
  }

  /** Every byte XOR-ed with 0xFF. */
  function Complement(bs: seq<byte>): (r: seq<byte>)
    ensures |r| == |bs|
    ensures forall k :: 0 <= k < |bs| ==> r[k] == 255 - bs[k]
  {
    seq(|bs|, k requires 0 <= k < |bs| => FlipBits(bs[k]))
  }

  /** The complement of a byte string reads as 256^n - 1 minus its value. */
  lemma {:induction false} ComplementValue(bs: seq<byte>)
    ensures BigEndianValue(Complement(bs)) == Pow256(|bs|) - 1 - BigEndianValue(bs)
  {
    if bs != [] {
      var n := |bs|;
      assert Complement(bs)[..n - 1] == Complement(bs[..n - 1]);
      ComplementValue(bs[..n - 1]);
    }
  }

  /** The complement of a word reads as 2^256 - 1 minus the word's value. */
  lemma WordComplement(v: nat)
    requires v < Modulus
    ensures FromBigEndian(Complement(ToBigEndianWord(v))) == Modulus - 1 - v
  {
    var bs := ToBigEndianWord(v);
    WordPowers();
    ToBigEndianValue(v, WordSize);
    ComplementValue(bs);
    DivUnique(v, Modulus, 0, v);
    assert BigEndianValue(bs) == v;
    var c := BigEndianValue(Complement(bs));
    assert c == Modulus - 1 - v;
    DivUnique(c, Modulus, 0, c);
  }

  /** Decimal digits read into a u256 one at a time: each step multiplies by
      ten and adds the digit, and the word keeps the result modulo 2^256. */
  function DecimalWord(s: string): (w: nat)
    requires AllDigits(s)
    ensures w < Modulus
  {
    if s == [] then 0 else (DecimalWord(s[..|s| - 1]) * 10 + DigitValue(s[|s| - 1])) % Modulus
  }

  /** Reducing at every step gives the full decimal value modulo 2^256. */
  lemma {:induction false} DecimalWordValue(s: string)
    requires AllDigits(s)
    ensures DecimalWord(s) == DecimalValue(s) % Modulus
  {
    if s != [] {
      var a, d := DecimalValue(s[..|s| - 1]), DigitValue(s[|s| - 1]);
      DecimalWordValue(s[..|s| - 1]);
      var q, r := a / Modulus, a % Modulus;
      var y := r * 10 + d;
      var t, x := y / Modulus, y % Modulus;
      assert a * 10 + d == Modulus * (10 * q + t) + x;
      DivUnique(a * 10 + d, Modulus, 10 * q + t, x);
    }
  }

  /** Two's complement negation in a u256. */
  function Negate(w: nat): (r: nat)
    requires w < Modulus
    ensures r < Modulus && (w == 0 || r + w == Modulus)
  {
    if w == 0 then 0 else Modulus - w
  }

  /** `u256(string)` as the codec uses it: decimal digits, optionally after a
      minus sign; the value wraps modulo 2^256 and a negative literal becomes
      its two's complement. Any other text fails to convert. */
  function ParseU256(s: string): (r: Option<nat>)
    ensures r.Some? ==> r.value < Modulus
    ensures r.Some? <==> (|s| > 0 && AllDigits(s)) || (|s| > 1 && s[0] == '-' && AllDigits(s[1..]))
  {
    if |s| > 0 && AllDigits(s) then Some(DecimalWord(s))
    else if |s| > 1 && s[0] == '-' && AllDigits(s[1..]) then Some(Negate(DecimalWord(s[1..])))
    else None
  }

  /** The converted value is the decimal value modulo 2^256, negated in two's
      complement after a minus sign. */
  lemma ParseValue(s: string)
    ensures |s| > 0 && AllDigits(s) ==> ParseU256(s) == Some(DecimalValue(s) % Modulus)
    ensures |s| > 1 && s[0] == '-' && AllDigits(s[1..]) ==>
      ParseU256(s) == Some((Modulus - DecimalValue(s[1..]) % Modulus) % Modulus)
  {
    if |s| > 0 && AllDigits(s) {
      DecimalWordValue(s);
    } else if |s| > 1 && s[0] == '-' && AllDigits(s[1..]) {
      DecimalWordValue(s[1..]);
      var m := DecimalValue(s[1..]) % Modulus;
      if m == 0 {
        DivUnique(Modulus, Modulus, 1, 0);
      } else {
        DivUnique(Modulus - m, Modulus, 0, Modulus - m);
      }
    }
  }

  /** The rendered text of any u256 converts back to it, and the text of a
      negated magnitude up to 2^255 converts to its two's complement. */
  lemma ParseRendered(n: nat)
    ensures n < Modulus ==> ParseU256(NatToDecimal(n)) == Some(n)
    ensures 0 < n <= SignBoundary ==> ParseU256("-" + NatToDecimal(n)) == Some(Modulus - n)
  {
    var d := NatToDecimal(n);
    DecimalRoundTrip(n);
    DecimalWordValue(d);
    if n < Modulus {
      DivUnique(n, Modulus, 0, n);
      assert DecimalWord(d) == n;
      if 0 < n <= SignBoundary {
        var s := "-" + d;
        assert s[1..] == d;
        assert !IsDigit(s[0]);
        assert ParseU256(s) == Some(Negate(DecimalWord(d)));
      }
    }
  }
}

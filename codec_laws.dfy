/** What the codec promises: the structure of an encoding (one format per
    literal, in order, bytes concatenated), its error cases, and the round
    trip back to the text for every literal list the decoder can render. */
module CodecLaws {
  import opened Ascii
  import opened U256
  import opened Wrappers
  import opened Lexing
  import opened ByteCodec

  /** A literal the encoder accepts: it starts like a number, contains no
      whitespace or comma, and converts to a u256. */
  predicate ValidToken(t: string) {
    && |t| > 0
    && StartsNumber(t, 0)
    && (forall k :: 0 <= k < |t| ==> !IsSpace(t[k]) && t[k] != ',')
    && ParseU256(t).Some?
  }

  /** The format a literal gets: signed exactly when it starts with a minus. */
  function TokenFormat(t: string): ByteFormat
    requires |t| > 0
  {
    NewFormat(if t[0] == '-' then SignedDec else UnsignedDec)
  }

  function TokenBytes(t: string): seq<byte>
    requires ValidToken(t)
  {
    EncodeNumber(ParseU256(t).value)
  }

  /** Every literal of the list is valid. */
  predicate AllValid(ts: seq<string>)
    decreases |ts|
  {
    ts == [] || (ValidToken(ts[0]) && AllValid(ts[1..]))
  }

  /** The literals' bytes, concatenated in order. */
  function TokensBytes(ts: seq<string>): seq<byte>
    requires AllValid(ts)
  {
    if ts == [] then [] else TokenBytes(ts[0]) + TokensBytes(ts[1..])
  }

  /** One format per literal, in order. */
  function TokensFormats(ts: seq<string>): (fs: seq<ByteFormat>)
    requires AllValid(ts)
    ensures |fs| == |ts|
  {
    if ts == [] then [] else [TokenFormat(ts[0])] + TokensFormats(ts[1..])
  }

  /** The literals separated by single commas: the normal form, which the
      decoder renders. */
  function JoinComma(ts: seq<string>): string {
    if ts == [] then ""
    else if |ts| == 1 then ts[0]
    else ts[0] + "," + JoinComma(ts[1..])
  }

  /** Whitespace only. */
  predicate Blank(w: string)
    decreases |w|
  {
    w == [] || (IsSpace(w[0]) && Blank(w[1..]))
  }

  /** The whitespace written before and after one comma. */
  datatype Gap = Gap(before: string, after: string)

  predicate BlankGaps(gaps: seq<Gap>)
    decreases |gaps|
  {
    gaps == [] || (Blank(gaps[0].before) && Blank(gaps[0].after) && BlankGaps(gaps[1..]))
  }

  /** The literals as a test file may write them: separated by commas with
      `gaps` around each comma, and `tail` after the last literal. */
  function Spaced(ts: seq<string>, gaps: seq<Gap>, tail: string): string
    requires ts != [] ==> |gaps| == |ts| - 1
    decreases |ts|
  {
    if ts == [] then ""
    else if |ts| == 1 then ts[0] + tail
    else ts[0] + gaps[0].before + "," + gaps[0].after + Spaced(ts[1..], gaps[1..], tail)
  }

  /** `n` gaps without whitespace. */
  function NoGaps(n: nat): (gs: seq<Gap>)
    ensures |gs| == n && BlankGaps(gs)
  {
    if n == 0 then []
    else
      var rest := NoGaps(n - 1);
      assert ([Gap("", "")] + rest)[1..] == rest;
      [Gap("", "")] + rest
  }

  /** The normal form is the layout without whitespace. */
  lemma {:induction false} JoinCommaSpaced(ts: seq<string>)
    ensures ts != [] ==> JoinComma(ts) == Spaced(ts, NoGaps(|ts| - 1), "")
    decreases |ts|
  {
    if |ts| == 1 {
      assert ts[0] + "" == ts[0];
    } else if |ts| > 1 {
      JoinCommaSpaced(ts[1..]);
      var g := NoGaps(|ts| - 1);
      assert g[0] == Gap("", "") && g[1..] == NoGaps(|ts| - 2);
      assert ts[0] + "" + "," + "" == ts[0] + ",";
    }
  }

  lemma SpacedStart(ts: seq<string>, gaps: seq<Gap>, tail: string)
    requires ts != [] && ts[0] != [] && |gaps| == |ts| - 1
    ensures Spaced(ts, gaps, tail) != [] && Spaced(ts, gaps, tail)[0] == ts[0][0]
  {}

  /** A token ends at the first whitespace or comma. */
  lemma {:induction false} TokenEndAt(s: string, i: nat, e: nat)
    requires i <= e <= |s|
    requires forall k :: i <= k < e ==> !IsSpace(s[k]) && s[k] != ','
    requires e < |s| ==> IsSpace(s[e]) || s[e] == ','
    ensures TokenEnd(s, i) == e
    decreases e - i
  {
    if i < e {
      TokenEndAt(s, i + 1, e);
    }
  }

  /** `t` stands in `s` at `i`, character by character. */
  predicate SpellsAt(s: string, i: nat, t: string)
    decreases |t|
  {
    t == [] || (i < |s| && s[i] == t[0] && SpellsAt(s, i + 1, t[1..]))
  }

  /** Standing at `i` is being the slice that starts there. */
  lemma {:induction false} SpellsAtSlice(s: string, i: nat, t: string)
    requires i <= |s|
    ensures SpellsAt(s, i, t) <==> i + |t| <= |s| && s[i..i + |t|] == t
    decreases |t|
  {
    if t != [] {
      if i + |t| <= |s| {
        SpellsAtSlice(s, i + 1, t[1..]);
        var w := s[i..i + |t|];
        assert w[0] == s[i] && w[1..] == s[i + 1..i + |t|];
        assert t == [t[0]] + t[1..] && w == [w[0]] + w[1..];
        assert w == t <==> s[i] == t[0] && s[i + 1..i + |t|] == t[1..];
      } else if i < |s| {
        SpellsAtSlice(s, i + 1, t[1..]);
      }
    }
  }

  /** A concatenation stands at `i` when its parts stand one after the other. */
  lemma {:induction false} SpellsAtConcat(s: string, i: nat, a: string, b: string)
    ensures SpellsAt(s, i, a + b) <==> SpellsAt(s, i, a) && SpellsAt(s, i + |a|, b)
    decreases |a|
  {
    if a == [] {
      assert a + b == b;
    } else {
      assert (a + b)[0] == a[0] && (a + b)[1..] == a[1..] + b;
      SpellsAtConcat(s, i + 1, a[1..], b);
    }
  }

  /** Whitespace standing at `j` and followed by the end or a non-space:
      `skipWhitespace` passes exactly over it. */
  lemma {:induction false} SkipBlank(s: string, j: nat, w: string)
    requires j <= |s| && Blank(w) && SpellsAt(s, j, w)
    requires j + |w| < |s| ==> !IsSpace(s[j + |w|])
    ensures j + |w| <= |s| && SkipSpaces(s, j) == j + |w|
    decreases |w|
  {
    if w != [] {
      SkipBlank(s, j + 1, w[1..]);
    }
  }

  /** The last literal of a spaced list that runs to the end of `s`: the
      literal, then only whitespace. */
  lemma SpacedLast(s: string, i: nat, ts: seq<string>, gaps: seq<Gap>, tail: string)
    requires |ts| == 1 && |gaps| == 0 && Blank(tail)
    requires SpellsAt(s, i, Spaced(ts, gaps, tail)) && i + |Spaced(ts, gaps, tail)| == |s|
    ensures SpellsAt(s, i, ts[0]) && i + |ts[0]| <= |s| && SkipSpaces(s, i + |ts[0]|) == |s|
  {
    SpellsAtConcat(s, i, ts[0], tail);
    SkipBlank(s, i + |ts[0]|, tail);
  }

  /** The first literal of a longer spaced list that runs to the end of `s`:
      the literal, whitespace up to the comma at `c`, whitespace up to `n`,
      and from `n` on the rest of the list. */
  lemma SpacedNext(s: string, i: nat, ts: seq<string>, gaps: seq<Gap>, tail: string) returns (c: nat, n: nat)
    requires AllValid(ts) && |ts| > 1 && |gaps| == |ts| - 1 && BlankGaps(gaps)
    requires SpellsAt(s, i, Spaced(ts, gaps, tail)) && i + |Spaced(ts, gaps, tail)| == |s|
    ensures c == i + |ts[0]| + |gaps[0].before| && n == c + 1 + |gaps[0].after|
    ensures SpellsAt(s, i, ts[0]) && c < |s| && s[c] == ','
    ensures SkipSpaces(s, i + |ts[0]|) == c && SkipSpaces(s, c + 1) == n
    ensures SpellsAt(s, n, Spaced(ts[1..], gaps[1..], tail)) && n + |Spaced(ts[1..], gaps[1..], tail)| == |s|
  {
    var t := ts[0];
    var g := gaps[0];
    var rest := Spaced(ts[1..], gaps[1..], tail);
    c, n := GapParts(s, i, t, g, rest);
    assert ts[1..][0] == ts[1] && ValidToken(ts[1]);
    SpacedStart(ts[1..], gaps[1..], tail);
    assert s[n] == ts[1][0] && StartsNumber(ts[1], 0);
    SkipBlank(s, i + |t|, g.before);
    SkipBlank(s, c + 1, g.after);
  }

  /** A literal, a gap with its comma and a rest standing at `i`: where each
      of them stands. */
  lemma GapParts(s: string, i: nat, t: string, g: Gap, rest: string) returns (c: nat, n: nat)
    requires SpellsAt(s, i, t + g.before + "," + g.after + rest)
    requires i + |t + g.before + "," + g.after + rest| == |s|
    ensures c == i + |t| + |g.before| && n == c + 1 + |g.after|
    ensures SpellsAt(s, i, t) && SpellsAt(s, i + |t|, g.before)
    ensures c < |s| && s[c] == ',' && SpellsAt(s, c + 1, g.after)
    ensures SpellsAt(s, n, rest) && n + |rest| == |s|
  {
    var e := i + |t|;
    assert t + g.before + "," + g.after + rest == t + (g.before + ("," + (g.after + rest)));
    SpellsAtConcat(s, i, t, g.before + ("," + (g.after + rest)));
    SpellsAtConcat(s, e, g.before, "," + (g.after + rest));
    c := e + |g.before|;
    SpellsAtConcat(s, c, ",", g.after + rest);
    SpellsAtConcat(s, c + 1, g.after, rest);
    n := c + 1 + |g.after|;
  }

  /** A valid literal standing at `i` and followed by the end, whitespace or
      a comma is the token the encoder reads there. */
  lemma TokenAt(s: string, i: nat, t: string)
    requires ValidToken(t) && i + |t| <= |s| && SpellsAt(s, i, t)
    requires i + |t| < |s| ==> IsSpace(s[i + |t|]) || s[i + |t|] == ','
    ensures StartsNumber(s, i) && s[i] == t[0]
    ensures TokenEnd(s, i) == i + |t| && ParseU256(s[i..i + |t|]) == ParseU256(t)
  {
    var e := i + |t|;
    SpellsAtSlice(s, i, t);
    assert s[i] == t[0];
    if |t| > 1 {
      assert s[i + 1] == t[1];
    }
    assert forall k :: i <= k < e ==> s[k] == t[k - i];
    TokenEndAt(s, i, e);
  }

  /** One valid literal at `i`, followed by whitespace and then the end or a
      comma: its bytes and format come first, and the encoder resumes after
      the comma and its whitespace. */
  lemma EncodeToken(s: string, i: nat, t: string)
    requires ValidToken(t) && i + |t| <= |s| && SpellsAt(s, i, t)
    requires var p := SkipSpaces(s, i + |t|); p == |s| || s[p] == ','
    ensures var p := SkipSpaces(s, i + |t|);
      EncodeFrom(s, i)
        == Prepend(TokenBytes(t), [TokenFormat(t)], EncodeFrom(s, if p == |s| then |s| else SkipSpaces(s, p + 1)))
  {
    var e := i + |t|;
    var p := SkipSpaces(s, e);
    assert e < |s| ==> IsSpace(s[e]) || s[e] == ',' by {
      if e < |s| && !IsSpace(s[e]) {
        assert p == e;
      }
    }
    TokenAt(s, i, t);
    var v := ParseU256(t).value;
    EncodeNumberAt(s, i, e, v);
    assert EncodeNumber(v) == TokenBytes(t);
    assert NewFormat(if s[i] == '-' then SignedDec else UnsignedDec) == TokenFormat(t);
  }

  /** A number token ending at `e` whose text converts to `v`, followed by
      whitespace and then the end or a comma. */
  lemma EncodeNumberAt(s: string, i: nat, e: nat, v: nat)
    requires i < |s| && StartsNumber(s, i) && TokenEnd(s, i) == e
    requires ParseU256(s[i..e]) == Some(v)
    requires var p := SkipSpaces(s, e); p == |s| || s[p] == ','
    ensures var p := SkipSpaces(s, e);
      EncodeLiteral(s, i)
        == Prepend(EncodeNumber(v), [NewFormat(if s[i] == '-' then SignedDec else UnsignedDec)],
                   EncodeFrom(s, if p == |s| then |s| else SkipSpaces(s, p + 1)))
  {
    var p := SkipSpaces(s, e);
    var q := if p == |s| then p else p + 1;
    assert (if p == |s| then Ok(p) else Expect(s, p, ',')) == Ok(q);
    assert SkipSpaces(s, q) == (if p == |s| then |s| else SkipSpaces(s, p + 1));
  }

  /** At the end of the text there is nothing left to encode. */
  lemma EncodeAtEnd(s: string)
    ensures EncodeFrom(s, |s|) == Ok(([], []))
  {}

  /** The encoding of a list is the first literal's bytes and format put in
      front of the encoding of the others. */
  lemma {:induction false} TokensCons(ts: seq<string>)
    requires AllValid(ts) && ts != []
    ensures AllValid(ts[1..])
    ensures Prepend(TokenBytes(ts[0]), [TokenFormat(ts[0])], Ok((TokensBytes(ts[1..]), TokensFormats(ts[1..]))))
      == Ok((TokensBytes(ts), TokensFormats(ts)))
    ensures |ts| == 1 ==> Ok((TokenBytes(ts[0]), [TokenFormat(ts[0])])) == Ok((TokensBytes(ts), TokensFormats(ts)))
  {
    if |ts| == 1 {
      assert ts[1..] == [];
      assert TokensBytes(ts[1..]) == [] && TokensFormats(ts[1..]) == [];
      assert TokenBytes(ts[0]) + [] == TokenBytes(ts[0]) && [TokenFormat(ts[0])] + [] == [TokenFormat(ts[0])];
    }
  }

  /** Wherever it stands in the text, a spaced list of valid literals that
      runs to the end encodes to their concatenated bytes and one format per
      literal. */
  lemma {:induction false} EncodeTokensFrom(s: string, i: nat, ts: seq<string>, gaps: seq<Gap>, tail: string)
    requires AllValid(ts) && BlankGaps(gaps) && Blank(tail)
    requires ts != [] ==> |gaps| == |ts| - 1
    requires SpellsAt(s, i, Spaced(ts, gaps, tail)) && i + |Spaced(ts, gaps, tail)| == |s|
    ensures EncodeFrom(s, i) == Ok((TokensBytes(ts), TokensFormats(ts)))
    decreases |ts|
  {
    if ts == [] {
      EncodeAtEnd(s);
      assert TokensBytes(ts) == [] && TokensFormats(ts) == [];
    } else if |ts| == 1 {
      SpacedLast(s, i, ts, gaps, tail);
      EncodeLast(s, i, ts);
    } else {
      var c, n := SpacedNext(s, i, ts, gaps, tail);
      EncodeSpacedToken(s, i, ts[0], c);
      EncodeTokensFrom(s, n, ts[1..], gaps[1..], tail);
      EncodeCons(s, i, n, ts);
    }
  }

  /** A valid literal at `i`, then whitespace up to a comma at `c`: the
      literal's bytes and format come first, and the encoder resumes after
      the whitespace that follows the comma. */
  lemma EncodeSpacedToken(s: string, i: nat, t: string, c: nat)
    requires ValidToken(t) && i + |t| <= |s| && SpellsAt(s, i, t)
    requires SkipSpaces(s, i + |t|) == c && c < |s| && s[c] == ','
    ensures EncodeFrom(s, i) == Prepend(TokenBytes(t), [TokenFormat(t)], EncodeFrom(s, SkipSpaces(s, c + 1)))
  {
    EncodeToken(s, i, t);
  }

  /** The last literal of a list encodes on its own when only whitespace
      follows it. */
  lemma EncodeLast(s: string, i: nat, ts: seq<string>)
    requires AllValid(ts) && |ts| == 1
    requires SpellsAt(s, i, ts[0]) && i + |ts[0]| <= |s| && SkipSpaces(s, i + |ts[0]|) == |s|
    ensures EncodeFrom(s, i) == Ok((TokensBytes(ts), TokensFormats(ts)))
  {
    var t := ts[0];
    EncodeToken(s, i, t);
    EncodeAtEnd(s);
    ghost var whole := EncodeFrom(s, i);
    assert whole == Prepend(TokenBytes(t), [TokenFormat(t)], Ok(([], [])));
    assert TokenBytes(t) + [] == TokenBytes(t) && [TokenFormat(t)] + [] == [TokenFormat(t)];
    TokensCons(ts);
  }

  /** A list of more than one literal encodes as a whole once its first
      literal is encoded in front of the rest, and the rest encodes. */
  lemma EncodeCons(s: string, i: nat, q: nat, ts: seq<string>)
    requires AllValid(ts) && |ts| > 1 && i <= |s| && q <= |s|
    requires EncodeFrom(s, i) == Prepend(TokenBytes(ts[0]), [TokenFormat(ts[0])], EncodeFrom(s, q))
    requires EncodeFrom(s, q) == Ok((TokensBytes(ts[1..]), TokensFormats(ts[1..])))
    ensures EncodeFrom(s, i) == Ok((TokensBytes(ts), TokensFormats(ts)))
  {
    ConsStep(EncodeFrom(s, i), EncodeFrom(s, q), ts);
  }

  /** Putting the first literal in front of the encoding of the others gives
      the encoding of the whole list. */
  lemma ConsStep(whole: Result<Encoding>, rest: Result<Encoding>, ts: seq<string>)
    requires AllValid(ts) && |ts| > 1
    requires whole == Prepend(TokenBytes(ts[0]), [TokenFormat(ts[0])], rest)
    requires AllValid(ts[1..]) ==> rest == Ok((TokensBytes(ts[1..]), TokensFormats(ts[1..])))
    ensures whole == Ok((TokensBytes(ts), TokensFormats(ts)))
  {
    TokensCons(ts);
  }

  /** However the literals are spaced around their commas, the text encodes
      to one format per literal, in order, and the in-order concatenation of
      their bytes. */
  lemma EncodeTokens(ts: seq<string>, gaps: seq<Gap>, tail: string)
    requires AllValid(ts) && BlankGaps(gaps) && Blank(tail)
    requires ts != [] ==> |gaps| == |ts| - 1
    ensures Encode(Spaced(ts, gaps, tail)) == Ok((TokensBytes(ts), TokensFormats(ts)))
  {
    var s := Spaced(ts, gaps, tail);
    assert s[0..|s|] == s;
    SpellsAtSlice(s, 0, s);
    EncodeTokensFrom(s, 0, ts, gaps, tail);
  }

  /** A successful encoding that has not reached the end started at a
      number, and its first format is signed exactly when that number had a
      minus sign. */
  lemma FirstFormatKind(s: string, i: nat)
    requires i < |s| && EncodeFrom(s, i).Ok?
    ensures StartsNumber(s, i)
    ensures |EncodeFrom(s, i).value.1| > 0
    ensures EncodeFrom(s, i).value.1[0].kind == SignedDec <==> s[i] == '-'
  {}

  /** The three ways an encoding fails: a token that does not start like a
      number, a token that does not convert, and a token followed by
      something other than a comma. */
  lemma EncodeErrors(s: string, i: nat)
    requires i < |s|
    ensures !StartsNumber(s, i) ==> EncodeFrom(s, i) == Err(ArgumentEncodingInvalid)
    ensures StartsNumber(s, i) && ParseU256(s[i..TokenEnd(s, i)]).None? ==> EncodeFrom(s, i) == Err(ArgumentEncodingInvalid)
    ensures var p := SkipSpaces(s, TokenEnd(s, i));
      (StartsNumber(s, i) && ParseU256(s[i..TokenEnd(s, i)]).Some? && p < |s| && s[p] != ',')
      ==> EncodeFrom(s, i) == Err(ExpectMessage(','))
  {}

  /** The empty text encodes to nothing. */
  lemma EncodeEmpty()
    ensures Encode("") == Ok(([], []))
  {}

  /** Zero is the single byte 0x00, while its format still claims the default
      32 bytes, so the decoder's size precondition does not hold for it. */
  lemma EncodeZero()
    ensures Encode("0") == Ok(([0], [NewFormat(UnsignedDec)]))
    ensures !Decodable([0], [NewFormat(UnsignedDec)])
  {
    var s := "0";
    assert TokenEnd(s, 0) == 1;
    assert s[0..1] == "0";
    assert ParseU256("0") == Some(0);
    assert EncodeFrom(s, 1) == Ok(([], []));
    assert EncodeNumber(0) == [0];
    assert [0] + [] == [0] && [NewFormat(UnsignedDec)] + [] == [NewFormat(UnsignedDec)];
  }

  /** A comma at the very end is passed over: `1,` encodes like `1`. */
  lemma TrailingCommaExample()
    ensures Encode("1,") == Encode("1") == Ok((EncodeNumber(1), [NewFormat(UnsignedDec)]))
  {
    var s, t := "1,", "1";
    assert TokenEnd(s, 0) == 1 && TokenEnd(t, 0) == 1;
    assert s[0..1] == t[0..1] == "1";
    assert ParseU256("1") == Some(1) by { assert DecimalWord("1") == 1; }
    assert SkipSpaces(s, 1) == 1 && SkipSpaces(s, 2) == 2;
    assert EncodeFrom(s, 2) == Ok(([], [])) && EncodeFrom(t, 1) == Ok(([], []));
    assert EncodeNumber(1) + [] == EncodeNumber(1) && [NewFormat(UnsignedDec)] + [] == [NewFormat(UnsignedDec)];
  }

  /** A numeric literal as it is written: a natural number, or a minus sign and one. */
  datatype Literal = Unsigned(n: nat) | Negative(n: nat)

  function LiteralText(l: Literal): string {
    match l
    case Unsigned(n) => NatToDecimal(n)
    case Negative(n) => "-" + NatToDecimal(n)
  }

  /** Literals that come back unchanged: non-zero (zero breaks the size
      bookkeeping, see EncodeZero), an unsigned one below 2^256, a negative
      one whose magnitude a two's-complement word can hold. */
  predicate Representable(l: Literal) {
    match l
    case Unsigned(n) => 0 < n < Modulus
    case Negative(n) => 0 < n <= SignBoundary
  }

  function Texts(lits: seq<Literal>): (ts: seq<string>)
    ensures |ts| == |lits|
    ensures forall k :: 0 <= k < |lits| ==> ts[k] == LiteralText(lits[k])
  {
    if lits == [] then [] else [LiteralText(lits[0])] + Texts(lits[1..])
  }

  /** A valid literal converting to a non-zero value encodes to that value's
      full 32-byte word. */
  lemma TokenWord(t: string, v: nat)
    requires ValidToken(t) && ParseU256(t) == Some(v) && v != 0
    ensures TokenBytes(t) == ToBigEndianWord(v)
  {}

  /** A positive literal below 2^256 is valid, encodes to one full word and
      renders back to its own text. */
  lemma UnsignedRoundTrip(n: nat)
    requires 0 < n < Modulus
    ensures ValidToken(NatToDecimal(n))
    ensures TokenBytes(NatToDecimal(n)) == ToBigEndianWord(n)
    ensures TokenFormat(NatToDecimal(n)) == NewFormat(UnsignedDec)
    ensures RenderValue(NewFormat(UnsignedDec), ToBigEndianWord(n)) == NatToDecimal(n)
  {
    ParseRendered(n);
    TokenWord(NatToDecimal(n), n);
    WordRoundTrip(n);
  }

  /** The text of a negative literal is a valid token converting to the
      two's complement of its magnitude. */
  lemma NegativeText(n: nat)
    requires 0 < n <= SignBoundary
    ensures ValidToken("-" + NatToDecimal(n))
    ensures ParseU256("-" + NatToDecimal(n)) == Some(Modulus - n)
  {
    var d := NatToDecimal(n);
    var t := "-" + d;
    ParseRendered(n);
    assert forall k :: 1 <= k < |t| ==> t[k] == d[k - 1];
  }

  /** The two's-complement word `w` of `-n`: its high bit is set, and
      complementing it and adding one gives back the magnitude. */
  lemma NegativeWord(n: nat, w: nat)
    requires 0 < n <= SignBoundary && w + n == Modulus
    ensures HighBitSet(ToBigEndianWord(w)[0])
    ensures (FromBigEndian(Complement(ToBigEndianWord(w))) + 1) % Modulus == n
  {
    WordSignBit(w);
    WordComplement(w);
    DivUnique(n, Modulus, 0, n);
  }

  /** A negative literal whose magnitude is at most 2^255 is valid, encodes
      to its two's-complement word `w`, and renders back to its own text. */
  lemma NegativeRoundTrip(n: nat, w: nat)
    requires 0 < n <= SignBoundary && w + n == Modulus
    ensures ValidToken("-" + NatToDecimal(n))
    ensures TokenBytes("-" + NatToDecimal(n)) == ToBigEndianWord(w)
    ensures TokenFormat("-" + NatToDecimal(n)) == NewFormat(SignedDec)
    ensures RenderValue(NewFormat(SignedDec), ToBigEndianWord(w)) == "-" + NatToDecimal(n)
  {
    NegativeText(n);
    TokenWord("-" + NatToDecimal(n), w);
    NegativeWord(n, w);
    var word := ToBigEndianWord(w);
    assert RenderValue(NewFormat(SignedDec), word)
      == "-" + NatToDecimal((FromBigEndian(Complement(word)) + 1) % Modulus);
  }

  /** One representable literal: it is valid, encodes to one full word and
      renders back to its own text. */
  lemma LiteralRoundTrip(l: Literal)
    requires Representable(l)
    ensures ValidToken(LiteralText(l))
    ensures |TokenBytes(LiteralText(l))| == WordSize
    ensures RenderValue(TokenFormat(LiteralText(l)), TokenBytes(LiteralText(l))) == LiteralText(l)
  {
    match l
    case Unsigned(n) => UnsignedRoundTrip(n);
    case Negative(n) => NegativeRoundTrip(n, Modulus - n);
  }

  /** The encoding of representable literals decodes to the literal list. */
  lemma {:induction false} DecodeLiterals(lits: seq<Literal>)
    requires forall k :: 0 <= k < |lits| ==> Representable(lits[k])
    ensures AllValid(Texts(lits))
    ensures |TokensBytes(Texts(lits))| == WordSize * |lits|
    ensures Decodable(TokensBytes(Texts(lits)), TokensFormats(Texts(lits)))
    ensures Decode(TokensBytes(Texts(lits)), TokensFormats(Texts(lits))) == JoinComma(Texts(lits))
  {
    var ts := Texts(lits);
    if lits != [] {
      var rest := lits[1..];
      assert Texts(rest) == ts[1..];
      DecodeLiterals(rest);
      LiteralRoundTrip(lits[0]);
      var bytes := TokensBytes(ts);
      var word := TokenBytes(ts[0]);
      assert bytes[..WordSize] == word;
      assert bytes[WordSize..] == TokensBytes(ts[1..]);
      var text := RenderValue(TokenFormat(ts[0]), word);
      assert Decode(bytes, TokensFormats(ts))
          == text + (if WordSize < |bytes| then "," else "") + Decode(TokensBytes(ts[1..]), TokensFormats(ts[1..]));
    }
  }

  /** However a list of representable literals is spaced around its commas,
      it encodes, and decoding the encoding with the formats the encoder
      chose gives the normal form, without the whitespace. */
  lemma SpacedRoundTrip(lits: seq<Literal>, gaps: seq<Gap>, tail: string)
    requires forall k :: 0 <= k < |lits| ==> Representable(lits[k])
    requires BlankGaps(gaps) && Blank(tail) && (lits != [] ==> |gaps| == |lits| - 1)
    ensures var s := Spaced(Texts(lits), gaps, tail);
      && Encode(s).Ok?
      && Decodable(Encode(s).value.0, Encode(s).value.1)
      && Decode(Encode(s).value.0, Encode(s).value.1) == JoinComma(Texts(lits))
  {
    var ts := Texts(lits);
    DecodeLiterals(lits);
    EncodeTokens(ts, gaps, tail);
    assert Encode(Spaced(ts, gaps, tail)) == Ok((TokensBytes(ts), TokensFormats(ts)));
  }

  /** The normal form of a spaced list of representable literals encodes to
      the same bytes and formats as the spaced text. */
  lemma NormalFormEncodesAlike(lits: seq<Literal>, gaps: seq<Gap>, tail: string)
    requires forall k :: 0 <= k < |lits| ==> Representable(lits[k])
    requires BlankGaps(gaps) && Blank(tail) && (lits != [] ==> |gaps| == |lits| - 1)
    ensures Encode(JoinComma(Texts(lits))) == Encode(Spaced(Texts(lits), gaps, tail))
  {
    var ts := Texts(lits);
    DecodeLiterals(lits);
    EncodeTokens(ts, gaps, tail);
    if lits == [] {
      assert JoinComma(ts) == "" == Spaced(ts, gaps, tail);
    } else {
      JoinCommaSpaced(ts);
      EncodeTokens(ts, NoGaps(|lits| - 1), "");
      assert Encode(JoinComma(ts)) == Ok((TokensBytes(ts), TokensFormats(ts)));
    }
  }

  /** Round trip: however a list of representable literals is spaced around
      its commas, decoding its encoding with the formats the encoder chose
      gives the normal form, without the whitespace; and the normal form
      encodes to the same bytes and formats. */
  lemma EncodeDecodeRoundTrip(lits: seq<Literal>, gaps: seq<Gap>, tail: string)
    requires forall k :: 0 <= k < |lits| ==> Representable(lits[k])
    requires BlankGaps(gaps) && Blank(tail) && (lits != [] ==> |gaps| == |lits| - 1)
    ensures var s := Spaced(Texts(lits), gaps, tail);
      && Encode(s).Ok?
      && Decodable(Encode(s).value.0, Encode(s).value.1)
      && Decode(Encode(s).value.0, Encode(s).value.1) == JoinComma(Texts(lits))
      && Encode(JoinComma(Texts(lits))) == Encode(s)
  {
    SpacedRoundTrip(lits, gaps, tail);
    NormalFormEncodesAlike(lits, gaps, tail);
  }
}

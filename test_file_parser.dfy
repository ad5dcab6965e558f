/** The test-file parser (`TestFileParser`): the records it produces, the
    grammar of one call line and its expectation line as functions of a line
    and a cursor, the whole-stream result as a function of the lines, and
    the parser class whose methods walk the shared scanner and are proved
    to compute exactly those functions.

    The grammar of a call, one line each:
        <signature ending in ')'> [, <ether value>] [: <arguments>] [# <comment>]
        -> <expected values> [# <comment>]      or      REVERT
    Every line first loses its leading whitespace, slashes and whitespace. */
module TestFile {
  import opened Ascii
  import opened U256
  import opened Wrappers
  import opened Lexing
  import opened ByteCodec
  import opened Scanning

  /** The arguments of a call: their text, its encoding and an optional comment. */
  datatype FunctionCallArgs = FunctionCallArgs(
    raw: string, rawBytes: seq<byte>, formats: seq<ByteFormat>, comment: string)

  /** The expected result of a call; `status` is the expected transaction status. */
  datatype FunctionCallExpectations = FunctionCallExpectations(
    raw: string, rawBytes: seq<byte>, formats: seq<ByteFormat>,
    status: bool, output: string, comment: string)

  /** A call read from the stream: signature, arguments, expectations, ether value. */
  datatype FunctionCall = FunctionCall(
    signature: string, arguments: FunctionCallArgs,
    expectations: FunctionCallExpectations, value: nat)

  /** Default-constructed arguments. */
  const NoArguments := FunctionCallArgs("", [], [], "")

  /** Default-constructed expectations: the status defaults to success. */
  const DefaultExpectations := FunctionCallExpectations("", [], [], true, "", "")

  const ExpectedResultMissing: string := "Expected result missing."
  const EtherValueInvalid: string := "Ether value encoding invalid."

  // ---------------------------------------------------------------------
  // The grammar, as functions of a line `s` and a cursor `i`. Each gives
  // what the corresponding parse step returns and where it leaves the
  // cursor, or the message of the error it throws.
  // ---------------------------------------------------------------------

  /** Where `advanceLine` leaves the cursor on a new line: past leading
      whitespace, then slashes, then whitespace. */
  function LineStart(s: string): (r: nat)
    ensures r <= |s|
  {
    SkipSpaces(s, SkipSlashes(s, SkipSpaces(s, 0)))
  }

  /** `expectCharacterSequence`: `w` must stand at the cursor, character by character. */
  function ExpectSequence(s: string, i: nat, w: string): (r: Result<nat>)
    requires i <= |s|
    ensures r.Ok? ==> r.value == i + |w| <= |s|
    decreases |w|
  {
    if w == [] then Ok(i)
    else
      match Expect(s, i, w[0])
      case Err(m) => Err(m)
      case Ok(j) => ExpectSequence(s, j, w[1..])
  }

  /** `parseFunctionCallSignature`: the text up to and including the first `)`. */
  function SignatureAt(s: string, i: nat): (r: Result<(string, nat)>)
    requires i <= |s|
    ensures r.Ok? ==> i < r.value.1 <= |s|
  {
    var j := FindChar(s, i, ')');
    match Expect(s, j, ')')
    case Err(m) => Err(m)
    case Ok(k) => Ok((s[i..k], k))
  }

  /** `parseFunctionCallValue`: after whitespace, an optional comma followed
      by the ether value, which is all the trimmed text before the first
      colon. A cursor at the end of the line is taken as "no comma". */
  function ValueAt(s: string, i: nat): (r: Result<(Option<nat>, nat)>)
    requires i <= |s|
    ensures r.Ok? ==> r.value.1 <= |s|
  {
    var p := SkipSpaces(s, i);
    if p == |s| || s[p] != ',' then Ok((None, p))
    else
      var e := FindChar(s, p + 1, ':');
      match ParseU256(Trim(s[p + 1..e]))
      case None => Err(EtherValueInvalid)
      case Some(v) => Ok((Some(v), e))
  }

  /** The text a value list takes: everything up to the first `#`, trimmed,
      and the cursor at that `#` or at the end of the line. */
  function RawUntilComment(s: string, a: nat): (r: (string, nat))
    requires a <= |s|
    ensures a <= r.1 <= |s|
  {
    var e := FindChar(s, a, '#');
    (Trim(s[a..e]), e)
  }

  /** The optional trailing comment: nothing at the end of the line,
      otherwise a `#`, and the comment is the rest of the line after the
      whitespace that follows it. */
  function TrailingComment(s: string, c: nat): (r: Result<(string, nat)>)
    requires c <= |s|
    ensures r.Ok? ==> r.value.1 <= |s|
  {
    if c == |s| then Ok(("", c))
    else
      match Expect(s, c, '#')
      case Err(m) => Err(m)
      case Ok(q) =>
        var d := SkipSpaces(s, q);
        Ok((s[d..], d))
  }

  /** `parseFunctionCallArgument`, up to its comment: nothing at a `#`;
      otherwise a colon and the encoded value list. */
  function ArgumentValuesAt(s: string, p: nat): (r: Result<(FunctionCallArgs, nat)>)
    requires p < |s|
    ensures r.Ok? ==> r.value.1 <= |s|
  {
    if s[p] == '#' then Ok((NoArguments, p))
    else
      match Expect(s, p, ':')
      case Err(m) => Err(m)
      case Ok(q) =>
        var (raw, e) := RawUntilComment(s, SkipSpaces(s, q));
        match Encode(raw)
        case Err(m) => Err(m)
        case Ok(enc) => Ok((FunctionCallArgs(raw, enc.0, enc.1, ""), e))
  }

  /** `parseFunctionCallArgument`: the arguments after the signature and
      value; none at the end of the line. */
  function ArgumentsAt(s: string, i: nat): (r: Result<(FunctionCallArgs, nat)>)
    requires i <= |s|
    ensures r.Ok? ==> r.value.1 <= |s|
  {
    var p := SkipSpaces(s, i);
    if p == |s| then Ok((NoArguments, p))
    else
      match ArgumentValuesAt(s, p)
      case Err(m) => Err(m)
      case Ok((args, c)) =>
        match TrailingComment(s, c)
        case Err(m) => Err(m)
        case Ok((comment, d)) => Ok((args.(comment := comment), d))
  }

  /** The expectation of a reverting call. */
  const RevertExpectations := DefaultExpectations.(status := false)

  /** `parseFunctionCallExpectations`, up to its comment: `->` and the
      encoded value list with a successful status, or else `REVERT` with a
      failing status and nothing to compare. */
  function ExpectedValuesAt(s: string, i: nat): (r: Result<(FunctionCallExpectations, nat)>)
    requires i <= |s|
    ensures r.Ok? ==> r.value.1 <= |s|
  {
    if i < |s| && s[i] == '-' then
      match Expect(s, i, '-')
      case Err(m) => Err(m)
      case Ok(q) =>
        match Expect(s, q, '>')
        case Err(m) => Err(m)
        case Ok(q') =>
          var (raw, e) := RawUntilComment(s, SkipSpaces(s, q'));
          match Encode(raw)
          case Err(m) => Err(m)
          case Ok(enc) => Ok((FunctionCallExpectations(raw, enc.0, enc.1, true, "", ""), e))
    else
      match ExpectSequence(s, i, "REVERT")
      case Err(m) => Err(m)
      case Ok(c) => Ok((RevertExpectations, c))
  }

  /** `parseFunctionCallExpectations`: a successful expectation may carry
      a comment; the cursor is left after it, or after `REVERT`. */
  function ExpectationsAt(s: string, i: nat): (r: Result<(FunctionCallExpectations, nat)>)
    requires i <= |s|
    ensures r.Ok? ==> r.value.1 <= |s|
  {
    match ExpectedValuesAt(s, i)
    case Err(m) => Err(m)
    case Ok((e, c)) =>
      if !e.status then Ok((e, c))
      else
        match TrailingComment(s, c)
        case Err(m) => Err(m)
        case Ok((comment, d)) => Ok((e.(comment := comment), d))
  }

  /** A call line: signature, optional ether value (zero when absent) and arguments. */
  function CallAt(s: string, i: nat): Result<(string, nat, FunctionCallArgs)>
    requires i <= |s|
  {
    match SignatureAt(s, i)
    case Err(m) => Err(m)
    case Ok((signature, j)) =>
      match ValueAt(s, j)
      case Err(m) => Err(m)
      case Ok((value, k)) =>
        match ArgumentsAt(s, k)
        case Err(m) => Err(m)
        case Ok((args, _)) => Ok((signature, value.GetOr(0), args))
  }

  /** The text `output` holds for an expectation. */
  function OutputOf(e: FunctionCallExpectations): string {
    if e.status then "-> " + e.raw else "REVERT"
  }

  /** What every parsed call satisfies about its status: the value is a
      u256, the output text follows the expected status, and a reverting
      call has no expected values. */
  predicate OutputFollowsStatus(c: FunctionCall) {
    && c.value < Modulus
    && c.expectations.output == OutputOf(c.expectations)
    && (!c.expectations.status ==> c.expectations.raw == [] && c.expectations.rawBytes == [] && c.expectations.formats == [])
  }

  /** The argument and expectation texts of a call re-encode to the bytes and
      formats stored beside them. */
  predicate Reencodes(c: FunctionCall) {
    && Encode(c.arguments.raw) == Ok((c.arguments.rawBytes, c.arguments.formats))
    && Encode(c.expectations.raw) == Ok((c.expectations.rawBytes, c.expectations.formats))
  }

  /** The call that starts on the non-blank line `k`: the call line, then
      the very next line as its expectation, whose output text is set from
      its status. */
  function CallBlock(lines: seq<string>, k: nat): (r: Result<FunctionCall>)
    requires k < |lines| && LineStart(lines[k]) < |lines[k]|
    ensures r.Ok? ==> k + 1 < |lines|
  {
    match CallAt(lines[k], LineStart(lines[k]))
    case Err(m) => Err(m)
    case Ok((signature, value, args)) =>
      if k + 1 == |lines| then Err(ExpectedResultMissing)
      else
        var t := lines[k + 1];
        match ExpectationsAt(t, LineStart(t))
        case Err(m) => Err(m)
        case Ok((e, _)) => Ok(FunctionCall(signature, args, e.(output := OutputOf(e)), value))
  }

  // ---------------------------------------------------------------------
  // What each grammar step promises.
  // ---------------------------------------------------------------------

  /** `advanceLine` leaves the cursor after whitespace and slashes only,
      and never on whitespace. */
  lemma LineStartSkipsPrefix(s: string)
    ensures forall k :: 0 <= k < LineStart(s) ==> IsSpace(s[k]) || s[k] == '/'
    ensures LineStart(s) < |s| ==> !IsSpace(s[LineStart(s)])
  {
    SkipSpacesSkipsSpaces(s, 0);
    SkipSpacesSkipsSpaces(s, SkipSlashes(s, SkipSpaces(s, 0)));
  }

  /** `expectCharacterSequence` succeeds exactly when `w` stands at the
      cursor, and otherwise reports one of its characters. */
  lemma {:induction false} ExpectSequenceMatches(s: string, i: nat, w: string)
    requires i <= |s|
    ensures ExpectSequence(s, i, w).Ok? <==> i + |w| <= |s| && s[i..i + |w|] == w
    ensures var r := ExpectSequence(s, i, w);
      r.Err? ==> exists j :: 0 <= j < |w| && r.msg == ExpectMessage(w[j])
    decreases |w|
  {
    if w != [] {
      if i < |s| && s[i] == w[0] {
        ExpectSequenceMatches(s, i + 1, w[1..]);
        var r := ExpectSequence(s, i + 1, w[1..]);
        assert ExpectSequence(s, i, w) == r;
        if i + |w| <= |s| {
          assert s[i..i + |w|] == [s[i]] + s[i + 1..i + |w|];
        }
        if r.Err? {
          var j :| 0 <= j < |w[1..]| && r.msg == ExpectMessage(w[1..][j]);
          assert r.msg == ExpectMessage(w[j + 1]);
        }
      } else {
        assert ExpectSequence(s, i, w).msg == ExpectMessage(w[0]);
        if i + |w| <= |s| {
          assert s[i..i + |w|][0] == s[i];
        }
      }
    }
  }

  /** The signature is the text up to and including the first `)`; without
      one the parser reports the missing `)`. */
  lemma SignatureSpec(s: string, i: nat)
    requires i <= |s|
    ensures var r := SignatureAt(s, i);
      (r.Err? <==> forall k :: i <= k < |s| ==> s[k] != ')')
      && (r.Err? ==> r.msg == ExpectMessage(')'))
      && (r.Ok? ==> r.value.0 == s[i..r.value.1] && s[r.value.1 - 1] == ')')
      && (r.Ok? ==> forall k :: i <= k < r.value.1 - 1 ==> s[k] != ')')
  {}

  /** There is a value exactly when a comma follows the whitespace; the value
      is the conversion of all the trimmed text before the next colon, and a
      text that does not convert is an error. */
  lemma ValueSpec(s: string, i: nat)
    requires i <= |s|
    ensures var p := SkipSpaces(s, i);
      (p == |s| || s[p] != ',') <==> ValueAt(s, i) == Ok((None, p))
    ensures var p := SkipSpaces(s, i);
      p < |s| && s[p] == ',' ==>
        var e := FindChar(s, p + 1, ':');
        match ParseU256(Trim(s[p + 1..e]))
        case None => ValueAt(s, i) == Err(EtherValueInvalid)
        case Some(v) => ValueAt(s, i) == Ok((Some(v), e)) && v < Modulus
  {}

  /** The value text stops before the first `#` and is trimmed. */
  lemma RawSpec(s: string, a: nat)
    requires a <= |s|
    ensures var (raw, e) := RawUntilComment(s, a);
      && (e < |s| ==> s[e] == '#')
      && (forall k :: 0 <= k < |raw| ==> raw[k] != '#')
      && (raw == [] || (!IsSpace(raw[0]) && !IsSpace(raw[|raw| - 1])))
  {
    var e := FindChar(s, a, '#');
    var raw := Trim(s[a..e]);
    assert forall k :: 0 <= k < |raw| ==> raw[k] == s[a + SkipSpaces(s[a..e], 0) + k];
  }

  /** A comment needs its `#`, and is the rest of the line after the
      whitespace that follows it. */
  lemma CommentSpec(s: string, c: nat)
    requires c <= |s|
    ensures c == |s| ==> TrailingComment(s, c) == Ok(("", c))
    ensures c < |s| && s[c] == '#' ==>
      var d := SkipSpaces(s, c + 1); TrailingComment(s, c) == Ok((s[d..], d))
    ensures c < |s| && s[c] != '#' ==> TrailingComment(s, c) == Err(ExpectMessage('#'))
  {}

  /** Arguments: none at the end of the line, a colon otherwise required
      unless a comment starts, and the stored bytes and formats are the
      encoding of the stored text. */
  lemma ArgumentsSpec(s: string, i: nat)
    requires i <= |s|
    ensures SkipSpaces(s, i) == |s| ==> ArgumentsAt(s, i) == Ok((NoArguments, |s|))
    ensures var p := SkipSpaces(s, i);
      p < |s| && s[p] != '#' && s[p] != ':' ==> ArgumentsAt(s, i) == Err(ExpectMessage(':'))
    ensures var r := ArgumentsAt(s, i);
      r.Ok? ==> Encode(r.value.0.raw) == Ok((r.value.0.rawBytes, r.value.0.formats))
  {
    var p := SkipSpaces(s, i);
    if p < |s| && s[p] == '#' {
      assert Encode("") == Ok(([], []));
    }
  }

  /** Expectations: `->` gives a successful status, anything else must be
      `REVERT`, which expects no values; the stored bytes and formats are
      the encoding of the stored text, and the output is not yet set. */
  lemma ExpectationsSpec(s: string, i: nat)
    requires i <= |s|
    ensures var r := ExpectationsAt(s, i);
      r.Ok? ==> (r.value.0.status <==> i < |s| && s[i] == '-')
    ensures var r := ExpectationsAt(s, i);
      r.Ok? ==> Encode(r.value.0.raw) == Ok((r.value.0.rawBytes, r.value.0.formats)) && r.value.0.output == ""
    ensures var r := ExpectationsAt(s, i);
      r.Ok? && !r.value.0.status ==> r.value == (RevertExpectations, i + 6)
    ensures !(i < |s| && s[i] == '-') ==>
      (ExpectationsAt(s, i).Ok? <==> i + 6 <= |s| && s[i..i + 6] == "REVERT")
    ensures i < |s| && s[i] == '-' && (i + 1 == |s| || s[i + 1] != '>') ==>
      ExpectationsAt(s, i) == Err(ExpectMessage('>'))
  {
    ExpectSequenceMatches(s, i, "REVERT");
    assert Encode("") == Ok(([], []));
  }

  /** A call line yields its signature, a u256 ether value and arguments
      whose stored bytes are the encoding of their text. */
  lemma CallAtSpec(s: string, i: nat)
    requires i <= |s|
    ensures var r := CallAt(s, i);
      r.Ok? ==> SignatureAt(s, i).Ok? && r.value.0 == SignatureAt(s, i).value.0
    ensures var r := CallAt(s, i); r.Ok? ==> r.value.1 < Modulus
    ensures var r := CallAt(s, i);
      r.Ok? ==> Encode(r.value.2.raw) == Ok((r.value.2.rawBytes, r.value.2.formats))
  {
    match SignatureAt(s, i)
    case Err(_) =>
    case Ok((_, j)) =>
      ValueSpec(s, j);
      match ValueAt(s, j)
      case Err(_) =>
      case Ok((_, k)) => ArgumentsSpec(s, k);
  }

  /** `parseFunctionCalls` once `k` lines have been read: the loop stops
      when the stream is exhausted. */
  function ParseCallsFrom(lines: seq<string>, k: nat): Result<seq<FunctionCall>>
    requires k <= |lines|
    decreases |lines| - k, 2
  {
    if k == |lines| then Ok([]) else CallsAtLine(lines, k)
  }

  /** A line that is blank after the prefix is skipped. */
  function CallsAtLine(lines: seq<string>, k: nat): Result<seq<FunctionCall>>
    requires k < |lines|
    decreases |lines| - k, 1
  {
    if LineStart(lines[k]) == |lines[k]| then ParseCallsFrom(lines, k + 1)
    else CallsAtBlock(lines, k)
  }

  /** Any other line starts a call that takes two lines; its error ends the parse. */
  function CallsAtBlock(lines: seq<string>, k: nat): Result<seq<FunctionCall>>
    requires k < |lines| && LineStart(lines[k]) < |lines[k]|
    decreases |lines| - k, 0
  {
    match CallBlock(lines, k)
    case Err(m) => Err(m)
    case Ok(call) => PrependCalls([call], ParseCallsFrom(lines, k + 2))
  }

  lemma BlankLineStep(lines: seq<string>, k: nat)
    requires k < |lines| && LineStart(lines[k]) == |lines[k]|
    ensures ParseCallsFrom(lines, k) == ParseCallsFrom(lines, k + 1)
  {
    assert ParseCallsFrom(lines, k) == CallsAtLine(lines, k);
  }

  lemma CallLineStep(lines: seq<string>, k: nat)
    requires k < |lines| && LineStart(lines[k]) < |lines[k]|
    ensures ParseCallsFrom(lines, k) == CallsAtBlock(lines, k)
  {
    assert ParseCallsFrom(lines, k) == CallsAtLine(lines, k);
  }

  lemma CallBlockOutput(lines: seq<string>, k: nat)
    requires k < |lines| && LineStart(lines[k]) < |lines[k]|
    ensures CallBlock(lines, k).Ok? ==> OutputFollowsStatus(CallBlock(lines, k).value)
  {
    CallAtSpec(lines[k], LineStart(lines[k]));
    if k + 1 < |lines| {
      ExpectationsSpec(lines[k + 1], LineStart(lines[k + 1]));
    }
  }

  lemma CallBlockReencodes(lines: seq<string>, k: nat)
    requires k < |lines| && LineStart(lines[k]) < |lines[k]|
    ensures CallBlock(lines, k).Ok? ==> Reencodes(CallBlock(lines, k).value)
  {
    CallAtSpec(lines[k], LineStart(lines[k]));
    if k + 1 < |lines| {
      ExpectationsSpec(lines[k + 1], LineStart(lines[k + 1]));
    }
  }

  /** Every call of a successful parse has its output text set from its status. */
  predicate AllFollowStatus(r: Result<seq<FunctionCall>>) {
    r.Ok? ==> forall j :: 0 <= j < |r.value| ==> OutputFollowsStatus(r.value[j])
  }

  /** Every call of a successful parse stores the encodings of its own texts. */
  predicate AllReencode(r: Result<seq<FunctionCall>>) {
    r.Ok? ==> forall j :: 0 <= j < |r.value| ==> Reencodes(r.value[j])
  }

  lemma PrependKeeps(call: FunctionCall, rest: Result<seq<FunctionCall>>)
    ensures OutputFollowsStatus(call) && AllFollowStatus(rest) ==> AllFollowStatus(PrependCalls([call], rest))
    ensures Reencodes(call) && AllReencode(rest) ==> AllReencode(PrependCalls([call], rest))
  {
    if rest.Ok? {
      var all := [call] + rest.value;
      assert forall j :: 1 <= j < |all| ==> all[j] == rest.value[j - 1];
    }
  }

  /** One call block keeps both properties, given that the rest keeps them. */
  lemma CallBlockKeeps(lines: seq<string>, k: nat)
    requires k < |lines| && LineStart(lines[k]) < |lines[k]|
    requires k + 2 <= |lines| ==> AllFollowStatus(ParseCallsFrom(lines, k + 2))
    requires k + 2 <= |lines| ==> AllReencode(ParseCallsFrom(lines, k + 2))
    ensures AllFollowStatus(ParseCallsFrom(lines, k)) && AllReencode(ParseCallsFrom(lines, k))
  {
    CallLineStep(lines, k);
    match CallBlock(lines, k)
    case Err(_) =>
    case Ok(call) =>
      CallBlockOutput(lines, k);
      CallBlockReencodes(lines, k);
      PrependKeeps(call, ParseCallsFrom(lines, k + 2));
  }

  /** Every call `parseFunctionCalls` returns has its output text set from
      its status, a reverting call expects no values, and the stored bytes
      and formats are the encodings of the stored argument and expectation
      texts. */
  lemma {:induction false} ParsedCallsWellFormed(lines: seq<string>, k: nat)
    requires k <= |lines|
    ensures AllFollowStatus(ParseCallsFrom(lines, k))
    ensures AllReencode(ParseCallsFrom(lines, k))
    decreases |lines| - k
  {
    if k < |lines| {
      if LineStart(lines[k]) == |lines[k]| {
        BlankLineStep(lines, k);
        ParsedCallsWellFormed(lines, k + 1);
      } else {
        if k + 2 <= |lines| {
          ParsedCallsWellFormed(lines, k + 2);
        }
        CallBlockKeeps(lines, k);
      }
    }
  }

  /** Calls already collected, in front of the result of the rest. */
  function PrependCalls(calls: seq<FunctionCall>, r: Result<seq<FunctionCall>>): (p: Result<seq<FunctionCall>>)
    ensures p.Ok? <==> r.Ok?
    ensures p.Ok? ==> p.value == calls + r.value
  {
    match r
    case Ok(rest) => Ok(calls + rest)
    case Err(m) => Err(m)
  }

  lemma PrependNoCalls(r: Result<seq<FunctionCall>>)
    ensures PrependCalls([], r) == r
  {
    if r.Ok? {
      assert [] + r.value == r.value;
    }
  }

  lemma PrependCallsTwice(a: seq<FunctionCall>, b: seq<FunctionCall>, r: Result<seq<FunctionCall>>)
    ensures PrependCalls(a, PrependCalls(b, r)) == PrependCalls(a + b, r)
  {
    if r.Ok? {
      assert a + (b + r.value) == (a + b) + r.value;
    }
  }

  /** `parseFunctionCalls` on a whole stream. */
  function ParseFunctionCalls(lines: seq<string>): Result<seq<FunctionCall>> {
    ParseCallsFrom(lines, 0)
  }

  /** A stream of blank lines (after the prefix) holds no calls. */
  lemma {:induction false} BlankStreamHasNoCalls(lines: seq<string>, k: nat)
    requires k <= |lines|
    requires forall j :: k <= j < |lines| ==> LineStart(lines[j]) == |lines[j]|
    ensures ParseCallsFrom(lines, k) == Ok([])
    decreases |lines| - k
  {
    if k < |lines| {
      BlankLineStep(lines, k);
      BlankStreamHasNoCalls(lines, k + 1);
    }
  }

  /** Every call takes two lines of the stream. */
  lemma {:induction false} CallsTakeTwoLines(lines: seq<string>, k: nat)
    requires k <= |lines|
    ensures var r := ParseCallsFrom(lines, k); r.Ok? ==> 2 * |r.value| <= |lines| - k
    decreases |lines| - k
  {
    if k < |lines| {
      if LineStart(lines[k]) == |lines[k]| {
        BlankLineStep(lines, k);
        CallsTakeTwoLines(lines, k + 1);
      } else {
        CallLineStep(lines, k);
        if k + 2 <= |lines| {
          CallsTakeTwoLines(lines, k + 2);
        }
      }
    }
  }

  /** A well-formed call on the last line of the stream has no expectation line. */
  lemma LastLineCallMissesExpectation(lines: seq<string>)
    requires |lines| > 0
    requires var s := lines[|lines| - 1]; LineStart(s) < |s| && CallAt(s, LineStart(s)).Ok?
    ensures ParseCallsFrom(lines, |lines| - 1) == Err(ExpectedResultMissing)
  {
    CallLineStep(lines, |lines| - 1);
  }

  /** A value is the converted text between the comma and the colon. */
  lemma EtherValueExample()
    ensures ValueAt(", 2: 1", 0) == Ok((Some(2), 3))
  {
    var s := ", 2: 1";
    assert SkipSpaces(s, 0) == 0;
    FindCharAt(s, 1, 3, ':');
    assert s[1..3] == " 2";
    assert SkipSpaces(" 2", 0) == 1;
    assert Trim(" 2") == "2";
    assert DecimalValue("2") == 2;
  }

  /** The ether value is the whole text before the colon, so a unit after it
      is rejected. */
  lemma EtherUnitExample()
    ensures ValueAt(", 2 ether: 1", 0) == Err(EtherValueInvalid)
  {
    var s := ", 2 ether: 1";
    assert SkipSpaces(s, 0) == 0;
    FindCharAt(s, 1, 9, ':');
    var u := s[1..9];
    assert u == " 2 ether";
    assert SkipSpaces(u, 0) == 1;
    var t := Trim(u);
    assert t == u[1..1 + |t|];
    assert |t| >= 3 by { assert !IsSpace(u[3]); }
    assert t[1] == ' ';
    assert !AllDigits(t) && t[0] != '-';
  }

  // ---------------------------------------------------------------------
  // The ether value as the file format documents it (`g(), 2 ether`).
  // ---------------------------------------------------------------------

  /** A value text as documented: a decimal number, whitespace and the unit
      `ether`; the amount is the number, reduced modulo 2^256. */
  function EtherAmount(t: string): (r: Option<nat>)
    ensures r.Some? ==> r.value < Modulus && |t| > 5 && t[|t| - 5..] == "ether"
  {
    if |t| > 5 && t[|t| - 5..] == "ether" then
      var n := TrimRight(t[..|t| - 5]);
      if 0 < |n| < |t| - 5 && AllDigits(n) then ParseU256(n) else None
    else None
  }

  /** `parseFunctionCallValue` with the documented value text: the same
      comma, the same text up to the colon, read as an amount of ether. */
  function ValueAtIntended(s: string, i: nat): (r: Result<(Option<nat>, nat)>)
    requires i <= |s|
    ensures r.Ok? ==> r.value.1 <= |s|
  {
    var p := SkipSpaces(s, i);
    if p == |s| || s[p] != ',' then Ok((None, p))
    else
      var e := FindChar(s, p + 1, ':');
      match EtherAmount(Trim(s[p + 1..e]))
      case None => Err(EtherValueInvalid)
      case Some(v) => Ok((Some(v), e))
  }

  /** Trailing whitespace comes off and nothing more. */
  lemma {:induction false} TrimRightBlank(x: string, w: string)
    requires x != [] && !IsSpace(x[|x| - 1])
    requires forall k :: 0 <= k < |w| ==> IsSpace(w[k])
    ensures TrimRight(x + w) == x
    decreases |w|
  {
    if w == [] {
      assert x + w == x;
    } else {
      var v := w[..|w| - 1];
      assert (x + w)[..|x + w| - 1] == x + v;
      TrimRightBlank(x, v);
    }
  }

  /** Every amount below 2^256, written in decimal and followed by
      whitespace and `ether`, is read back as itself. */
  lemma EtherAmountOfText(v: nat, w: string)
    requires v < Modulus && w != []
    requires forall k :: 0 <= k < |w| ==> IsSpace(w[k])
    ensures EtherAmount(NatToDecimal(v) + w + "ether") == Some(v)
  {
    var d := NatToDecimal(v);
    var t := d + w + "ether";
    assert t[|t| - 5..] == "ether";
    assert t[..|t| - 5] == d + w;
    TrimRightBlank(d, w);
    ParseRendered(v);
  }

  /** A documented value text is never a number: `u256` rejects it. */
  lemma EtherAmountNotNumber(t: string)
    requires EtherAmount(t).Some?
    ensures ParseU256(t).None?
  {
    assert t[|t| - 1] == 'r' && !IsDigit(t[|t| - 1]);
    assert t[1..][|t| - 2] == t[|t| - 1];
  }

  /** The code and the documentation read a comma at the same places and
      read the same text after it, but no text is a value for both: every
      value the code accepts is rejected by the documented rule, and every
      documented value is rejected by the code. */
  lemma ValueAtDisagrees(s: string, i: nat)
    requires i <= |s|
    ensures ValueAt(s, i).Ok? && ValueAt(s, i).value.0.None? <==>
      ValueAtIntended(s, i).Ok? && ValueAtIntended(s, i).value.0.None?
    ensures ValueAt(s, i).Ok? && ValueAt(s, i).value.0.Some? ==> ValueAtIntended(s, i) == Err(EtherValueInvalid)
    ensures ValueAtIntended(s, i).Ok? && ValueAtIntended(s, i).value.0.Some? ==> ValueAt(s, i) == Err(EtherValueInvalid)
  {
    var p := SkipSpaces(s, i);
    if p < |s| && s[p] == ',' {
      var t := Trim(s[p + 1..FindChar(s, p + 1, ':')]);
      if EtherAmount(t).Some? {
        EtherAmountNotNumber(t);
      }
    }
  }

  /** The value of the documented call line `g(), 2 ether`. */
  lemma IntendedEtherExample()
    ensures ValueAtIntended(", 2 ether", 0) == Ok((Some(2), 9))
  {
    var s := ", 2 ether";
    assert SkipSpaces(s, 0) == 0;
    FindCharAt(s, 1, 9, ':');
    TrimmedAmount(s[1..9], "2 ether", 2);
  }

  /** The value of the documented call line `h(uint256), 1 ether: 42`: the
      text stops at the colon. */
  lemma IntendedEtherBeforeColon()
    ensures ValueAtIntended(", 1 ether: 42", 0) == Ok((Some(1), 9))
  {
    var s := ", 1 ether: 42";
    assert SkipSpaces(s, 0) == 0;
    FindCharAt(s, 1, 9, ':');
    TrimmedAmount(s[1..9], "1 ether", 1);
  }

  /** ` d ether`, for a single digit d, is read as the amount d. */
  lemma TrimmedAmount(u: string, t: string, v: nat)
    requires v < 10 && u == [' '] + t && t == [DigitChar(v)] + " ether"
    ensures EtherAmount(Trim(u)) == Some(v)
  {
    assert SkipSpaces(u, 0) == 1 by { assert IsSpace(u[0]) && !IsSpace(u[1]); }
    assert u[1..] == t;
    assert TrimRight(t) == t by { assert !IsSpace(t[|t| - 1]); }
    assert Trim(u) == t;
    assert NatToDecimal(v) == [DigitChar(v)];
    assert t == NatToDecimal(v) + " " + "ether";
    EtherAmountOfText(v, " ");
  }

  /** A value without the unit, or with another unit, is rejected. */
  lemma IntendedEtherNeedsUnit()
    ensures ValueAtIntended(", 2", 0) == Err(EtherValueInvalid)
    ensures ValueAtIntended(", 2 wei", 0) == Err(EtherValueInvalid)
  {
    var b := ", 2";
    assert SkipSpaces(b, 0) == 0;
    FindCharAt(b, 1, |b|, ':');
    assert |Trim(b[1..3])| <= 2;
    assert EtherAmount(Trim(b[1..3])) == None;
    var c := ", 2 wei";
    assert SkipSpaces(c, 0) == 0;
    FindCharAt(c, 1, |c|, ':');
    var u := c[1..7];
    assert SkipSpaces(u, 0) == 1;
    assert |Trim(u)| <= 5;
    assert EtherAmount(Trim(u)) == None;
  }

  /** The scan for `c` from `i` stops at `j` when `c` first stands there,
      or at the end when it does not occur. */
  lemma {:induction false} FindCharAt(s: string, i: nat, j: nat, c: char)
    requires i <= j <= |s|
    requires forall k :: i <= k < j ==> s[k] != c
    requires j < |s| ==> s[j] == c
    ensures FindChar(s, i, c) == j
    decreases j - i
  {
    if i < j {
      FindCharAt(s, i + 1, j, c);
    }
  }

  /** The call line `// g()`: the signature `g()`, no value and no arguments. */
  lemma CallLineExample()
    ensures CallAt("// g()", 3) == Ok(("g()", 0, NoArguments))
  {
    var s := "// g()";
    assert FindChar(s, 3, ')') == 5 by { assert s[3] != ')' && s[4] != ')' && s[5] == ')'; }
    assert s[3..6] == "g()";
    assert SignatureAt(s, 3) == Ok(("g()", 6));
    assert ValueAt(s, 6) == Ok((None, 6));
    assert ArgumentsAt(s, 6) == Ok((NoArguments, 6));
  }

  /** The expectation line `// REVERT`. */
  lemma RevertLineExample()
    ensures ExpectationsAt("// REVERT", 3) == Ok((RevertExpectations, 9))
  {
    var s := "// REVERT";
    ExpectSequenceMatches(s, 3, "REVERT");
    assert s[3..9] == "REVERT";
  }

  lemma PrefixExamples()
    ensures LineStart("// g()") == 3 && LineStart("// REVERT") == 3 && LineStart("") == 0
  {
    assert SkipSpaces("// g()", 0) == 0;
    assert SkipSlashes("// g()", 0) == 2;
    assert SkipSpaces("// g()", 2) == 3;
    assert SkipSpaces("// REVERT", 0) == 0;
    assert SkipSlashes("// REVERT", 0) == 2;
    assert SkipSpaces("// REVERT", 2) == 3;
  }

  /** A reverting call without arguments, written behind comment slashes. */
  lemma RevertingCallExample()
    ensures ParseFunctionCalls(["// g()", "// REVERT"])
      == Ok([FunctionCall("g()", NoArguments, RevertExpectations.(output := "REVERT"), 0)])
  {
    PrefixExamples();
    CallLineExample();
    RevertLineExample();
    var lines := ["// g()", "// REVERT"];
    CallLineStep(lines, 0);
    var call := CallBlock(lines, 0);
    assert call == Ok(FunctionCall("g()", NoArguments, RevertExpectations.(output := "REVERT"), 0));
    assert ParseCallsFrom(lines, 2) == Ok([]);
    assert CallsAtBlock(lines, 0) == PrependCalls([call.value], Ok([]));
    assert [call.value] + [] == [call.value];
  }

  /** The same call with no line after it. */
  lemma MissingExpectationExample()
    ensures ParseFunctionCalls(["", "// g()"]) == Err(ExpectedResultMissing)
  {
    PrefixExamples();
    CallLineExample();
    var lines := ["", "// g()"];
    BlankLineStep(lines, 0);
    LastLineCallMissesExpectation(lines);
  }

  // ---------------------------------------------------------------------
  // The parser: every step walks the scanner as the source does.
  // ---------------------------------------------------------------------

  /** A method result `r` and the cursor it left agree with a grammar function's result. */
  predicate Yields<T(==)>(r: Result<T>, spec: Result<(T, nat)>, cursor: nat) {
    match spec
    case Ok(v) => r == Ok(v.0) && cursor == v.1
    case Err(m) => r == Err(m)
  }

  class TestFileParser {
    const scanner: Scanner

    constructor(input: seq<string>)
      ensures fresh(scanner)
      ensures scanner.Valid() && scanner.input == input && scanner.consumed == 0
    {
      scanner := new Scanner(input);
    }

    /** `skipWhitespaces`. */
    method SkipWhitespaces()
      requires scanner.Valid()
      modifies scanner
      ensures scanner.Valid()
      ensures scanner.line == old(scanner.line) && scanner.consumed == old(scanner.consumed)
      ensures scanner.pos == SkipSpaces(scanner.line, old(scanner.pos))
    {
      scanner.pos := SkipWhitespace(scanner.line, scanner.pos);
    }

    /** `expectCharacter`. */
    method ExpectCharacter(c: char) returns (r: Result<nat>)
      requires scanner.Valid()
      modifies scanner
      ensures scanner.Valid()
      ensures scanner.line == old(scanner.line) && scanner.consumed == old(scanner.consumed)
      ensures r == Expect(scanner.line, old(scanner.pos), c)
      ensures r.Ok? ==> scanner.pos == r.value
    {
      r := Expect(scanner.line, scanner.pos, c);
      if r.Ok? {
        scanner.pos := r.value;
      }
    }

    /** `expectCharacterSequence`. */
    method ExpectCharacterSequence(w: string) returns (r: Result<nat>)
      requires scanner.Valid()
      modifies scanner
      ensures scanner.Valid()
      ensures scanner.line == old(scanner.line) && scanner.consumed == old(scanner.consumed)
      ensures r == ExpectSequence(scanner.line, old(scanner.pos), w)
      ensures r.Ok? ==> scanner.pos == r.value
    {
      var k := 0;
      while k < |w|
        invariant 0 <= k <= |w|
        invariant scanner.Valid()
        invariant scanner.line == old(scanner.line) && scanner.consumed == old(scanner.consumed)
        invariant ExpectSequence(scanner.line, old(scanner.pos), w) == ExpectSequence(scanner.line, scanner.pos, w[k..])
      {
        assert w[k..][0] == w[k] && w[k..][1..] == w[k + 1..];
        var e := ExpectCharacter(w[k]);
        if e.Err? {
          return Err(e.msg);
        }
        k := k + 1;
      }
      r := Ok(scanner.pos);
    }

    /** `advanceLine`: the next line, with the cursor past its prefix. */
    method AdvanceLine() returns (ok: bool)
      requires scanner.Valid()
      modifies scanner
      ensures scanner.Valid()
      ensures ok <==> old(scanner.consumed) < |scanner.input|
      ensures ok ==> scanner.line == scanner.input[old(scanner.consumed)] && scanner.consumed == old(scanner.consumed) + 1
      ensures !ok ==> scanner.line == "" && scanner.consumed == old(scanner.consumed)
      ensures scanner.pos == LineStart(scanner.line)
    {
      ok := scanner.AdvanceLine();
      SkipWhitespaces();
      scanner.pos := SkipSlashesFrom(scanner.line, scanner.pos);
      SkipWhitespaces();
    }

    /** The loop that advances the cursor to the first `c` or the end of the line. */
    method AdvanceTo(c: char)
      requires scanner.Valid()
      modifies scanner
      ensures scanner.Valid()
      ensures scanner.line == old(scanner.line) && scanner.consumed == old(scanner.consumed)
      ensures scanner.pos == FindChar(scanner.line, old(scanner.pos), c)
    {
      while !scanner.Eol() && scanner.Current() != c
        invariant scanner.Valid()
        invariant scanner.line == old(scanner.line) && scanner.consumed == old(scanner.consumed)
        invariant old(scanner.pos) <= scanner.pos
        invariant FindChar(scanner.line, scanner.pos, c) == FindChar(scanner.line, old(scanner.pos), c)
        decreases |scanner.line| - scanner.pos
      {
        scanner.Advance();
      }
    }

    /** `parseFunctionCallSignature`. */
    method ParseFunctionCallSignature() returns (r: Result<string>)
      requires scanner.Valid()
      modifies scanner
      ensures scanner.Valid()
      ensures scanner.line == old(scanner.line) && scanner.consumed == old(scanner.consumed)
      ensures Yields(r, SignatureAt(scanner.line, old(scanner.pos)), scanner.pos)
    {
      var signatureBegin := scanner.pos;
      AdvanceTo(')');
      var e := ExpectCharacter(')');
      if e.Err? {
        return Err(e.msg);
      }
      r := Ok(scanner.line[signatureBegin..scanner.pos]);
    }

    /** `parseFunctionCallValue`. */
    method ParseFunctionCallValue() returns (r: Result<Option<nat>>)
      requires scanner.Valid()
      modifies scanner
      ensures scanner.Valid()
      ensures scanner.line == old(scanner.line) && scanner.consumed == old(scanner.consumed)
      ensures Yields(r, ValueAt(scanner.line, old(scanner.pos)), scanner.pos)
    {
      ghost var line, start := scanner.line, scanner.pos;
      SkipWhitespaces();
      if scanner.Eol() || scanner.Current() != ',' {
        return Ok(None);
      }
      scanner.Advance();
      var etherBegin := scanner.pos;
      AdvanceTo(':');
      var etherString := Trim(scanner.line[etherBegin..scanner.pos]);
      var value := ParseU256(etherString);
      assert ValueAt(line, start) == if value.None? then Err(EtherValueInvalid) else Ok((value, scanner.pos));
      if value.None? {
        return Err(EtherValueInvalid);
      }
      r := Ok(value);
    }

    /** The text up to the next `#`, trimmed; shared by arguments and expectations. */
    method ParseRawUntilComment() returns (raw: string)
      requires scanner.Valid()
      modifies scanner
      ensures scanner.Valid()
      ensures scanner.line == old(scanner.line) && scanner.consumed == old(scanner.consumed)
      ensures (raw, scanner.pos) == RawUntilComment(scanner.line, old(scanner.pos))
    {
      var begin := scanner.pos;
      AdvanceTo('#');
      raw := Trim(scanner.line[begin..scanner.pos]);
    }

    /** The optional `# comment` that ends an argument or expectation line. */
    method ParseComment() returns (r: Result<string>)
      requires scanner.Valid()
      modifies scanner
      ensures scanner.Valid()
      ensures scanner.line == old(scanner.line) && scanner.consumed == old(scanner.consumed)
      ensures Yields(r, TrailingComment(scanner.line, old(scanner.pos)), scanner.pos)
    {
      if scanner.Eol() {
        return Ok("");
      }
      var e := ExpectCharacter('#');
      if e.Err? {
        return Err(e.msg);
      }
      SkipWhitespaces();
      r := Ok(scanner.line[scanner.pos..]);
    }

    /** `parseFunctionCallArgument`. */
    method ParseFunctionCallArgument() returns (r: Result<FunctionCallArgs>)
      requires scanner.Valid()
      modifies scanner
      ensures scanner.Valid()
      ensures scanner.line == old(scanner.line) && scanner.consumed == old(scanner.consumed)
      ensures Yields(r, ArgumentsAt(scanner.line, old(scanner.pos)), scanner.pos)
    {
      SkipWhitespaces();
      var arguments := NoArguments;
      if !scanner.Eol() {
        if scanner.Current() != '#' {
          var e := ExpectCharacter(':');
          if e.Err? {
            return Err(e.msg);
          }
          SkipWhitespaces();
          var raw := ParseRawUntilComment();
          var bytesFormat := FormattedStringToBytes(raw);
          if bytesFormat.Err? {
            return Err(bytesFormat.msg);
          }
          arguments := FunctionCallArgs(raw, bytesFormat.value.0, bytesFormat.value.1, "");
        }
        var comment := ParseComment();
        if comment.Err? {
          return Err(comment.msg);
        }
        arguments := arguments.(comment := comment.value);
      }
      r := Ok(arguments);
    }

    /** `parseFunctionCallExpectations`. */
    method ParseFunctionCallExpectations() returns (r: Result<FunctionCallExpectations>)
      requires scanner.Valid()
      modifies scanner
      ensures scanner.Valid()
      ensures scanner.line == old(scanner.line) && scanner.consumed == old(scanner.consumed)
      ensures Yields(r, ExpectationsAt(scanner.line, old(scanner.pos)), scanner.pos)
    {
      if !scanner.Eol() && scanner.Current() == '-' {
        var dash := ExpectCharacter('-');
        assert dash.Ok?;
        var e := ExpectCharacter('>');
        if e.Err? {
          return Err(e.msg);
        }
        SkipWhitespaces();
        var raw := ParseRawUntilComment();
        var bytesFormat := FormattedStringToBytes(raw);
        if bytesFormat.Err? {
          return Err(bytesFormat.msg);
        }
        var result := FunctionCallExpectations(raw, bytesFormat.value.0, bytesFormat.value.1, true, "", "");
        var comment := ParseComment();
        if comment.Err? {
          return Err(comment.msg);
        }
        r := Ok(result.(comment := comment.value));
      } else {
        var e := ExpectCharacterSequence("REVERT");
        if e.Err? {
          return Err(e.msg);
        }
        r := Ok(RevertExpectations);
      }
    }

    /** The body of the loop of `parseFunctionCalls` for a non-blank line:
        the call line, the next line and the expectation on it. */
    method ParseFunctionCall() returns (r: Result<FunctionCall>)
      requires scanner.Valid() && 1 <= scanner.consumed
      requires scanner.line == scanner.input[scanner.consumed - 1]
      requires scanner.pos == LineStart(scanner.line) < |scanner.line|
      modifies scanner
      ensures scanner.Valid()
      ensures r.Ok? ==> scanner.consumed == old(scanner.consumed) + 1 <= |scanner.input|
      ensures r.Ok? ==> (ParseCallsFrom(scanner.input, old(scanner.consumed) - 1)
                      == PrependCalls([r.value], ParseCallsFrom(scanner.input, old(scanner.consumed) + 1)))
      ensures r.Err? ==> ParseCallsFrom(scanner.input, old(scanner.consumed) - 1) == Err(r.msg)
    {
      CallLineStep(scanner.input, scanner.consumed - 1);
      var signature := ParseFunctionCallSignature();
      if signature.Err? {
        return Err(signature.msg);
      }
      var value := ParseFunctionCallValue();
      if value.Err? {
        return Err(value.msg);
      }
      var arguments := ParseFunctionCallArgument();
      if arguments.Err? {
        return Err(arguments.msg);
      }
      var next := AdvanceLine();
      if !next {
        return Err(ExpectedResultMissing);
      }
      var expectations := ParseFunctionCallExpectations();
      if expectations.Err? {
        return Err(expectations.msg);
      }
      var e := expectations.value;
      if e.status {
        e := e.(output := "-> " + e.raw);
      } else {
        e := e.(output := "REVERT");
      }
      r := Ok(FunctionCall(signature.value, arguments.value, e, value.value.GetOr(0)));
    }

    /** `parseFunctionCalls`: the calls of the rest of the stream, in order. */
    method ParseFunctionCalls() returns (r: Result<seq<FunctionCall>>)
      requires scanner.Valid()
      modifies scanner
      ensures r == ParseCallsFrom(scanner.input, old(scanner.consumed))
    {
      ghost var start := scanner.consumed;
      var calls: seq<FunctionCall> := [];
      var more := AdvanceLine();
      // The index of the line the loop is about to look at.
      ghost var pending := if more then scanner.consumed - 1 else scanner.consumed;
      PrependNoCalls(ParseCallsFrom(scanner.input, start));
      while more
        invariant scanner.Valid() && pending <= |scanner.input|
        invariant more ==> scanner.consumed == pending + 1 && scanner.line == scanner.input[pending]
        invariant more ==> scanner.pos == LineStart(scanner.line)
        invariant !more ==> pending == |scanner.input|
        invariant ParseCallsFrom(scanner.input, start) == PrependCalls(calls, ParseCallsFrom(scanner.input, pending))
        decreases |scanner.input| - pending
      {
        if scanner.Eol() {
          BlankLineStep(scanner.input, pending);
          more := AdvanceLine();
          pending := pending + 1;
          continue;
        }
        var call := ParseFunctionCall();
        if call.Err? {
          return Err(call.msg);
        }
        PrependCallsTwice(calls, [call.value], ParseCallsFrom(scanner.input, pending + 2));
        calls := calls + [call.value];
        more := AdvanceLine();
        pending := pending + 2;
      }
      r := Ok(calls);
      assert calls + [] == calls;
    }
  }
}

/** The cursor helpers shared by the codec and the call parser
    (`expect`, `skipWhitespace`, `skipSlashes` and `boost::algorithm::trim`).
    A cursor is an index into one line; the functions give the cursor they
    stop at, and the methods walk there one character at a time as the
    source's loops do. */
module Lexing {
  import opened Ascii
  import opened Wrappers

  /** The message of the `ParserError` thrown by `expect`. */
  function ExpectMessage(c: char): string {
    "Invalid test expectation. Expected: \"" + [c] + "\"."
  }

  /** The first position at or after `i` that does not hold whitespace. */
  function SkipSpaces(s: string, i: nat): (r: nat)
    requires i <= |s|
    ensures i <= r <= |s|
    ensures r < |s| ==> !IsSpace(s[r])
    decreases |s| - i
  {
    if i < |s| && IsSpace(s[i]) then SkipSpaces(s, i + 1) else i
  }

  /** Everything skipped is whitespace. */
  lemma {:induction false} SkipSpacesSkipsSpaces(s: string, i: nat)
    requires i <= |s|
    ensures forall k :: i <= k < SkipSpaces(s, i) ==> IsSpace(s[k])
    decreases |s| - i
  {
    if i < |s| && IsSpace(s[i]) {
      SkipSpacesSkipsSpaces(s, i + 1);
    }
  }

  /** The first position at or after `i` that does not hold a slash. */
  function SkipSlashes(s: string, i: nat): (r: nat)
    requires i <= |s|
    ensures i <= r <= |s|
    ensures forall k :: i <= k < r ==> s[k] == '/'
    ensures r < |s| ==> s[r] != '/'
    decreases |s| - i
  {
    if i < |s| && s[i] == '/' then SkipSlashes(s, i + 1) else i
  }

  /** The first position at or after `i` that holds `c`, or the end of the line. */
  function FindChar(s: string, i: nat, c: char): (r: nat)
    requires i <= |s|
    ensures i <= r <= |s|
    ensures forall k :: i <= k < r ==> s[k] != c
    ensures r < |s| ==> s[r] == c
    decreases |s| - i
  {
    if i < |s| && s[i] != c then FindChar(s, i + 1, c) else i
  }

  /** `expect`: the cursor must stand on `c`, and moves past it. */
  function Expect(s: string, i: nat, c: char): (r: Result<nat>)
    requires i <= |s|
    ensures r.Ok? <==> i < |s| && s[i] == c
    ensures r.Ok? ==> r.value == i + 1
    ensures r.Err? ==> r.msg == ExpectMessage(c)
  {
    if i == |s| || s[i] != c then Err(ExpectMessage(c)) else Ok(i + 1)
  }

  /** `s` without its trailing whitespace. */
  function TrimRight(s: string): (r: string)
    ensures |r| <= |s| && r == s[..|r|]
    ensures r != [] ==> !IsSpace(r[|r| - 1])
    ensures forall k :: |r| <= k < |s| ==> IsSpace(s[k])
  {
    if s != [] && IsSpace(s[|s| - 1]) then TrimRight(s[..|s| - 1]) else s
  }

  /** `boost::algorithm::trim`: leading and trailing whitespace removed. */
  function Trim(s: string): (r: string)
    ensures var a := SkipSpaces(s, 0);
              a + |r| <= |s| && r == s[a..a + |r|]
              && (forall k :: a + |r| <= k < |s| ==> IsSpace(s[k]))
    ensures r != [] ==> !IsSpace(r[0]) && !IsSpace(r[|r| - 1])
  {
    var a := SkipSpaces(s, 0);
    var r := TrimRight(s[a..]);
    assert r == s[a..a + |r|];
    r
  }

  /** `skipWhitespace`, walking the cursor. */
  method SkipWhitespace(s: string, i: nat) returns (r: nat)
    requires i <= |s|
    ensures r == SkipSpaces(s, i)
  {
    r := i;
    while r != |s| && IsSpace(s[r])
      invariant i <= r <= |s|
      invariant SkipSpaces(s, r) == SkipSpaces(s, i)
    {
      r := r + 1;
    }
  }

  /** `skipSlashes`, walking the cursor. */
  method SkipSlashesFrom(s: string, i: nat) returns (r: nat)
    requires i <= |s|
    ensures r == SkipSlashes(s, i)
  {
    r := i;
    while r != |s| && s[r] == '/'
      invariant i <= r <= |s|
      invariant SkipSlashes(s, r) == SkipSlashes(s, i)
    {
      r := r + 1;
    }
  }
}

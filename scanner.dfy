/** The line cursor of the test-file parser (`TestFileParser::Scanner`).
    The input stream is the sequence of its lines, as `std::getline`
    delivers them; `consumed` counts the lines read so far. */
module Scanning {

  class Scanner {
    /** The lines of the input stream. */
    const input: seq<string>
    /** How many lines `advanceLine` has taken from the stream. */
    var consumed: nat
    /** `m_line`: the current line. */
    var line: string
    /** `m_char`: the cursor, an index into `line`. */
    var pos: nat

    ghost predicate Valid()
      reads this
    {
      consumed <= |input| && pos <= |line|
    }

    /** A scanner over a stream no line of which has been read yet. */
    constructor(input: seq<string>)
      ensures Valid()
      ensures this.input == input && consumed == 0 && line == "" && pos == 0
    {
      this.input := input;
      consumed := 0;
      line := "";
      pos := 0;
    }

    /** `eol`: the cursor stands at the end of the line. */
    predicate Eol()
      reads this
    {
      pos == |line|
    }

    /** `current`: the character under the cursor, which must exist. */
    function Current(): char
      reads this
      requires Valid() && !Eol()
    {
      line[pos]
    }

    /** `advance`: one character forward; the line stays as it is. */
    method Advance()
      requires Valid() && !Eol()
      modifies this
      ensures Valid()
      ensures pos == old(pos) + 1
      ensures line == old(line) && consumed == old(consumed)
    {
      pos := pos + 1;
    }

    /** `advanceLine`: the next line of the stream becomes the current line
        and the cursor goes to its start. Once the stream is exhausted the
        call reports false; the model then leaves an empty line, a choice of
        the model, since the parser never reads the line after that. */
    method AdvanceLine() returns (ok: bool)
      requires Valid()
      modifies this
      ensures Valid()
      ensures ok <==> old(consumed) < |input|
      ensures ok ==> line == input[old(consumed)] && consumed == old(consumed) + 1
      ensures !ok ==> line == "" && consumed == old(consumed)
      ensures pos == 0
    {
      if consumed < |input| {
        line := input[consumed];
        consumed := consumed + 1;
        ok := true;
      } else {
        line := "";
        ok := false;
      }
      pos := 0;
    }
  }
}

/** The whitespace-compaction state machine of jc: one pass over a chunk of
    bytes that drops the JSON whitespace found outside quoted strings and
    carries the "inside a string" counter and the last byte seen across
    chunk boundaries. */
module Compaction {

  /** An octet of the input or output stream. */
  type Byte = b: int | 0 <= b < 256

  const Quote: Byte := '"' as int
  const Backslash: Byte := '\\' as int

  /** The four insignificant-whitespace bytes of section 2 of RFC 8259:
      line feed, carriage return, horizontal tab and space. */
  predicate IsWhitespace(c: Byte) {
    c == '\n' as int || c == '\r' as int || c == '\t' as int || c == ' ' as int
  }

  /** The state carried from one chunk to the next: the quote counter
      (0 outside a string) and the last byte processed. */
  datatype State = State(quotes: int, last: Byte)

  /** The state the program starts the stream with: `quotes := 0` and
      `last := byte(0)`. */
  const Initial := State(0, 0)

  /** What compressing a chunk gives back: the bytes to write and the new state. */
  datatype Compressed = Compressed(output: seq<Byte>, state: State)

  /** The transition for one byte. Outside a string a quote opens one and
      whitespace is dropped; inside a string every byte is copied and a quote
      closes the string unless the single byte before it is a backslash. */
  function Step(s: State, c: Byte): (r: Compressed)
    ensures r.state.last == c
    ensures r.output == (if s.quotes == 0 && IsWhitespace(c) then [] else [c])
    ensures s.quotes == 0 ==> r.state.quotes == (if c == Quote then 1 else 0)
    ensures s.quotes != 0 && (c != Quote || s.last == Backslash) ==> r.state.quotes == s.quotes
  {
    if s.quotes == 0 then
      if c == Quote then Compressed([c], State(s.quotes + 1, c))
      else if IsWhitespace(c) then Compressed([], State(s.quotes, c))
      else Compressed([c], State(s.quotes, c))
    else
      var quotes := if c == Quote && s.last != Backslash then s.quotes - 1 else s.quotes;
      Compressed([c], State(quotes, c))
  }

  /** The specification of compressing a whole chunk: the transitions of its
      bytes, left to right, starting from state `s`. */
  function Compacted(input: seq<Byte>, s: State): (r: Compressed)
    ensures |r.output| <= |input|
    ensures input == [] ==> r.output == [] && r.state == s
    ensures input != [] ==> r.state.last == input[|input| - 1]
    ensures s.quotes == 0 || s.quotes == 1 ==> r.state.quotes == 0 || r.state.quotes == 1
    decreases |input|
  {
    if |input| == 0 then Compressed([], s)
    else
      var prefix := Compacted(input[..|input| - 1], s);
      var step := Step(prefix.state, input[|input| - 1]);
      Compressed(prefix.output + step.output, step.state)
  }

  /** The program's `compress`: copies the bytes that are kept and threads
      the quote counter and the last byte through the chunk. As in the
      program, the first byte is handled ahead of the loop, by the same
      transition as the loop body. */
  method Compress(input: seq<Byte>, quotes: int, last: Byte) returns (output: seq<Byte>, newQuotes: int, newLast: Byte)
    ensures Compressed(output, State(newQuotes, newLast)) == Compacted(input, State(quotes, last))
  {
    output, newQuotes, newLast := [], quotes, last;
    if |input| == 0 {
      return;
    }
    if newQuotes == 0 {
      var c := input[0];
      if c == Quote {
        newQuotes := newQuotes + 1;
        output := output + [c];
      } else if !IsWhitespace(c) {
        output := output + [c];
      }
    } else {
      if input[0] == Quote && newLast != Backslash {
        newQuotes := newQuotes - 1;
      }
      output := output + [input[0]];
    }
    newLast := input[0];
    assert input[..1][..0] == [];
    for i := 1 to |input|
      invariant Compressed(output, State(newQuotes, newLast)) == Compacted(input[..i], State(quotes, last))
    {
      if newQuotes == 0 {
        var c := input[i];
        if c == Quote {
          newQuotes := newQuotes + 1;
          output := output + [c];
        } else if !IsWhitespace(c) {
          output := output + [c];
        }
      } else {
        if input[i] == Quote && newLast != Backslash {
          newQuotes := newQuotes - 1;
        }
        output := output + [input[i]];
      }
      newLast := input[i];
      assert input[..i + 1][..i] == input[..i];
    }
    assert input[..|input|] == input;
  }
}

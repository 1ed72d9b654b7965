/** The two sides of a client connection as the handler uses them: a reader that
    hands out the lines the client sent, and an output stream that collects the
    bytes written back. */
module Streams {
  import opened Wrappers
  import opened Text

  /** BufferedReader.readLine over everything the client sends before the end
      of the stream: the lines, and how many of them have been read. */
  class LineReader {
    const lines: seq<string>
    var pos: nat

    ghost predicate Valid()
      reads this
    {
      pos <= |lines|
    }

    constructor (lines: seq<string>)
      ensures Valid() && this.lines == lines && pos == 0
    {
      this.lines := lines;
      pos := 0;
    }

    /** The next line, or None (Java's null) once the stream has ended. */
    method ReadLine() returns (line: Option<string>)
      requires Valid()
      modifies this
      ensures Valid()
      ensures old(pos) < |lines| ==> line == Some(lines[old(pos)]) && pos == old(pos) + 1
      ensures old(pos) == |lines| ==> line == None && pos == old(pos)
    {
      if pos < |lines| {
        line := Some(lines[pos]);
        pos := pos + 1;
      } else {
        line := None;
      }
    }
  }

  /** The connection's output stream: every byte written to it, in order. */
  class ByteSink {
    var written: seq<byte>

    constructor ()
      ensures written == []
    {
      written := [];
    }

    method Write(bytes: seq<byte>)
      modifies this
      ensures written == old(written) + bytes
    {
      written := written + bytes;
    }
  }

  /** Two writes in a row put the same bytes on the connection as one write of
      both. */
  lemma WritesConcatenate(before: seq<byte>, first: seq<byte>, second: seq<byte>)
    ensures before + first + second == before + (first + second)
  {
  }
}

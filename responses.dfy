/** The two responses the handler can write, as bytes, and what a client reading
    them finds: the status line and header fields framed as in sections 2.1 and 4
    of RFC 9112, and a body whose length is the Content-Length value of section
    8.6 of RFC 9110 (200) or is delimited by the connection closing (404). */
module Responses {
  import opened Wrappers
  import opened Text

  /** A header block: every line followed by CRLF, then the empty line. */
  function Frame(lines: seq<string>): string
  {
    if lines == [] then "\r\n" else lines[0] + "\r\n" + Frame(lines[1..])
  }

  /** The status line and header fields sent before a found file. */
  function OkHeadLines(contentType: string, length: nat): seq<string>
  {
    ["HTTP/1.1 200 OK", "Content-Type: " + contentType, "Content-Length: " + Decimal(length), "Connection: close"]
  }

  /** The header text the handler builds for a found file, concatenated as the
      handler concatenates it. */
  function OkHeader(contentType: string, length: nat): string
  {
    "HTTP/1.1 200 OK\r\n" +
    "Content-Type: " + contentType + "\r\n" +
    "Content-Length: " + Decimal(length) + "\r\n" +
    "Connection: close\r\n" +
    "\r\n"
  }

  /** The not-found response text: always these bytes, whatever was asked for. */
  const NotFoundText: string :=
    "HTTP/1.1 404 Not Found\r\n" +
    "Content-Type: text/plain\r\n" +
    "Connection: close\r\n" +
    "\r\n" +
    "404 - File Not Found"

  const NotFoundHeadLines: seq<string> := ["HTTP/1.1 404 Not Found", "Content-Type: text/plain", "Connection: close"]

  const NotFoundBody: string := "404 - File Not Found"

  /** A line that may appear in a header block: non-empty printable ASCII. */
  predicate IsHeadLine(line: string) {
    line != "" && IsFieldText(line)
  }

  predicate AllHeadLines(lines: seq<string>) {
    forall k :: 0 <= k < |lines| ==> IsHeadLine(lines[k])
  }

  /** The header block contains no character outside ASCII. */
  lemma {:induction false} FrameIsAscii(lines: seq<string>)
    requires AllHeadLines(lines)
    ensures IsAscii(Frame(lines))
    decreases |lines|
  {
    if lines != [] {
      FrameIsAscii(lines[1..]);
      FieldTextIsAscii(lines[0]);
      AsciiAppend(lines[0], "\r\n");
      AsciiAppend(lines[0] + "\r\n", Frame(lines[1..]));
    }
  }

  /** The handler's header is the framed block of its four lines. */
  lemma OkHeaderIsFrame(contentType: string, length: nat)
    ensures OkHeader(contentType, length) == Frame(OkHeadLines(contentType, length))
  {
    var lines := OkHeadLines(contentType, length);
    var ct, digits := contentType, Decimal(length);
    assert lines[1..][1..][1..][1..] == [];
    calc {
      Frame(lines);
      "HTTP/1.1 200 OK" + "\r\n" + Frame(lines[1..]);
      "HTTP/1.1 200 OK" + "\r\n" + ("Content-Type: " + ct + "\r\n" + Frame(lines[1..][1..]));
      "HTTP/1.1 200 OK" + "\r\n" + ("Content-Type: " + ct + "\r\n" + ("Content-Length: " + digits + "\r\n" + Frame(lines[1..][1..][1..])));
      "HTTP/1.1 200 OK" + "\r\n" + ("Content-Type: " + ct + "\r\n" + ("Content-Length: " + digits + "\r\n" + ("Connection: close" + "\r\n" + "\r\n")));
      { assert "HTTP/1.1 200 OK" + "\r\n" == "HTTP/1.1 200 OK\r\n";
        assert "Connection: close" + "\r\n" + "\r\n" == "Connection: close\r\n" + "\r\n"; }
      "HTTP/1.1 200 OK\r\n" + ("Content-Type: " + ct + "\r\n" + ("Content-Length: " + digits + "\r\n" + ("Connection: close\r\n" + "\r\n")));
      OkHeader(contentType, length);
    }
  }

  /** The four lines of the 200 header are valid header lines. */
  lemma OkHeadLinesValid(contentType: string, length: nat)
    requires IsFieldText(contentType)
    ensures AllHeadLines(OkHeadLines(contentType, length))
  {
    var digits := Decimal(length);
    DigitCharsAreFieldText(digits);
    FieldTextAppend("Content-Type: ", contentType);
    FieldTextAppend("Content-Length: ", digits);
  }

  /** The bytes written for a found file: the ASCII header, then the file's bytes. */
  function OkResponse(contentType: string, body: seq<byte>): seq<byte>
    requires IsFieldText(contentType)
  {
    OkHeadLinesValid(contentType, |body|);
    OkHeaderIsFrame(contentType, |body|);
    FrameIsAscii(OkHeadLines(contentType, |body|));
    Ascii(OkHeader(contentType, |body|)) + body
  }

  /** The 200 response is the encoded header text followed by the file's bytes. */
  lemma OkResponseIsHeaderThenBody(contentType: string, body: seq<byte>)
    requires IsFieldText(contentType)
    ensures IsAscii(OkHeader(contentType, |body|))
    ensures OkResponse(contentType, body) == Ascii(OkHeader(contentType, |body|)) + body
  {
    OkHeadLinesValid(contentType, |body|);
    OkHeaderIsFrame(contentType, |body|);
    FrameIsAscii(OkHeadLines(contentType, |body|));
  }

  /** The lines and the body of the not-found response are printable ASCII. */
  lemma NotFoundPartsPrintable()
    ensures AllHeadLines(NotFoundHeadLines) && IsFieldText(NotFoundBody)
  {
    NotFoundStatusPrintable();
    NotFoundFieldsPrintable();
  }

  lemma NotFoundStatusPrintable()
    ensures IsHeadLine("HTTP/1.1 404 Not Found") && IsFieldText(NotFoundBody)
  {
  }

  lemma NotFoundFieldsPrintable()
    ensures IsHeadLine("Content-Type: text/plain") && IsHeadLine("Connection: close")
  {
  }

  /** The not-found text is the framed block of its three lines, then the body text. */
  lemma NotFoundIsFrame()
    ensures NotFoundText == Frame(NotFoundHeadLines) + NotFoundBody
  {
    var lines := NotFoundHeadLines;
    assert lines[1..][1..][1..] == [];
    calc {
      Frame(lines) + NotFoundBody;
      "HTTP/1.1 404 Not Found" + "\r\n" + ("Content-Type: text/plain" + "\r\n" + ("Connection: close" + "\r\n" + "\r\n")) + NotFoundBody;
      { assert "HTTP/1.1 404 Not Found" + "\r\n" == "HTTP/1.1 404 Not Found\r\n";
        assert "Content-Type: text/plain" + "\r\n" == "Content-Type: text/plain\r\n";
        assert "Connection: close" + "\r\n" == "Connection: close\r\n"; }
      "HTTP/1.1 404 Not Found\r\n" + ("Content-Type: text/plain\r\n" + ("Connection: close\r\n" + "\r\n")) + NotFoundBody;
      NotFoundText;
    }
  }

  /** The bytes written when the file is absent or is a directory. */
  function NotFoundResponse(): seq<byte>
  {
    NotFoundPartsPrintable();
    NotFoundIsFrame();
    FrameIsAscii(NotFoundHeadLines);
    FieldTextIsAscii(NotFoundBody);
    AsciiAppend(Frame(NotFoundHeadLines), NotFoundBody);
    Ascii(NotFoundText)
  }

  /** The position of the first CR LF pair in b, if there is one. */
  function FindCrlf(b: seq<byte>): (k: Option<nat>)
    ensures k.Some? ==> k.value + 1 < |b| && b[k.value] == CR && b[k.value + 1] == LF
    ensures k.Some? ==> forall j :: 0 <= j < k.value ==> !(b[j] == CR && b[j + 1] == LF)
    ensures k.None? ==> forall j :: 0 <= j < |b| - 1 ==> !(b[j] == CR && b[j + 1] == LF)
    decreases |b|
  {
    if |b| < 2 then None
    else if b[0] == CR && b[1] == LF then Some(0)
    else
      match FindCrlf(b[1..])
      case None => None
      case Some(k) => Some(k + 1)
  }

  /** A response as a client divides it: the lines before the first empty line,
      and every byte after that empty line. */
  datatype Message = Message(head: seq<seq<byte>>, body: seq<byte>)

  /** Read CRLF-terminated lines up to the first empty one; None when the bytes
      end before an empty line. */
  function ParseMessage(b: seq<byte>): Option<Message>
    decreases |b|
  {
    match FindCrlf(b)
    case None => None
    case Some(k) =>
      if k == 0 then Some(Message([], b[2..]))
      else
        match ParseMessage(b[k + 2..])
        case None => None
        case Some(m) => Some(Message([b[..k]] + m.head, m.body))
  }

  /** Each line encoded on its own. */
  function AsciiLines(lines: seq<string>): (encoded: seq<seq<byte>>)
    requires AllHeadLines(lines)
    ensures |encoded| == |lines|
    ensures forall k :: 0 <= k < |lines| ==> IsAscii(lines[k]) && encoded[k] == Ascii(lines[k])
  {
    if lines == [] then [] else
      FieldTextIsAscii(lines[0]);
      [Ascii(lines[0])] + AsciiLines(lines[1..])
  }

  /** A line that holds no CR is followed by the first CR LF. */
  lemma {:induction false} FindCrlfAfterLine(line: seq<byte>, rest: seq<byte>)
    requires forall j :: 0 <= j < |line| ==> line[j] != CR
    ensures FindCrlf(line + [CR, LF] + rest) == Some(|line|)
    decreases |line|
  {
    var b := line + [CR, LF] + rest;
    if line != [] {
      FindCrlfAfterLine(line[1..], rest);
      assert b[1..] == line[1..] + [CR, LF] + rest;
    }
  }

  /** Encoding a non-empty block: the first line's bytes, CR LF, then the rest. */
  lemma AsciiFrameStep(lines: seq<string>)
    requires lines != [] && AllHeadLines(lines)
    ensures IsAscii(lines[0]) && IsAscii(Frame(lines)) && IsAscii(Frame(lines[1..]))
    ensures Ascii(Frame(lines)) == Ascii(lines[0]) + [CR, LF] + Ascii(Frame(lines[1..]))
  {
    FieldTextIsAscii(lines[0]);
    FrameIsAscii(lines);
    FrameIsAscii(lines[1..]);
    AsciiAppend(lines[0], "\r\n");
    AsciiAppend(lines[0] + "\r\n", Frame(lines[1..]));
    assert Ascii("\r\n") == [CR, LF];
  }

  /** Reading a framed header block followed by any bytes gives back the lines,
      in order, and exactly those bytes as the body. */
  lemma {:induction false} FramedMessageParses(lines: seq<string>, body: seq<byte>)
    requires AllHeadLines(lines)
    ensures IsAscii(Frame(lines))
    ensures ParseMessage(Ascii(Frame(lines)) + body) == Some(Message(AsciiLines(lines), body))
    decreases |lines|
  {
    FrameIsAscii(lines);
    var b := Ascii(Frame(lines)) + body;
    if lines == [] {
      assert b[..2] == [CR, LF];
      assert b[2..] == body;
    } else {
      AsciiFrameStep(lines);
      var encoded, after := Ascii(lines[0]), Ascii(Frame(lines[1..])) + body;
      FramedMessageParses(lines[1..], body);
      assert b == encoded + [CR, LF] + after;
      FindCrlfAfterLine(encoded, after);
      assert b[|encoded| + 2..] == after;
      assert b[..|encoded|] == encoded;
    }
  }

  predicate StartsWith(b: seq<byte>, prefix: seq<byte>) {
    |prefix| <= |b| && b[..|prefix|] == prefix
  }

  const ContentLengthName: string := "Content-Length: "

  /** The Content-Length a client reads from the header lines: the value of the
      first line that starts with the field name, when it is a non-empty run of
      digits; None when no line names the field or its value is not a number. */
  function DeclaredLength(head: seq<seq<byte>>): Option<nat>
  {
    if head == [] then None
    else if StartsWith(head[0], Ascii(ContentLengthName)) then
      var value := head[0][|ContentLengthName|..];
      if value != [] && IsDigitBytes(value) then Some(DigitsValue(value)) else None
    else DeclaredLength(head[1..])
  }

  /** The Content-Length a client reads from the 200 header lines is the length
      the handler put there. */
  lemma OkHeadDeclaresLength(contentType: string, length: nat)
    requires IsFieldText(contentType)
    ensures AllHeadLines(OkHeadLines(contentType, length))
    ensures DeclaredLength(AsciiLines(OkHeadLines(contentType, length))) == Some(length)
  {
    var lines := OkHeadLines(contentType, length);
    OkHeadLinesValid(contentType, length);
    var head := AsciiLines(lines);
    var name := Ascii(ContentLengthName);
    assert !StartsWith(head[0], name) by {
      assert head[0][0] != name[0];
    }
    assert !StartsWith(head[1], name) by {
      assert head[1][8] != name[8];
    }
    var digits := Decimal(length);
    DecimalRoundTrip(length);
    assert StartsWith(head[2], name) && head[2][|name|..] == Ascii(digits) by {
      DigitCharsAreFieldText(digits);
      AsciiAppend(ContentLengthName, digits);
    }
    assert DeclaredLength(head[2..]) == Some(length);
    assert DeclaredLength(head[1..]) == DeclaredLength(head[2..]) by {
      assert head[1..][1..] == head[2..];
    }
  }

  /** What a client reads from a 200 response: the status line and the three
      fields in the order Content-Type, Content-Length, Connection; a body that is
      byte for byte the file; and a Content-Length equal to the body's length. */
  lemma OkResponseReads(contentType: string, body: seq<byte>)
    requires IsFieldText(contentType)
    ensures AllHeadLines(OkHeadLines(contentType, |body|))
    ensures ParseMessage(OkResponse(contentType, body)) == Some(Message(AsciiLines(OkHeadLines(contentType, |body|)), body))
    ensures DeclaredLength(AsciiLines(OkHeadLines(contentType, |body|))) == Some(|body|)
  {
    OkHeadLinesValid(contentType, |body|);
    OkHeaderIsFrame(contentType, |body|);
    FramedMessageParses(OkHeadLines(contentType, |body|), body);
    OkHeadDeclaresLength(contentType, |body|);
  }

  /** No line of the 404 header names Content-Length. */
  lemma NotFoundDeclaresNoLength()
    ensures AllHeadLines(NotFoundHeadLines)
    ensures DeclaredLength(AsciiLines(NotFoundHeadLines)) == None
  {
    NotFoundPartsPrintable();
    var head := AsciiLines(NotFoundHeadLines);
    var name := Ascii(ContentLengthName);
    assert !StartsWith(head[0], name) by {
      assert head[0][0] != name[0];
    }
    assert !StartsWith(head[1], name) by {
      assert head[1][8] != name[8];
    }
    assert !StartsWith(head[2], name) by {
      assert head[2][3] != name[3];
    }
    assert head[1..][1..][1..] == [];
    assert DeclaredLength(head[1..][1..]) == None;
  }

  /** What a client reads from the 404 response: the status line, Content-Type
      and Connection fields, no Content-Length, and the fixed body text. */
  lemma NotFoundReads()
    ensures AllHeadLines(NotFoundHeadLines) && IsAscii(NotFoundBody)
    ensures ParseMessage(NotFoundResponse()) == Some(Message(AsciiLines(NotFoundHeadLines), Ascii(NotFoundBody)))
    ensures DeclaredLength(AsciiLines(NotFoundHeadLines)) == None
  {
    NotFoundPartsPrintable();
    NotFoundIsFrame();
    FrameIsAscii(NotFoundHeadLines);
    FieldTextIsAscii(NotFoundBody);
    AsciiAppend(Frame(NotFoundHeadLines), NotFoundBody);
    FramedMessageParses(NotFoundHeadLines, Ascii(NotFoundBody));
    NotFoundDeclaresNoLength();
  }

  /** The two responses differ, already in their status code. */
  lemma OkIsNotNotFound(contentType: string, body: seq<byte>)
    requires IsFieldText(contentType)
    ensures OkResponse(contentType, body) != NotFoundResponse()
  {
    OkHeadLinesValid(contentType, |body|);
    OkHeaderIsFrame(contentType, |body|);
    FrameIsAscii(OkHeadLines(contentType, |body|));
    var header := OkHeader(contentType, |body|);
    assert header[9] == '2';
    assert NotFoundText[9] == '4';
    assert OkResponse(contentType, body)[9] == Ascii(header)[9];
  }
}

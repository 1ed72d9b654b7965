/** The request handler of the static file server: what it writes back for the
    lines a client sends, given the regular files under the web root. */
module SimpleWebServer {
  import opened Wrappers
  import opened Text
  import opened RequestLine
  import opened ContentTypes
  import opened Responses
  import opened Streams

  /** Whether Paths.get refuses the path with an InvalidPathException. On a Unix
      file system whose file-name encoding is UTF-8, that happens exactly when
      the path holds a NUL character. */
  predicate PathRejected(path: string) {
    '\0' in path
  }

  /** A path that can name a file that exists and is not a directory: not the
      empty path, which is the web root itself, and not one Paths.get refuses. */
  predicate IsFileName(path: string) {
    path != "" && !PathRejected(path)
  }

  /** The files under the web root that exist and are not directories, by their
      path relative to it. A path that is not a key names nothing, or names a
      directory. */
  type FileSystem = root: map<string, seq<byte>> | forall path :: path in root ==> IsFileName(path)
    witness map[]

  /** The file path for a request target: "/" stands for "/index.html", then one
      leading "/" is removed. Nothing else is done to the path; in particular ".."
      segments are kept. */
  function ResolvePath(target: string): (path: string)
    ensures target == "/" ==> path == "index.html"
    ensures target != "/" ==> target == path || target == "/" + path
    ensures target != "/" && target != "" && target[0] == '/' ==> target == "/" + path
  {
    var withIndex := if target == "/" then "/index.html" else target;
    if |withIndex| > 0 && withIndex[0] == '/' then withIndex[1..] else withIndex
  }

  /** What the handler does with one connection. Stopped: Paths.get threw an
      InvalidPathException, which is unchecked, so neither the IOException
      handler of handleClient nor the one of main catches it; nothing is written
      and main closes the server socket and ends. */
  datatype Outcome = NoResponse | Responded(bytes: seq<byte>) | Stopped

  /** The response for a resolved path: the file with its type when it exists
      and is not a directory, the fixed 404 response otherwise. */
  function ResponseFor(path: string, root: FileSystem): seq<byte>
  {
    if path in root then
      ContentTypeIsFieldText(path);
      OkResponse(ContentType(path), root[path])
    else
      NotFoundResponse()
  }

  /** The handler's decision for the first line the client sent (None when the
      stream ended before any line): no response when there is no request target,
      a stopped server when Paths.get refuses the resolved target, otherwise the
      response for the resolved target. */
  function Respond(requestLine: Option<string>, root: FileSystem): (outcome: Outcome)
    ensures outcome.NoResponse? <==> !(requestLine.Some? && HasTarget(requestLine.value))
    ensures outcome.Stopped? <==>
      requestLine.Some? && HasTarget(requestLine.value) && PathRejected(ResolvePath(Fields(requestLine.value)[1]))
    ensures outcome.Responded? ==>
      outcome.bytes == ResponseFor(ResolvePath(Fields(requestLine.value)[1]), root)
  {
    match RequestTarget(requestLine)
    case None => NoResponse
    case Some(target) =>
      var path := ResolvePath(target);
      if PathRejected(path) then Stopped else Responded(ResponseFor(path, root))
  }

  /** handleClient as its authors evidently meant it: a path Paths.get refuses
      names no file, so it gets the 404 response like any other missing file and
      the server goes on. */
  function RespondCaught(requestLine: Option<string>, root: FileSystem): (outcome: Outcome)
    ensures !outcome.Stopped?
    ensures outcome.NoResponse? <==> !(requestLine.Some? && HasTarget(requestLine.value))
    ensures outcome.Responded? ==>
      outcome.bytes == ResponseFor(ResolvePath(Fields(requestLine.value)[1]), root)
  {
    match RequestTarget(requestLine)
    case None => NoResponse
    case Some(target) => Responded(ResponseFor(ResolvePath(target), root))
  }

  /** The bytes an outcome puts on the connection. */
  function Emitted(outcome: Outcome): seq<byte>
  {
    match outcome
    case NoResponse => []
    case Responded(bytes) => bytes
    case Stopped => []
  }

  /** The first line read from a connection, None when there is none. */
  function FirstLine(request: seq<string>): Option<string>
  {
    if request == [] then None else Some(request[0])
  }

  /** Where draining the header lines that start at index start stops: just after
      the first empty line, or at the end of the stream when no line is empty. */
  function HeaderEnd(lines: seq<string>, start: nat): (end: nat)
    requires start <= |lines|
    ensures start <= end <= |lines|
    ensures forall k :: start <= k < end - 1 ==> lines[k] != ""
    ensures end == |lines| || (start < end && lines[end - 1] == "")
    ensures start < |lines| ==> start < end
    decreases |lines| - start
  {
    if start == |lines| then start
    else if lines[start] == "" then start + 1
    else HeaderEnd(lines, start + 1)
  }

  /** Read and discard lines until an empty line has been read or the stream has
      ended; nothing read is looked at. */
  method DrainHeaders(input: LineReader)
    requires input.Valid()
    modifies input
    ensures input.Valid()
    ensures input.pos == HeaderEnd(input.lines, old(input.pos))
  {
    ghost var start := input.pos;
    var line := input.ReadLine();
    while line.Some? && line.value != ""
      invariant input.Valid() && start <= input.pos
      invariant line.None? ==> input.pos == |input.lines|
      invariant line.Some? ==> start < input.pos && line.value == input.lines[input.pos - 1]
      invariant HeaderEnd(input.lines, start) ==
        if line.Some? && line.value != "" then HeaderEnd(input.lines, input.pos) else input.pos
      decreases |input.lines| - input.pos, if line.Some? then 1 else 0
    {
      line := input.ReadLine();
    }
  }

  /** handleClient: read the request line, give up without answering when it is
      missing, empty or has no second token, drain the header lines, resolve the
      path, stop when Paths.get refuses it, and write the file or the 404
      response. What is written depends on the first line and the files only. */
  method HandleClient(request: seq<string>, root: FileSystem, out: ByteSink) returns (stopped: bool)
    modifies out
    ensures stopped <==> Respond(FirstLine(request), root).Stopped?
    ensures out.written == old(out.written) + Emitted(Respond(FirstLine(request), root))
  {
    stopped := false;
    var input := new LineReader(request);
    var requestLine := input.ReadLine();
    assert requestLine == FirstLine(request);
    if requestLine.None? || requestLine.value == "" {
      return;
    }
    var tokens := SplitOnSpace(requestLine.value);
    if |tokens| < 2 {
      assert RequestTarget(requestLine).None?;
      return;
    }
    var filePath := tokens[1];
    DrainHeaders(input);
    if filePath == "/" {
      filePath := "/index.html";
    }
    if |filePath| > 0 && filePath[0] == '/' {
      filePath := filePath[1..];
    }
    assert filePath == ResolvePath(tokens[1]);
    // Paths.get throws for a NUL character; the exception leaves the handler
    // before anything is written.
    if '\0' in filePath {
      stopped := true;
      return;
    }
    ghost var response := ResponseFor(filePath, root);
    assert Emitted(Respond(FirstLine(request), root)) == response;
    if filePath in root {
      var fileBytes := root[filePath];
      var contentType := ContentType(filePath);
      ContentTypeIsFieldText(filePath);
      OkResponseIsHeaderThenBody(contentType, fileBytes);
      var header := OkHeader(contentType, |fileBytes|);
      assert response == Ascii(header) + fileBytes;
      WritesConcatenate(out.written, Ascii(header), fileBytes);
      out.Write(Ascii(header));
      out.Write(fileBytes);
    } else {
      out.Write(NotFoundResponse());
    }
  }

  /** A line "<verb> <target><rest>", where the target resolves to path, is
      answered with the response for path, unless Paths.get refuses path. */
  lemma RespondToTarget(line: string, verb: string, target: string, rest: string, path: string, root: FileSystem)
    requires SpaceFree(verb) && SpaceFree(target) && target != ""
    requires rest == "" || rest[0] == ' '
    requires line == verb + " " + target + rest
    requires ResolvePath(target) == path
    ensures Respond(Some(line), root) == if PathRejected(path) then Stopped else Responded(ResponseFor(path, root))
  {
    TargetOfRequestLine(verb, target, rest);
  }

  /** Every regular file is served to a request "<verb> /<file><rest>": the 200
      response with the file's type, and a client reading it gets a body that is
      byte for byte the file and a Content-Length equal to the file's size. The
      verb may be anything without a space (even empty), and so may the rest. */
  lemma ServesEveryFile(verb: string, file: string, rest: string, root: FileSystem)
    requires file in root
    requires SpaceFree(verb) && SpaceFree(file)
    requires rest == "" || rest[0] == ' '
    ensures IsFieldText(ContentType(file))
    ensures Respond(Some(verb + " /" + file + rest), root) == Responded(OkResponse(ContentType(file), root[file]))
    ensures ParseMessage(OkResponse(ContentType(file), root[file])).Some?
    ensures ParseMessage(OkResponse(ContentType(file), root[file])).value.body == root[file]
    ensures DeclaredLength(ParseMessage(OkResponse(ContentType(file), root[file])).value.head) == Some(|root[file]|)
  {
    var target := "/" + file;
    assert verb + " /" + file + rest == verb + " " + target + rest;
    assert SpaceFree(target) by {
      assert forall i :: 0 <= i < |file| ==> target[i + 1] == file[i];
    }
    RespondToTarget(verb + " /" + file + rest, verb, target, rest, file, root);
    ContentTypeIsFieldText(file);
    OkResponseReads(ContentType(file), root[file]);
  }

  /** The target "/index.html" is one field and names index.html. */
  lemma IndexTargetResolves()
    ensures SpaceFree("/index.html") && !PathRejected("index.html")
    ensures ResolvePath("/index.html") == "index.html"
  {
    assert "/index.html"[1..] == "index.html";
  }

  /** Asking for "/" is asking for "/index.html": both requests get the response
      for the path index.html. */
  lemma RootSameAsIndex(verb: string, rest: string, root: FileSystem)
    requires SpaceFree(verb)
    requires rest == "" || rest[0] == ' '
    ensures Respond(Some(verb + " " + "/" + rest), root) == Responded(ResponseFor("index.html", root))
    ensures Respond(Some(verb + " " + "/index.html" + rest), root) == Responded(ResponseFor("index.html", root))
  {
    IndexTargetResolves();
    RespondToTarget(verb + " " + "/" + rest, verb, "/", rest, "index.html", root);
    RespondToTarget(verb + " " + "/index.html" + rest, verb, "/index.html", rest, "index.html", root);
  }

  /** The fixed 404 response is written exactly when there is a request target,
      Paths.get accepts its resolved path, and that path is not a file. */
  lemma NotFoundExactly(requestLine: Option<string>, root: FileSystem)
    ensures Respond(requestLine, root) == Responded(NotFoundResponse())
        <==> RequestTarget(requestLine).Some? && !PathRejected(ResolvePath(RequestTarget(requestLine).value))
             && ResolvePath(RequestTarget(requestLine).value) !in root
  {
    match RequestTarget(requestLine)
    case None =>
    case Some(target) =>
      var path := ResolvePath(target);
      if path in root {
        ContentTypeIsFieldText(path);
        OkIsNotNotFound(ContentType(path), root[path]);
      }
  }

  /** The header lines sent before an 11-byte HTML page. */
  lemma ElevenByteHtmlHeadLines()
    ensures OkHeadLines("text/html", 11)
         == ["HTTP/1.1 200 OK", "Content-Type: text/html", "Content-Length: 11", "Connection: close"]
  {
    assert Decimal(11) == "11";
    assert "Content-Type: " + "text/html" == "Content-Type: text/html";
    assert "Content-Length: " + "11" == "Content-Length: 11";
  }

  /** The request line of the scenarios below, cut at its spaces. */
  lemma GetRootLine()
    ensures "GET / HTTP/1.1" == "GET" + " " + "/" + " HTTP/1.1"
    ensures SpaceFree("GET")
  {
  }

  lemma IndexIsHtml()
    ensures ContentType("index.html") == "text/html"
  {
    TextSuffixTypes("index");
    assert "index" + ".html" == "index.html";
  }

  /** The 11 bytes of the page "<h1>hi</h1>". */
  const HelloPage: seq<byte> := [60, 104, 49, 62, 104, 105, 60, 47, 104, 49, 62]

  /** A web root holding index.html with the bytes of "<h1>hi</h1>" answers
      "GET / HTTP/1.1" with the framed 200 header lines for an 11-byte HTML page,
      then the page. */
  lemma IndexPageScenario(root: FileSystem)
    requires root == map["index.html" := HelloPage]
    ensures IsAscii(Frame(["HTTP/1.1 200 OK", "Content-Type: text/html", "Content-Length: 11", "Connection: close"]))
    ensures Respond(Some("GET / HTTP/1.1"), root)
         == Responded(Ascii(Frame(["HTTP/1.1 200 OK", "Content-Type: text/html", "Content-Length: 11", "Connection: close"]))
                      + HelloPage)
  {
    var page := HelloPage;
    GetRootLine();
    RootSameAsIndex("GET", " HTTP/1.1", root);
    IndexIsHtml();
    TextTypeNamesPrintable();
    OkResponseIsHeaderThenBody("text/html", page);
    OkHeaderIsFrame("text/html", 11);
    ElevenByteHtmlHeadLines();
  }

  /** The request line for a missing image, cut at its spaces. */
  lemma MissingImageLine()
    ensures "GET /missing.png HTTP/1.1" == "GET" + " " + "/missing.png" + " HTTP/1.1"
    ensures SpaceFree("GET") && SpaceFree("/missing.png")
    ensures ResolvePath("/missing.png") == "missing.png" && !PathRejected("missing.png")
  {
    assert "/missing.png"[1..] == "missing.png";
  }

  /** A request for a file the web root does not hold gets the 404 response. */
  lemma MissingFileScenario(root: FileSystem)
    requires "missing.png" !in root
    ensures Respond(Some("GET /missing.png HTTP/1.1"), root) == Responded(NotFoundResponse())
  {
    MissingImageLine();
    RespondToTarget("GET /missing.png HTTP/1.1", "GET", "/missing.png", " HTTP/1.1", "missing.png", root);
  }

  /** The request line with a NUL character in its target, cut at its spaces. */
  lemma NulTargetLine()
    ensures "GET /a\0b HTTP/1.1" == "GET" + " " + "/a\0b" + " HTTP/1.1"
    ensures SpaceFree("GET") && SpaceFree("/a\0b")
    ensures ResolvePath("/a\0b") == "a\0b" && PathRejected("a\0b")
  {
    assert "/a\0b"[1..] == "a\0b";
    assert "a\0b"[1] == '\0';
  }

  /** As written, one request whose target holds a NUL character gets no answer
      and stops the server, whatever the web root holds. */
  lemma NulTargetStopsServer(root: FileSystem)
    ensures Respond(Some("GET /a\0b HTTP/1.1"), root) == Stopped
    ensures Emitted(Respond(Some("GET /a\0b HTTP/1.1"), root)) == []
  {
    NulTargetLine();
    RespondToTarget("GET /a\0b HTTP/1.1", "GET", "/a\0b", " HTTP/1.1", "a\0b", root);
  }

  /** The intended handler never stops the server: where the handler as written
      stops, it sends the 404 response, and everywhere else it does the same. */
  lemma RespondCaughtAgrees(requestLine: Option<string>, root: FileSystem)
    ensures Respond(requestLine, root).Stopped? ==> RespondCaught(requestLine, root) == Responded(NotFoundResponse())
    ensures !Respond(requestLine, root).Stopped? ==> RespondCaught(requestLine, root) == Respond(requestLine, root)
  {
    match RequestTarget(requestLine)
    case None =>
    case Some(target) =>
      var path := ResolvePath(target);
      if PathRejected(path) {
        assert path !in root;
      }
  }
}

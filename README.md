# SimpleWebServer request handling, modelled in Dafny

`SimpleWebServer` is a single-threaded static-file HTTP server. For each
connection, `handleClient` works as follows:

- It reads the request line. If the line is missing or empty, or if
  `String.split(" ")` gives it fewer than two tokens, the handler gives up
  without writing anything.
- Otherwise it reads and discards the header lines up to the first empty line.
- It maps the target `/` to `/index.html` and strips one leading `/`.
- `Paths.get` refuses a path holding a NUL character (on Unix, with a UTF-8
  file-name encoding). The exception it throws
  is unchecked and is caught nowhere, so nothing is written and the server
  stops.
- If the result names a file under the web root that exists and is not a
  directory, it writes a `200 OK` header and the file. The header fields are `Content-Type`
  (from `getContentType`), `Content-Length` and `Connection: close`.
  Otherwise it writes a fixed `404 Not Found` response.

The model has these parts:

- **Request line** (`RequestLine`): Java's `split(" ")` is modelled as the
  space-separated fields with trailing empty ones dropped, plus the single
  token a space-free line gives. The request target is the second token.
  Lemmas show that fields and joining undo each other, and that the verb and
  anything after the target have no influence on the target.
- **Content types** (`ContentTypes`): `getContentType` as its case-sensitive
  chain of `endsWith` tests. Lemmas cover every listed suffix whatever comes
  before it, the exact set of names that fall back to
  `application/octet-stream`, and upper-case spellings.
- **Responses** (`Responses`): the 200 and 404 byte sequences. They are
  related to a client-side reader of the header block and the body. The
  reader follows the message framing of sections 2.1 and 4 of RFC 9112 and
  the Content-Length field of section 8.6 of RFC 9110. Proved:
  - a client reading a 200 response finds the header lines, a body equal to
    the file, and a Content-Length equal to the file's size;
  - the 404 response declares no length and its body is the fixed text.
- **Streams** (`Streams`): the reader as a class holding the client's lines
  and a read position. The output stream is a class that accumulates every
  byte written.
- **Handler** (`SimpleWebServer`):
  - `Respond` is the decision as a function of the first line and the files.
  - `DrainHeaders` is the header-drain loop, proved to stop where
    `HeaderEnd` says.
  - `HandleClient` is the imperative handler. It is proved to write exactly
    the bytes `Respond` decides, whatever the later lines are, and to report
    a stopped server exactly when `Respond` does.

The web root is a map from path (relative to the root) to file bytes. Its keys
are the files that exist and are not directories, so a path that is not a key
names nothing or names a directory. No key is empty, because the empty path
is the web root itself, a directory. No key holds a NUL character, because no
file name can.

## Model

| member | source | states |
|---|---|---|
| Text.Decimal | SimpleWebServer.java:95 | the rendering of a length is a non-empty run of decimal digits with no leading zero unless it is the single digit for 0; it has one digit exactly when the length is below 10 |
| Text.Ascii | SimpleWebServer.java:99 | String.getBytes() on ASCII text, one byte per character with the character's code; AsciiAppend shows that it distributes over concatenation |
| Text.DecimalRoundTrip | SimpleWebServer.java:95 | the Content-Length digits are ASCII, and reading them back as a decimal numeral gives the file length |
| RequestLine.Fields | SimpleWebServer.java:60 | a line has at least one field, and no field contains a space |
| RequestLine.JoinFields | SimpleWebServer.java:60 | joining the fields of a line with single spaces gives the line back |
| RequestLine.FieldsOfJoin | SimpleWebServer.java:60 | the fields of space-free pieces joined with single spaces are those pieces |
| RequestLine.DropTrailingEmpty | SimpleWebServer.java:60 | the result is a prefix of the input, everything removed is empty, and the result is empty or ends in a non-empty token |
| RequestLine.SplitOnSpace | SimpleWebServer.java:60 | the tokens are a prefix of the line's fields, only empty fields are removed, and a non-empty line gives no trailing empty token |
| RequestLine.SplitLeadingSpace | SimpleWebServer.java:60 | " /x" splits into an empty token then "/x" |
| RequestLine.SplitDoubledSpace | SimpleWebServer.java:60 | "GET  /x" splits into "GET", an empty token and "/x" |
| RequestLine.SplitTrailingSpace | SimpleWebServer.java:60 | "GET " splits into "GET" alone, and " " into no token |
| RequestLine.RequestTarget | SimpleWebServer.java:51-65 | a missing or empty line gives no target; otherwise a target exists exactly when some field after the first is non-empty, and it is the second field |
| RequestLine.TargetOfRequestLine | SimpleWebServer.java:60-65 | for a line "verb target rest" the target is exactly the second token, whatever the verb (even empty) and whatever follows after a space |
| ContentTypes.ContentType | SimpleWebServer.java:135-152 | getContentType's case-sensitive chain of suffix tests, in the source's order; pinned down by TextSuffixTypes, ImageSuffixTypes, ContentTypeOfListedSuffix and OctetStreamIffUnlisted |
| ContentTypes.EndsWith | SimpleWebServer.java:136-148 | String.endsWith; EndsWithIffSlice states that it holds exactly when the last characters are the suffix |
| ContentTypes.EndsWithIffSlice | SimpleWebServer.java:136-148 | the suffix test holds exactly when the last characters of the name are the suffix |
| ContentTypes.ContentTypeIsFieldText | SimpleWebServer.java:135-152 | for every name the type is printable ASCII, so it is a valid header value |
| ContentTypes.TextSuffixTypes | SimpleWebServer.java:136-149 | after any stem, .html and .htm give text/html, .css text/css, .js application/javascript and .txt text/plain |
| ContentTypes.ImageSuffixTypes | SimpleWebServer.java:142-147 | after any stem, .jpg and .jpeg give image/jpeg, .png image/png and .gif image/gif |
| ContentTypes.ContentTypeOfListedSuffix | SimpleWebServer.java:135-152 | every entry of the suffix table gives its type after any stem: no earlier test in the chain shadows it |
| ContentTypes.OctetStreamIffUnlisted | SimpleWebServer.java:150-151 | a name gets application/octet-stream exactly when it ends in none of the nine listed suffixes |
| ContentTypes.UpperCaseSuffixUnknown | SimpleWebServer.java:135-152 | the test is case-sensitive: .HTML and .JPG get application/octet-stream |
| Responses.OkHeader | SimpleWebServer.java:93-97 | the header text concatenated as the handler concatenates it; OkHeaderIsFrame and OkResponseReads pin down its lines and its declared length |
| Responses.OkResponse | SimpleWebServer.java:93-100 | the bytes of the two writes of a found file, the encoded header and then the file; OkResponseReads states what a client reads from them |
| Responses.NotFoundResponse | SimpleWebServer.java:108-114 | the encoded 404 text (NotFoundText, the literal of the source); NotFoundIsFrame and NotFoundReads state its lines, its body and that it declares no length |
| Responses.OkHeaderIsFrame | SimpleWebServer.java:93-97 | the header text is the status line, Content-Type, Content-Length and Connection lines in that order, each ended by CRLF, then an empty line |
| Responses.OkHeadLinesValid | SimpleWebServer.java:93-97 | every line of the 200 header is non-empty printable ASCII |
| Responses.FramedMessageParses | SimpleWebServer.java:93-97 | a block of CRLF-ended printable lines and an empty line, followed by any body, reads back as those lines and that body |
| Responses.OkHeadDeclaresLength | SimpleWebServer.java:95 | the Content-Length field of the 200 header declares exactly the length written into it |
| Responses.OkResponseReads | SimpleWebServer.java:93-100 | a client reads the four header lines, a body byte for byte equal to the file, and a declared length equal to the file's size |
| Responses.NotFoundIsFrame | SimpleWebServer.java:108-112 | the 404 text is its three CRLF-ended lines, an empty line and the body text |
| Responses.NotFoundDeclaresNoLength | SimpleWebServer.java:108-112 | the 404 header carries no Content-Length field |
| Responses.NotFoundReads | SimpleWebServer.java:108-114 | a client reads the three 404 header lines, the body "404 - File Not Found" and no declared length |
| Responses.OkIsNotNotFound | SimpleWebServer.java:93-112 | no 200 response equals the 404 response: their status codes differ |
| Streams.LineReader.ReadLine | SimpleWebServer.java:51 | the next unread line is returned and the position advances by one; at the end of the stream it returns None and the position stays put |
| Streams.ByteSink.Write | SimpleWebServer.java:99-100 | the written bytes are appended after everything written before |
| SimpleWebServer.ResolvePath | SimpleWebServer.java:74-81 | "/" resolves to index.html; any other target loses exactly its leading "/" if it has one and is otherwise unchanged |
| SimpleWebServer.IndexTargetResolves | SimpleWebServer.java:79-81 | "/index.html" is one field and resolves to index.html |
| SimpleWebServer.PathRejected | SimpleWebServer.java:84 | on Unix under a UTF-8 file-name encoding, Paths.get refuses a path exactly when it holds a NUL character; Respond's Stopped ensures and NulTargetStopsServer use it |
| SimpleWebServer.ResponseFor | SimpleWebServer.java:84-114 | the file with its type when the resolved path is a key, the 404 bytes otherwise; ServesEveryFile and NotFoundExactly state both cases through Respond |
| SimpleWebServer.Respond | SimpleWebServer.java:51-115 | there is no response exactly when the first line has no target; the server stops exactly when Paths.get refuses the resolved second field; otherwise the response is the one for the resolved second field |
| SimpleWebServer.HeaderEnd | SimpleWebServer.java:68-71 | draining stops just after the first empty line at or after the start, or at the end of the stream when there is none; every line skipped before it is non-empty |
| SimpleWebServer.DrainHeaders | SimpleWebServer.java:68-71 | the loop leaves the reader positioned exactly where HeaderEnd says |
| SimpleWebServer.HandleClient | SimpleWebServer.java:45-122 | the handler writes exactly the bytes Respond decides for the first line, and nothing when there is no target or the server stops; it reports a stop exactly when Respond does; the header lines never matter |
| SimpleWebServer.RespondToTarget | SimpleWebServer.java:60-84 | a line "verb target rest" stops the server when Paths.get refuses the path the target resolves to, and is otherwise answered with the response for that path |
| SimpleWebServer.ServesEveryFile | SimpleWebServer.java:87-100 | every regular file requested by "/name" gets the 200 response with its type; a client reads the file as the body and its size as the declared length |
| SimpleWebServer.RootSameAsIndex | SimpleWebServer.java:74-81 | "/" and "/index.html" get the same response, the one for index.html |
| SimpleWebServer.NotFoundExactly | SimpleWebServer.java:84-114 | the 404 response is written exactly when there is a target, Paths.get accepts its resolved path, and that path is not a file |
| SimpleWebServer.ElevenByteHtmlHeadLines | SimpleWebServer.java:93-97 | for an 11-byte HTML file the header lines are the status line, "Content-Type: text/html", "Content-Length: 11" and "Connection: close" |
| SimpleWebServer.IndexIsHtml | SimpleWebServer.java:136-137 | index.html gets text/html |
| SimpleWebServer.IndexPageScenario | SimpleWebServer.java:74-100 | "GET / HTTP/1.1" against a root holding an 11-byte index.html gets those four framed header lines, then the page |
| SimpleWebServer.MissingFileScenario | SimpleWebServer.java:106-114 | "GET /missing.png HTTP/1.1" against a root without missing.png gets the 404 response |
| SimpleWebServer.NulTargetStopsServer | SimpleWebServer.java:84 | "GET /a\0b HTTP/1.1" writes nothing and stops the server, whatever the web root holds |
| SimpleWebServer.RespondCaught | SimpleWebServer.java:84-114 | the intended handler: it never stops the server; no response exactly when there is no target; otherwise the response for the resolved target |
| SimpleWebServer.RespondCaughtAgrees | SimpleWebServer.java:84-114 | where the handler as written stops, the intended one sends the 404 response; everywhere else the two agree |

## Findings

| source | as written | input that shows it | evidently intended | confidence | as-written member | corrected member |
|---|---|---|---|---|---|---|
| SimpleWebServer.java:84 | `Paths.get` throws the unchecked `InvalidPathException` for a path it refuses; the handlers at lines 121 and 28 catch only `IOException`, so the client gets nothing and the server shuts down | the request line `GET /a\0b HTTP/1.1` (a NUL character in the target) | a path that cannot name a file is answered with the 404 response and the server keeps serving | not executed; the exception on a NUL character holds for the Unix file system | SimpleWebServer.NulTargetStopsServer | SimpleWebServer.RespondCaught |

`HandleClient` and the end-to-end lemmas model the handler as written: `Respond` with its `Stopped` outcome. `RespondCaughtAgrees` relates the corrected handler to it.

## Left out

- `main` is not modelled: binding the server socket, the endless accept loop, and closing the server socket (SimpleWebServer.java:10-39). It is network plumbing that only calls `handleClient`.
- Getting the socket streams, `flush`, and closing in the `finally` block (SimpleWebServer.java:47-48, 101, 115, 123-131) are left out. They are resource handling with no effect on the bytes written.
- The `IOException` abort paths (SimpleWebServer.java:121-122) are left out. The model has no I/O failures; a failed read or write would stop output partway through.
- Console logging through `System.out` and `System.err` is left out because it is only observational.
- The real filesystem is replaced by a map keyed by the resolved path string: `Paths.get` joining and normalisation, `File.exists`, `isDirectory` and `Files.readAllBytes` (SimpleWebServer.java:84-89). Two strings that name the same file on disk, such as `a//b` and `a/b`, are different keys here.
- The platform default charset of `String.getBytes()` is replaced by ASCII encoding. Every header character is printable ASCII, as the model proves, so this matters only on a platform whose default charset is not ASCII-compatible.
- The client stream is a finite list of lines up to the end of the stream. A client that keeps the connection open without sending an empty line, which would block the drain loop, is not modelled.
- `BufferedReader.readLine` splitting the byte stream into lines (at CR, LF or CRLF) is not modelled; the reader is given the lines.
- SimpleWebServer.HandleClient: file sizes are unbounded naturals, so the Java limit that an array length fits in an `int` is not modelled.
- No check for `..` path segments is added, because the server does none.
- SimpleWebServer.PathRejected: the model assumes a UTF-8 file-name encoding. Under a non-UTF-8 locale such as C/POSIX, `Paths.get` also refuses every character that encoding cannot map, for example `é` in `GET /é HTTP/1.1`. There `Respond` and `HandleClient` answer, where the source stops.
- Only the Unix rule of `Paths.get` is modelled, which refuses a NUL character. On Windows it also refuses characters such as `<>:"|?*`, so a target with a query string would stop the server there too.
- Other unchecked failures are not modelled, such as running out of memory while reading a very large file.

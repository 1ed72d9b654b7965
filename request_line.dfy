/** The first gate of the request handler: the request line is split on single
    spaces with the semantics of java.lang.String.split(" "), and its second token
    is the request target. This is a loose subset of the request-line grammar of
    section 3 of RFC 9112: the method and the protocol version are never examined. */
module RequestLine {
  import opened Wrappers

  predicate SpaceFree(s: string) {
    ' ' !in s
  }

  /** All pieces of s between single spaces, empty pieces included (the split
      before String.split discards trailing empty strings). */
  function Fields(s: string): (r: seq<string>)
    ensures |r| >= 1
    ensures forall k :: 0 <= k < |r| ==> SpaceFree(r[k])
    decreases |s|
  {
    if s == [] then [""]
    else if s[0] == ' ' then [""] + Fields(s[1..])
    else
      var rest := Fields(s[1..]);
      [[s[0]] + rest[0]] + rest[1..]
  }

  /** The pieces glued back together with one space between neighbours. */
  function Join(fs: seq<string>): string
    requires |fs| >= 1
  {
    if |fs| == 1 then fs[0] else fs[0] + " " + Join(fs[1..])
  }

  lemma {:induction false} JoinFields(s: string)
    ensures Join(Fields(s)) == s
    decreases |s|
  {
    if s == [] {
    } else if s[0] == ' ' {
      JoinFields(s[1..]);
      assert s == " " + s[1..];
    } else {
      JoinFields(s[1..]);
      var rest := Fields(s[1..]);
      if |rest| > 1 {
        assert rest == [rest[0]] + rest[1..];
        assert Join(rest) == rest[0] + " " + Join(rest[1..]);
        assert ([[s[0]] + rest[0]] + rest[1..])[1..] == rest[1..];
      }
      assert s == [s[0]] + s[1..];
    }
  }

  /** A string without spaces is a single field. */
  lemma {:induction false} FieldsOfSpaceFree(a: string)
    requires SpaceFree(a)
    ensures Fields(a) == [a]
    decreases |a|
  {
    if a != [] {
      FieldsOfSpaceFree(a[1..]);
      assert a == [a[0]] + a[1..];
    }
  }

  /** A space-free prefix followed by a space is exactly the first field. */
  lemma {:induction false} FieldsOfPrefix(a: string, b: string)
    requires SpaceFree(a)
    ensures Fields(a + " " + b) == [a] + Fields(b)
    decreases |a|
  {
    var s := a + " " + b;
    if a == [] {
      assert s[1..] == b;
    } else {
      assert s[1..] == a[1..] + " " + b;
      FieldsOfPrefix(a[1..], b);
      assert [a[0]] + a[1..] == a;
    }
  }

  /** Splitting undoes joining space-free pieces. */
  lemma {:induction false} FieldsOfJoin(fs: seq<string>)
    requires |fs| >= 1
    requires forall k :: 0 <= k < |fs| ==> SpaceFree(fs[k])
    ensures Fields(Join(fs)) == fs
    decreases |fs|
  {
    if |fs| == 1 {
      FieldsOfSpaceFree(fs[0]);
    } else {
      FieldsOfJoin(fs[1..]);
      FieldsOfPrefix(fs[0], Join(fs[1..]));
      assert fs == [fs[0]] + fs[1..];
    }
  }

  /** The trailing empty strings removed, as String.split does with a zero limit. */
  function DropTrailingEmpty(fs: seq<string>): (r: seq<string>)
    ensures |r| <= |fs| && r == fs[..|r|]
    ensures forall k :: |r| <= k < |fs| ==> fs[k] == ""
    ensures r == [] || r[|r| - 1] != ""
    decreases |fs|
  {
    if fs == [] || fs[|fs| - 1] != "" then fs else DropTrailingEmpty(fs[..|fs| - 1])
  }

  /** java.lang.String.split(" "): a string holding no space comes back whole
      (the empty string included); otherwise its fields with the trailing empty
      ones dropped, so a leading space gives a leading empty token, two spaces
      in a row give an empty token and " " gives no token at all. */
  function SplitOnSpace(s: string): (tokens: seq<string>)
    ensures |tokens| <= |Fields(s)| && tokens == Fields(s)[..|tokens|]
    ensures forall k :: |tokens| <= k < |Fields(s)| ==> Fields(s)[k] == ""
    ensures s != "" ==> tokens == [] || tokens[|tokens| - 1] != ""
  {
    if ' ' !in s then FieldsOfSpaceFree(s); [s] else DropTrailingEmpty(Fields(s))
  }

  /** A leading space gives a leading empty token. */
  lemma SplitLeadingSpace()
    ensures SplitOnSpace(" /x") == ["", "/x"]
  {
    assert " /x" == "" + " " + "/x";
    assert ' ' in " /x";
    FieldsOfPrefix("", "/x");
    FieldsOfSpaceFree("/x");
  }

  /** Two spaces in a row give an empty token between them. */
  lemma SplitDoubledSpace()
    ensures SplitOnSpace("GET  /x") == ["GET", "", "/x"]
  {
    assert Fields(" /x") == ["", "/x"] by {
      assert " /x" == "" + " " + "/x";
      FieldsOfPrefix("", "/x");
      FieldsOfSpaceFree("/x");
    }
    assert Fields("GET  /x") == ["GET", "", "/x"] by {
      assert "GET  /x" == "GET" + " " + " /x";
      FieldsOfPrefix("GET", " /x");
    }
    assert ' ' in "GET  /x";
  }

  /** Trailing empty tokens are dropped, down to no token at all for " ". */
  lemma SplitTrailingSpace()
    ensures SplitOnSpace("GET ") == ["GET"]
    ensures SplitOnSpace(" ") == []
  {
    assert "GET " == "GET" + " " + "";
    assert ' ' in "GET ";
    FieldsOfPrefix("GET", "");
    assert " " == "" + " " + "";
    FieldsOfPrefix("", "");
  }

  /** Some field after the first is non-empty: the request line carries a target. */
  predicate HasTarget(line: string) {
    exists k :: 1 <= k < |Fields(line)| && Fields(line)[k] != ""
  }

  /** The request target read from the first line the client sent (None for end
      of stream), or None when the handler stops without answering: the line is
      missing or empty, or split yields fewer than two tokens. */
  function RequestTarget(requestLine: Option<string>): (target: Option<string>)
    ensures requestLine.None? || requestLine.value == "" ==> target.None?
    ensures target.Some? <==> requestLine.Some? && HasTarget(requestLine.value)
    ensures target.Some? ==> target.value == Fields(requestLine.value)[1]
  {
    match requestLine
    case None => None
    case Some(line) =>
      if line == "" then None
      else
        var tokens := SplitOnSpace(line);
        if |tokens| < 2 then None else Some(tokens[1])
  }

  /** For a line "<verb> <target><rest>", where rest is empty or starts with a
      space, the target is exactly the second token: neither the verb (which
      may be empty) nor anything after the target affects it. */
  lemma TargetOfRequestLine(verb: string, target: string, rest: string)
    requires SpaceFree(verb) && SpaceFree(target) && target != ""
    requires rest == "" || rest[0] == ' '
    ensures RequestTarget(Some(verb + " " + target + rest)) == Some(target)
  {
    var line := verb + " " + target + rest;
    assert line == verb + " " + (target + rest);
    FieldsOfPrefix(verb, target + rest);
    if rest == "" {
      FieldsOfSpaceFree(target);
      assert target + rest == target;
    } else {
      assert target + rest == target + " " + rest[1..];
      FieldsOfPrefix(target, rest[1..]);
    }
    assert Fields(line)[1] == target;
  }
}

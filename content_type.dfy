/** The content type sent with a found file, guessed from the end of its name. */
module ContentTypes {
  import opened Text

  /** String.endsWith, compared from the last character backwards. */
  predicate EndsWith(s: string, suffix: string)
    decreases |suffix|
  {
    |suffix| <= |s| &&
    (suffix == [] || (s[|s| - 1] == suffix[|suffix| - 1] && EndsWith(s[..|s| - 1], suffix[..|suffix| - 1])))
  }

  /** The backwards comparison is the slice comparison: the last |suffix|
      characters of s are suffix. */
  lemma {:induction false} EndsWithIffSlice(s: string, suffix: string)
    ensures EndsWith(s, suffix) <==> |suffix| <= |s| && s[|s| - |suffix|..] == suffix
    decreases |suffix|
  {
    if |suffix| <= |s| && suffix != [] {
      var s', suffix' := s[..|s| - 1], suffix[..|suffix| - 1];
      EndsWithIffSlice(s', suffix');
      assert s[|s| - |suffix|..] == s'[|s'| - |suffix'|..] + [s[|s| - 1]];
      assert suffix == suffix' + [suffix[|suffix| - 1]];
    }
  }

  const OctetStream := "application/octet-stream"

  /** The recognised suffixes with their types, in the order they are tested. */
  const SuffixTable: seq<(string, string)> := [
    (".html", "text/html"),
    (".htm", "text/html"),
    (".css", "text/css"),
    (".js", "application/javascript"),
    (".jpg", "image/jpeg"),
    (".jpeg", "image/jpeg"),
    (".png", "image/png"),
    (".gif", "image/gif"),
    (".txt", "text/plain")
  ]

  /** The case-sensitive suffix test chain of getContentType. */
  function ContentType(fileName: string): string
  {
    if EndsWith(fileName, ".html") || EndsWith(fileName, ".htm") then "text/html"
    else if EndsWith(fileName, ".css") then "text/css"
    else if EndsWith(fileName, ".js") then "application/javascript"
    else if EndsWith(fileName, ".jpg") || EndsWith(fileName, ".jpeg") then "image/jpeg"
    else if EndsWith(fileName, ".png") then "image/png"
    else if EndsWith(fileName, ".gif") then "image/gif"
    else if EndsWith(fileName, ".txt") then "text/plain"
    else OctetStream
  }

  /** The text and script type names are printable ASCII. */
  lemma TextTypeNamesPrintable()
    ensures IsFieldText("text/html") && IsFieldText("text/css")
    ensures IsFieldText("application/javascript") && IsFieldText("text/plain")
  {
  }

  /** The image type names and the fallback are printable ASCII. */
  lemma OtherTypeNamesPrintable()
    ensures IsFieldText("image/jpeg") && IsFieldText("image/png")
    ensures IsFieldText("image/gif") && IsFieldText(OctetStream)
  {
  }

  /** Whatever the name, the type is one of eight fixed strings of printable
      ASCII, so it can be sent as a header value. */
  lemma ContentTypeIsFieldText(fileName: string)
    ensures IsFieldText(ContentType(fileName))
  {
    TextTypeNamesPrintable();
    OtherTypeNamesPrintable();
  }

  /** A name ends with what was appended to it. */
  lemma EndsWithAppended(stem: string, suffix: string)
    ensures EndsWith(stem + suffix, suffix)
  {
    var name := stem + suffix;
    assert name[|name| - |suffix|..] == suffix;
    EndsWithIffSlice(name, suffix);
  }

  /** A name built as stem + suffix does not end with a string that differs from
      suffix d places from the end. */
  lemma NotEndsWithOther(stem: string, suffix: string, other: string, d: nat)
    requires d < |suffix| && d < |other|
    requires suffix[|suffix| - 1 - d] != other[|other| - 1 - d]
    ensures !EndsWith(stem + suffix, other)
  {
    var name := stem + suffix;
    assert name[|name| - 1 - d] == suffix[|suffix| - 1 - d];
    EndsWithIffSlice(name, other);
    if |other| <= |name| {
      assert name[|name| - |other|..][|other| - 1 - d] == name[|name| - 1 - d];
    }
  }

  /** The markup, style-sheet, script and plain-text suffixes, after any stem. */
  lemma TextSuffixTypes(stem: string)
    ensures ContentType(stem + ".html") == "text/html"
    ensures ContentType(stem + ".htm") == "text/html"
    ensures ContentType(stem + ".css") == "text/css"
    ensures ContentType(stem + ".js") == "application/javascript"
    ensures ContentType(stem + ".txt") == "text/plain"
  {
    assert ContentType(stem + ".html") == "text/html" by {
      EndsWithAppended(stem, ".html");
    }
    assert ContentType(stem + ".htm") == "text/html" by {
      EndsWithAppended(stem, ".htm");
      NotEndsWithOther(stem, ".htm", ".html", 0);
    }
    assert ContentType(stem + ".css") == "text/css" by {
      EndsWithAppended(stem, ".css");
      NotEndsWithOther(stem, ".css", ".html", 0);
      NotEndsWithOther(stem, ".css", ".htm", 0);
    }
    assert ContentType(stem + ".js") == "application/javascript" by {
      EndsWithAppended(stem, ".js");
      NotEndsWithOther(stem, ".js", ".html", 0);
      NotEndsWithOther(stem, ".js", ".htm", 0);
      NotEndsWithOther(stem, ".js", ".css", 1);
    }
    assert ContentType(stem + ".txt") == "text/plain" by {
      EndsWithAppended(stem, ".txt");
      NotEndsWithOther(stem, ".txt", ".html", 0);
      NotEndsWithOther(stem, ".txt", ".htm", 0);
      NotEndsWithOther(stem, ".txt", ".css", 0);
      NotEndsWithOther(stem, ".txt", ".js", 0);
      NotEndsWithOther(stem, ".txt", ".jpg", 0);
      NotEndsWithOther(stem, ".txt", ".jpeg", 0);
      NotEndsWithOther(stem, ".txt", ".png", 0);
      NotEndsWithOther(stem, ".txt", ".gif", 0);
    }
  }

  /** The image suffixes, after any stem. */
  lemma ImageSuffixTypes(stem: string)
    ensures ContentType(stem + ".jpg") == "image/jpeg"
    ensures ContentType(stem + ".jpeg") == "image/jpeg"
    ensures ContentType(stem + ".png") == "image/png"
    ensures ContentType(stem + ".gif") == "image/gif"
  {
    assert ContentType(stem + ".jpg") == "image/jpeg" by {
      EndsWithAppended(stem, ".jpg");
      NotEndsWithOther(stem, ".jpg", ".html", 0);
      NotEndsWithOther(stem, ".jpg", ".htm", 0);
      NotEndsWithOther(stem, ".jpg", ".css", 0);
      NotEndsWithOther(stem, ".jpg", ".js", 0);
    }
    assert ContentType(stem + ".jpeg") == "image/jpeg" by {
      EndsWithAppended(stem, ".jpeg");
      NotEndsWithOther(stem, ".jpeg", ".html", 0);
      NotEndsWithOther(stem, ".jpeg", ".htm", 0);
      NotEndsWithOther(stem, ".jpeg", ".css", 0);
      NotEndsWithOther(stem, ".jpeg", ".js", 0);
      NotEndsWithOther(stem, ".jpeg", ".jpg", 1);
    }
    assert ContentType(stem + ".png") == "image/png" by {
      EndsWithAppended(stem, ".png");
      NotEndsWithOther(stem, ".png", ".html", 0);
      NotEndsWithOther(stem, ".png", ".htm", 0);
      NotEndsWithOther(stem, ".png", ".css", 0);
      NotEndsWithOther(stem, ".png", ".js", 0);
      NotEndsWithOther(stem, ".png", ".jpg", 2);
      NotEndsWithOther(stem, ".png", ".jpeg", 1);
    }
    assert ContentType(stem + ".gif") == "image/gif" by {
      EndsWithAppended(stem, ".gif");
      NotEndsWithOther(stem, ".gif", ".html", 0);
      NotEndsWithOther(stem, ".gif", ".htm", 0);
      NotEndsWithOther(stem, ".gif", ".css", 0);
      NotEndsWithOther(stem, ".gif", ".js", 0);
      NotEndsWithOther(stem, ".gif", ".jpg", 0);
      NotEndsWithOther(stem, ".gif", ".jpeg", 0);
      NotEndsWithOther(stem, ".gif", ".png", 0);
    }
  }

  /** A name ending in any listed suffix gets that suffix's type, whatever comes
      before it: no suffix tested earlier in the chain can shadow it. */
  lemma ContentTypeOfListedSuffix(stem: string, i: nat)
    requires i < |SuffixTable|
    ensures ContentType(stem + SuffixTable[i].0) == SuffixTable[i].1
  {
    TextSuffixTypes(stem);
    ImageSuffixTypes(stem);
    var entry := SuffixTable[i];
    assert entry in SuffixTable;
  }

  /** Some listed suffix ends the name. */
  predicate HasListedSuffix(fileName: string) {
    exists i :: 0 <= i < |SuffixTable| && EndsWith(fileName, SuffixTable[i].0)
  }

  /** The fallback type is given exactly to the names that end in no listed suffix. */
  lemma OctetStreamIffUnlisted(fileName: string)
    ensures ContentType(fileName) == OctetStream <==> !HasListedSuffix(fileName)
  {
    if HasListedSuffix(fileName) {
      var i :| 0 <= i < |SuffixTable| && EndsWith(fileName, SuffixTable[i].0);
      var suffix := SuffixTable[i].0;
      assert suffix in [".html", ".htm", ".css", ".js", ".jpg", ".jpeg", ".png", ".gif", ".txt"];
    } else {
      assert !EndsWith(fileName, SuffixTable[0].0);
      assert !EndsWith(fileName, SuffixTable[1].0);
      assert !EndsWith(fileName, SuffixTable[2].0);
      assert !EndsWith(fileName, SuffixTable[3].0);
      assert !EndsWith(fileName, SuffixTable[4].0);
      assert !EndsWith(fileName, SuffixTable[5].0);
      assert !EndsWith(fileName, SuffixTable[6].0);
      assert !EndsWith(fileName, SuffixTable[7].0);
      assert !EndsWith(fileName, SuffixTable[8].0);
    }
  }

  /** The test is case-sensitive: upper-case spellings of listed suffixes are unknown. */
  lemma UpperCaseSuffixUnknown(stem: string)
    ensures ContentType(stem + ".HTML") == OctetStream
    ensures ContentType(stem + ".JPG") == OctetStream
  {
    forall suffix | suffix in [".HTML", ".JPG"]
      ensures ContentType(stem + suffix) == OctetStream
    {
      NotEndsWithOther(stem, suffix, ".html", 0);
      NotEndsWithOther(stem, suffix, ".htm", 0);
      NotEndsWithOther(stem, suffix, ".css", 0);
      NotEndsWithOther(stem, suffix, ".js", 0);
      NotEndsWithOther(stem, suffix, ".jpg", 0);
      NotEndsWithOther(stem, suffix, ".jpeg", 0);
      NotEndsWithOther(stem, suffix, ".png", 0);
      NotEndsWithOther(stem, suffix, ".gif", 0);
      NotEndsWithOther(stem, suffix, ".txt", 0);
    }
  }
}

/** Bytes on the wire, the ASCII encoding of the header text, and the decimal
    rendering of a length. */
module Text {

  /** One octet written to or read from a socket. */
  newtype byte = b: int | 0 <= b < 256

  const CR: byte := 13
  const LF: byte := 10

  /** Every character is 7-bit ASCII, so encoding it is one byte per character. */
  predicate IsAscii(s: string) {
    forall i :: 0 <= i < |s| ==> s[i] as int < 128
  }

  /** Printable ASCII only: no control character, in particular neither CR nor LF. */
  predicate IsFieldText(s: string) {
    forall i :: 0 <= i < |s| ==> 32 <= s[i] as int < 127
  }

  /** String.getBytes() applied to ASCII text: each character becomes the byte of its code. */
  function Ascii(s: string): seq<byte>
    requires IsAscii(s)
  {
    seq(|s|, i requires 0 <= i < |s| => s[i] as int as byte)
  }

  lemma FieldTextIsAscii(s: string)
    requires IsFieldText(s)
    ensures IsAscii(s)
  {
  }

  lemma AsciiAppend(a: string, b: string)
    requires IsAscii(a) && IsAscii(b)
    ensures IsAscii(a + b)
    ensures Ascii(a + b) == Ascii(a) + Ascii(b)
  {
    assert IsAscii(a + b) by {
      forall i | 0 <= i < |a + b| ensures (a + b)[i] as int < 128 {
        if i >= |a| { assert (a + b)[i] == b[i - |a|]; }
      }
    }
  }

  lemma FieldTextAppend(a: string, b: string)
    requires IsFieldText(a) && IsFieldText(b)
    ensures IsFieldText(a + b)
  {
    forall i | 0 <= i < |a + b| ensures 32 <= (a + b)[i] as int < 127 {
      if i >= |a| { assert (a + b)[i] == b[i - |a|]; }
    }
  }

  /** The ASCII digit for d. */
  function DigitChar(d: nat): (c: char)
    requires d < 10
    ensures '0' <= c <= '9'
  {
    (48 + d) as char
  }

  predicate IsDigitChars(s: string) {
    forall i :: 0 <= i < |s| ==> '0' <= s[i] <= '9'
  }

  /** Integer.toString of a non-negative int: the shortest decimal numeral, as Java's
      string concatenation writes it into the Content-Length header. */
  function Decimal(n: nat): (s: string)
    ensures |s| >= 1 && IsDigitChars(s)
    ensures n > 0 ==> s[0] != '0'
    ensures |s| > 1 ==> s[0] != '0'
    ensures n < 10 <==> |s| == 1
    decreases n
  {
    if n < 10 then [DigitChar(n)] else Decimal(n / 10) + [DigitChar(n % 10)]
  }

  lemma DigitCharsAreFieldText(s: string)
    requires IsDigitChars(s)
    ensures IsFieldText(s) && IsAscii(s)
  {
  }

  predicate IsDigitBytes(b: seq<byte>) {
    forall i :: 0 <= i < |b| ==> 48 <= b[i] <= 57
  }

  /** The value of a run of ASCII digits, as a client reading a Content-Length
      field computes it (section 8.6 of RFC 9110). */
  function DigitsValue(b: seq<byte>): nat
    requires IsDigitBytes(b)
  {
    if b == [] then 0 else DigitsValue(b[..|b| - 1]) * 10 + (b[|b| - 1] as int - 48)
  }

  /** Reading back the numeral written for n gives n. */
  lemma {:induction false} DecimalRoundTrip(n: nat)
    ensures IsAscii(Decimal(n))
    ensures IsDigitBytes(Ascii(Decimal(n)))
    ensures DigitsValue(Ascii(Decimal(n))) == n
    decreases n
  {
    var s := Decimal(n);
    if n >= 10 {
      DecimalRoundTrip(n / 10);
      var b := Ascii(s);
      assert b[..|b| - 1] == Ascii(Decimal(n / 10));
    }
  }
}

/** Character classes and decimal numerals, in the ASCII "C" locale.

    The scanner uses `isspace`, `isdigit` and `ispunct` from `<ctype.h>`; these
    are locale dependent, so the model fixes them to their "C" locale meaning. */
module Chars {

  /** `isspace`: space, and the five control characters `\t \n \v \f \r`. */
  predicate IsSpace(c: char) {
    c == ' ' || ('\t' <= c <= '\r')
  }

  /** `isdigit` */
  predicate IsDigit(c: char) {
    '0' <= c <= '9'
  }

  predicate IsAlpha(c: char) {
    ('a' <= c <= 'z') || ('A' <= c <= 'Z')
  }

  /** `is_ident1`: may start an identifier. */
  predicate IsIdent1(c: char) {
    IsAlpha(c) || c == '_'
  }

  /** `is_ident2`: may continue an identifier. */
  predicate IsIdent2(c: char) {
    IsIdent1(c) || IsDigit(c)
  }

  /** An identifier never starts with a digit or a blank; the one
      punctuation character that starts an identifier is `_`, which the
      scanner reads as one because it tests `is_ident1` first; the
      characters that only continue an identifier are the digits. */
  lemma IdentClasses(c: char)
    ensures IsIdent1(c) ==> IsIdent2(c) && !IsDigit(c) && !IsSpace(c)
    ensures IsIdent1(c) && IsPunct(c) <==> c == '_'
    ensures IsIdent2(c) && !IsIdent1(c) <==> IsDigit(c)
  {
  }

  /** `ispunct`: a printable, non-blank character that is not alphanumeric. */
  predicate IsPunct(c: char) {
    '!' <= c <= '~' && !IsAlpha(c) && !IsDigit(c)
  }

  /** A character that cannot begin any token. */
  predicate IsInvalid(c: char) {
    !IsSpace(c) && !IsDigit(c) && !IsIdent1(c) && !IsPunct(c)
  }

  predicate AllDigits(s: string) {
    forall k :: 0 <= k < |s| ==> IsDigit(s[k])
  }

  function DigitValue(c: char): (d: nat)
    requires IsDigit(c)
    ensures d < 10
  {
    c as int - '0' as int
  }

  function DigitChar(d: nat): (c: char)
    requires d < 10
    ensures IsDigit(c) && DigitValue(c) == d
  {
    ('0' as int + d) as char
  }

  /** The value of a run of decimal digits, most significant digit first. */
  function DecimalValue(s: string): nat
    requires AllDigits(s)
    decreases |s|
  {
    if |s| == 0 then 0 else DecimalValue(s[..|s| - 1]) * 10 + DigitValue(s[|s| - 1])
  }

  /** The shortest decimal numeral of `v`. */
  function DecimalString(v: nat): (s: string)
    ensures 1 <= |s| && AllDigits(s)
  {
    if v < 10 then [DigitChar(v)] else DecimalString(v / 10) + [DigitChar(v % 10)]
  }

  lemma {:induction false} DecimalRoundTrip(v: nat)
    ensures DecimalValue(DecimalString(v)) == v
  {
    var s := DecimalString(v);
    if v >= 10 {
      DecimalRoundTrip(v / 10);
      assert s[..|s| - 1] == DecimalString(v / 10);
    }
  }

  const ULongMax: nat := 0x1_0000_0000_0000_0000 - 1

  /** The literal's value as the scanner stores it: `strtoul` saturates at
      ULONG_MAX, and the assignment to the `int` field keeps the low 32 bits
      as a two's-complement number. */
  function CInt(v: nat): (r: int)
    ensures -0x8000_0000 <= r < 0x8000_0000
    ensures v < 0x8000_0000 ==> r == v
    ensures v <= ULongMax ==> (r - v) % 0x1_0000_0000 == 0
    ensures v > ULongMax ==> r == -1
  {
    var u := if v > ULongMax then ULongMax else v;
    var w := u % 0x1_0000_0000;
    if w >= 0x8000_0000 then w - 0x1_0000_0000 else w
  }
}

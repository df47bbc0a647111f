/**
 * What the header map of a rendered response depends on: which names and
 * values the http crate accepts, the lower-casing it applies to names, the
 * UTF-8 byte length of a body and the decimal text of a number.
 */
module Headers {

  /** A `tchar` of section 3.2.6 of RFC 7230; upper-case letters are accepted and lowered. */
  predicate IsTokenChar(c: char) {
    || ('a' <= c <= 'z')
    || ('A' <= c <= 'Z')
    || ('0' <= c <= '9')
    || c in "!#$%&'*+-.^_`|~"
  }

  /** A name `HeaderName::from_bytes` accepts: a non-empty token. */
  predicate ValidName(name: string) {
    |name| > 0 && forall i :: 0 <= i < |name| ==> IsTokenChar(name[i])
  }

  /**
   * A character whose UTF-8 bytes `HeaderValue::from_str` accepts: a tab, or
   * anything from the space upwards except DEL. Characters beyond ASCII encode
   * to bytes of 0x80 and above, which are accepted.
   */
  predicate IsValueChar(c: char) {
    c == '\t' || (c as int >= 0x20 && c as int != 0x7F)
  }

  /** A value `HeaderValue::from_str` accepts. */
  predicate ValidValue(value: string) {
    forall i :: 0 <= i < |value| ==> IsValueChar(value[i])
  }

  function LowerChar(c: char): char {
    if 'A' <= c <= 'Z' then (c as int + 32) as char else c
  }

  /** The ASCII lower-casing a header name undergoes when it becomes a `HeaderName`. */
  function Lower(name: string): string {
    seq(|name|, i requires 0 <= i < |name| => LowerChar(name[i]))
  }

  /** Lower-casing keeps a name valid, leaves no upper-case letter, and a second pass changes nothing. */
  lemma LowerNormalises(name: string)
    ensures ValidName(name) ==> ValidName(Lower(name))
    ensures forall i :: 0 <= i < |Lower(name)| ==> !('A' <= Lower(name)[i] <= 'Z')
    ensures Lower(Lower(name)) == Lower(name)
  {
  }

  /**
   * Two names that are equal up to the case of their ASCII letters: at each
   * position the characters are equal, or one is an ASCII letter and the
   * other is the same letter in the other case.
   */
  predicate SameUpToCase(a: string, b: string) {
    && |a| == |b|
    && forall i :: 0 <= i < |a| ==>
         || a[i] == b[i]
         || ('A' <= a[i] <= 'Z' && b[i] as int == a[i] as int + 32)
         || ('A' <= b[i] <= 'Z' && a[i] as int == b[i] as int + 32)
  }

  /** Two names lower-case to the same key exactly when they are equal up to letter case. */
  lemma LowerIgnoresCase(a: string, b: string)
    ensures Lower(a) == Lower(b) <==> SameUpToCase(a, b)
  {
    if Lower(a) == Lower(b) {
      forall i | 0 <= i < |a|
        ensures || a[i] == b[i]
                || ('A' <= a[i] <= 'Z' && b[i] as int == a[i] as int + 32)
                || ('A' <= b[i] <= 'Z' && a[i] as int == b[i] as int + 32)
      {
        assert Lower(a)[i] == Lower(b)[i];
      }
    }
    if SameUpToCase(a, b) {
      forall i | 0 <= i < |a|
        ensures Lower(a)[i] == Lower(b)[i]
      {
      }
    }
  }

  /** The number of bytes the UTF-8 encoding of `c` takes. */
  function Utf8Width(c: char): nat {
    if c as int < 0x80 then 1
    else if c as int < 0x800 then 2
    else if c as int < 0x1_0000 then 3
    else 4
  }

  /** `String::len()`: the length of the UTF-8 encoding, between one and four bytes per character. */
  function ByteLength(s: string): (n: nat)
    ensures |s| <= n <= 4 * |s|
    ensures n == |s| <==> forall i :: 0 <= i < |s| ==> s[i] as int < 0x80
  {
    if s == [] then 0 else Utf8Width(s[0]) + ByteLength(s[1..])
  }

  function Digit(d: nat): char
    requires d < 10
  {
    "0123456789"[d]
  }

  predicate IsDigit(c: char) {
    '0' <= c <= '9'
  }

  /** `usize::to_string()`: the decimal digits of `n`, with no leading zero. */
  function DecimalString(n: nat): (s: string)
    ensures |s| >= 1
    ensures forall i :: 0 <= i < |s| ==> IsDigit(s[i])
    ensures s[0] != '0' || n == 0
  {
    if n < 10 then [Digit(n)] else DecimalString(n / 10) + [Digit(n % 10)]
  }

  /** The number written by a string of decimal digits. */
  function ParseDecimal(s: string): nat
    requires forall i :: 0 <= i < |s| ==> IsDigit(s[i])
  {
    if s == [] then 0
    else
      assert IsDigit(s[|s| - 1]);
      10 * ParseDecimal(s[..|s| - 1]) + (s[|s| - 1] as int - '0' as int)
  }

  /** Reading back the decimal text of a number gives the number. */
  lemma {:induction false} DecimalRoundTrip(n: nat)
    ensures ParseDecimal(DecimalString(n)) == n
  {
    var s := DecimalString(n);
    if n < 10 {
      assert s[..0] == [];
      assert "0123456789"[n] as int - '0' as int == n;
    } else {
      DecimalRoundTrip(n / 10);
      assert s[..|s| - 1] == DecimalString(n / 10);
      assert "0123456789"[n % 10] as int - '0' as int == n % 10;
    }
  }

  /** The decimal text of a number is a legal header value, so the content length can always be set. */
  lemma DecimalIsValidValue(n: nat)
    ensures ValidValue(DecimalString(n))
  {
  }
}

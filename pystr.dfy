/**
 * The string predicates of Python that the validators use, narrowed to ASCII:
 * `str.isalnum()`, `str.isdigit()` and the truthiness of an optional string.
 */
module PyStr {
  import opened Wrappers

  /** An ASCII decimal digit: the part of `str.isdigit()` this model covers. */
  predicate IsAsciiDigit(c: char) {
    '0' <= c <= '9'
  }

  /** An ASCII letter or digit: the part of `str.isalnum()` this model covers. */
  predicate IsAsciiAlnum(c: char) {
    'a' <= c <= 'z' || 'A' <= c <= 'Z' || IsAsciiDigit(c)
  }

  /** Every character of `s` satisfies `p` (a scan from the left). */
  function AllChars(s: string, p: char -> bool): (b: bool)
    ensures b <==> forall i :: 0 <= i < |s| ==> p(s[i])
  {
    s == [] || (p(s[0]) && AllChars(s[1..], p))
  }

  /** `s.isalnum()`: at least one character, and every character alphanumeric. */
  predicate IsAlnum(s: string): (b: bool)
    ensures b <==> |s| > 0 && forall i :: 0 <= i < |s| ==> IsAsciiAlnum(s[i])
  {
    |s| > 0 && AllChars(s, IsAsciiAlnum)
  }

  /** `s.isdigit()`: at least one character, and every character a digit. */
  predicate IsDigit(s: string): (b: bool)
    ensures b <==> |s| > 0 && forall i :: 0 <= i < |s| ==> IsAsciiDigit(s[i])
  {
    |s| > 0 && AllChars(s, IsAsciiDigit)
  }

  /** Python truthiness of a value that is `None` or a string: present and non-empty. */
  predicate Truthy(o: Option<string>): (b: bool)
    ensures b <==> o != None && o != Some("")
  {
    o.Some? && |o.value| > 0
  }
}

/** The string-to-number conversion behind JavaScript's `isNaN` applied to a
    string (ToNumber on a String, section 7.1.4.1.1 of ECMA-262): a string
    converts to a number exactly when, after trimming white space and line
    terminators, it is empty or a StringNumericLiteral. The POST handler
    rejects an ISBN for which `isNaN` is true, that is, one that is not
    `NumericLooking`. */
module JsNumber {

  /** WhiteSpace and LineTerminator code points (sections 12.2 and 12.3 of ECMA-262). */
  predicate IsStrWhiteSpaceChar(c: char) {
    || c == '\t' || c == '\U{000B}' || c == '\U{000C}' || c == ' '
    || c == '\U{00A0}' || c == '\U{FEFF}' || c == '\U{1680}'
    || ('\U{2000}' <= c <= '\U{200A}')
    || c == '\U{202F}' || c == '\U{205F}' || c == '\U{3000}'
    || c == '\n' || c == '\r' || c == '\U{2028}' || c == '\U{2029}'
  }

  /** `s` with its leading white space removed. */
  function TrimStart(s: string): (t: string)
    ensures |t| <= |s| && t == s[|s| - |t|..]
    ensures forall k :: 0 <= k < |s| - |t| ==> IsStrWhiteSpaceChar(s[k])
    ensures t != [] ==> !IsStrWhiteSpaceChar(t[0])
  {
    if s != [] && IsStrWhiteSpaceChar(s[0]) then TrimStart(s[1..]) else s
  }

  /** `s` with its trailing white space removed. */
  function TrimEnd(s: string): (t: string)
    ensures |t| <= |s| && t == s[..|t|]
    ensures forall k :: |t| <= k < |s| ==> IsStrWhiteSpaceChar(s[k])
    ensures t != [] ==> !IsStrWhiteSpaceChar(t[|t| - 1])
  {
    if s != [] && IsStrWhiteSpaceChar(s[|s| - 1]) then TrimEnd(s[..|s| - 1]) else s
  }

  function Trim(s: string): string {
    TrimEnd(TrimStart(s))
  }

  predicate IsDecimalDigit(c: char) { '0' <= c <= '9' }
  predicate IsBinaryDigit(c: char) { c == '0' || c == '1' }
  predicate IsOctalDigit(c: char) { '0' <= c <= '7' }
  predicate IsHexDigit(c: char) { '0' <= c <= '9' || 'a' <= c <= 'f' || 'A' <= c <= 'F' }

  /** DecimalDigits: one or more decimal digits. */
  predicate IsDigits(s: string) {
    s != [] && forall k :: 0 <= k < |s| ==> IsDecimalDigit(s[k])
  }

  /** Index of the first character of `s` equal to `a` or `b`, or `|s|` if there is none. */
  function FirstOf(s: string, a: char, b: char): (k: nat)
    ensures k <= |s|
    ensures k < |s| ==> s[k] == a || s[k] == b
    ensures forall j :: 0 <= j < k ==> s[j] != a && s[j] != b
  {
    if s == [] then 0
    else if s[0] == a || s[0] == b then 0
    else 1 + FirstOf(s[1..], a, b)
  }

  /** SignedInteger: an optional sign followed by DecimalDigits. */
  predicate IsSignedInteger(s: string) {
    if s != [] && (s[0] == '+' || s[0] == '-') then IsDigits(s[1..]) else IsDigits(s)
  }

  /** ExponentPart: `e` or `E` followed by a SignedInteger. */
  predicate IsExponentPart(s: string) {
    s != [] && (s[0] == 'e' || s[0] == 'E') && IsSignedInteger(s[1..])
  }

  /** The digits-and-dot part of a StrUnsignedDecimalLiteral:
      `DecimalDigits . DecimalDigits?`, `. DecimalDigits` or `DecimalDigits`. */
  predicate IsDecimalMantissa(m: string) {
    var d := FirstOf(m, '.', '.');  // the first dot: both alternatives are the same character
    if d == |m| then IsDigits(m)
    else
      var whole, fraction := m[..d], m[d + 1..];
      && (whole == [] || IsDigits(whole))
      && (fraction == [] || IsDigits(fraction))
      && (whole != [] || fraction != [])
  }

  /** StrUnsignedDecimalLiteral: `Infinity`, or a mantissa with an optional ExponentPart. */
  predicate IsStrUnsignedDecimalLiteral(s: string) {
    || s == "Infinity"
    || var e := FirstOf(s, 'e', 'E');
       IsDecimalMantissa(s[..e]) && (e == |s| || IsExponentPart(s[e..]))
  }

  /** StrDecimalLiteral: an optional sign followed by a StrUnsignedDecimalLiteral. */
  predicate IsStrDecimalLiteral(s: string) {
    if s != [] && (s[0] == '+' || s[0] == '-') then IsStrUnsignedDecimalLiteral(s[1..])
    else IsStrUnsignedDecimalLiteral(s)
  }

  /** NonDecimalIntegerLiteral: `0b`, `0o` or `0x` (either case) and at least one digit
      of that base; no sign is allowed. */
  predicate IsNonDecimalIntegerLiteral(s: string) {
    && |s| > 2 && s[0] == '0'
    && (|| ((s[1] == 'b' || s[1] == 'B') && forall k :: 2 <= k < |s| ==> IsBinaryDigit(s[k]))
        || ((s[1] == 'o' || s[1] == 'O') && forall k :: 2 <= k < |s| ==> IsOctalDigit(s[k]))
        || ((s[1] == 'x' || s[1] == 'X') && forall k :: 2 <= k < |s| ==> IsHexDigit(s[k])))
  }

  predicate IsStrNumericLiteral(s: string) {
    IsStrDecimalLiteral(s) || IsNonDecimalIntegerLiteral(s)
  }

  /** `!isNaN(s)` for a string `s`: the trimmed string is empty (it converts to 0)
      or a StrNumericLiteral. */
  predicate NumericLooking(s: string) {
    var t := Trim(s);
    t == [] || IsStrNumericLiteral(t)
  }

  /** A string that neither starts nor ends with white space is its own trim. */
  lemma TrimOfUnpadded(s: string)
    requires s != [] && !IsStrWhiteSpaceChar(s[0]) && !IsStrWhiteSpaceChar(s[|s| - 1])
    ensures Trim(s) == s
  {
  }

  /** Every non-empty string of decimal digits, such as an ISBN-10 without check
      letter or an ISBN-13 written without hyphens, passes the `isNaN` check. */
  lemma DigitStringIsNumeric(s: string)
    requires IsDigits(s)
    ensures NumericLooking(s)
  {
    TrimOfUnpadded(s);
    var e := FirstOf(s, 'e', 'E');
    if e < |s| {
      assert false;
    }
    assert s[..e] == s;
    var d := FirstOf(s, '.', '.');
    if d < |s| {
      assert false;
    }
    assert !IsDecimalDigit('+') && !IsDecimalDigit('-');
    assert IsStrUnsignedDecimalLiteral(s);
  }

  /** A string of digits and hyphens that starts and ends with a digit and holds at
      least one hyphen, such as a hyphenated ISBN, fails the `isNaN` check. */
  lemma HyphenatedIsRejected(s: string)
    requires s != [] && IsDecimalDigit(s[0]) && IsDecimalDigit(s[|s| - 1])
    requires forall k :: 0 <= k < |s| ==> IsDecimalDigit(s[k]) || s[k] == '-'
    requires exists k :: 0 <= k < |s| && s[k] == '-'
    ensures !NumericLooking(s)
  {
    TrimOfUnpadded(s);
    var e := FirstOf(s, 'e', 'E');
    if e < |s| {
      assert false;
    }
    assert s[..e] == s;
    var d := FirstOf(s, '.', '.');
    if d < |s| {
      assert false;
    }
    var k :| 0 <= k < |s| && s[k] == '-';
    assert !IsDigits(s) by {
      assert !IsDecimalDigit(s[k]);
    }
  }

  /** Strings made only of white space convert to 0, so they pass the check. */
  lemma BlankIsNumeric(s: string)
    requires forall k :: 0 <= k < |s| ==> IsStrWhiteSpaceChar(s[k])
    ensures NumericLooking(s)
  {
    var t := TrimStart(s);
    if t != [] {
      assert false;
    }
  }
}

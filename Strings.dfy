/** The static string and argument helpers of `CrptApi`: blankness as Java's
    `String.trim().isEmpty()` sees it, the `require*` guards that turn a bad
    argument into an exception, and the two normalisers for paths and
    converter format keys. */
module Strings {
  import opened Wrappers

  /** Java's `trim` treats every character up to U+0020 as space. */
  predicate IsTrimmable(c: char) {
    c <= ' '
  }

  /** Removes the leading run of trimmable characters. */
  function TrimStart(s: string): (r: string)
    ensures |r| <= |s| && r == s[|s| - |r|..]
    ensures forall i :: 0 <= i < |s| - |r| ==> IsTrimmable(s[i])
    ensures r == [] || !IsTrimmable(r[0])
  {
    if s != [] && IsTrimmable(s[0]) then TrimStart(s[1..]) else s
  }

  /** Removes the trailing run of trimmable characters. */
  function TrimEnd(s: string): (r: string)
    ensures |r| <= |s| && r == s[..|r|]
    ensures forall i :: |r| <= i < |s| ==> IsTrimmable(s[i])
    ensures r == [] || !IsTrimmable(r[|r| - 1])
  {
    if s != [] && IsTrimmable(s[|s| - 1]) then TrimEnd(s[..|s| - 1]) else s
  }

  /** A string that trim empties: all of its characters are trimmable. */
  predicate AllTrimmable(s: string) {
    forall i :: 0 <= i < |s| ==> IsTrimmable(s[i])
  }

  /** `String.trim()`: both runs removed. What is left is empty exactly when
      every character is trimmable, and otherwise starts and ends with a
      character trim keeps. */
  function Trim(s: string): (r: string)
    ensures r == [] <==> AllTrimmable(s)
    ensures r != [] ==> !IsTrimmable(r[0]) && !IsTrimmable(r[|r| - 1])
  {
    var t := TrimStart(s);
    assert t != [] ==> !IsTrimmable(s[|s| - |t|]);
    TrimEnd(t)
  }

  /** `isBlank`: null or made of characters up to U+0020 only. */
  predicate IsBlank(value: Option<string>) {
    value.None? || AllTrimmable(value.value)
  }

  /** Blankness is what the source tests: `value == null ||
      value.trim().isEmpty()`. */
  lemma BlankIffTrimEmpty(value: Option<string>)
    ensures IsBlank(value) <==> value.None? || Trim(value.value) == []
  {
  }

  /** The messages of the `require*` guards for an argument `name`. */
  function NotBlankMessage(name: string): string {
    name + " must not be blank"
  }

  function PositiveMessage(name: string): string {
    name + " must be > 0"
  }

  function NotNullMessage(name: string): string {
    name + " must not be null"
  }

  /** `requireNotBlank`: the value itself, or `IllegalArgumentException`
      naming the argument. */
  function RequireNotBlank(value: Option<string>, name: string): (r: Result<string>)
    ensures r.Success? <==> !IsBlank(value)
    ensures r.Success? ==> value == Some(r.value)
    ensures r.Failure? ==> r.error == IllegalArgument(NotBlankMessage(name))
  {
    if IsBlank(value) then Failure(IllegalArgument(NotBlankMessage(name))) else Success(value.value)
  }

  /** `requirePositive`: the value itself, or `IllegalArgumentException`
      when it is zero or negative. */
  function RequirePositive(value: int, name: string): (r: Result<int>)
    ensures r.Success? <==> value > 0
    ensures r.Success? ==> r.value == value
    ensures r.Failure? ==> r.error == IllegalArgument(PositiveMessage(name))
  {
    if value <= 0 then Failure(IllegalArgument(PositiveMessage(name))) else Success(value)
  }

  /** `requireNotNull` (`Objects.requireNonNull`): the value, or
      `NullPointerException` naming the argument. */
  function RequireNotNull<T>(value: Option<T>, name: string): (r: Result<T>)
    ensures r.Success? <==> value.Some?
    ensures r.Success? ==> value == Some(r.value)
    ensures r.Failure? ==> r.error == NullPointer(NotNullMessage(name))
  {
    if value.None? then Failure(NullPointer(NotNullMessage(name))) else Success(value.value)
  }

  /** `normalizePath`: a non-blank path, given a leading '/' when it has none. */
  function NormalizePath(path: Option<string>): (r: Result<string>)
    ensures r.Success? <==> !IsBlank(path)
    ensures r.Success? ==> |r.value| > 0 && r.value[0] == '/'
    ensures r.Success? ==> r.value == path.value || r.value == "/" + path.value
    ensures r.Success? && path.value[0] == '/' ==> r.value == path.value
    ensures r.Failure? ==> r.error == IllegalArgument(NotBlankMessage("createPath"))
  {
    match RequireNotBlank(path, "createPath")
    case Failure(e) => Failure(e)
    case Success(p) => Success(if |p| > 0 && p[0] == '/' then p else "/" + p)
  }

  /** Normalising a normalised path changes nothing. */
  lemma NormalizePathIdempotent(path: Option<string>)
    requires NormalizePath(path).Success?
    ensures NormalizePath(Some(NormalizePath(path).value)) == NormalizePath(path)
  {
    var p := NormalizePath(path).value;
    SuffixKeepsNonBlank(path.value, p);
  }

  /** A string ending in a non-blank string is not blank either. */
  lemma SuffixKeepsNonBlank(s: string, t: string)
    requires !AllTrimmable(s) && |s| <= |t| && t[|t| - |s|..] == s
    ensures !AllTrimmable(t)
  {
    var i :| 0 <= i < |s| && !IsTrimmable(s[i]);
    assert t[|t| - |s| + i] == s[i];
  }

  /** `Character.toUpperCase` under `Locale.ROOT`, for the ASCII letters:
      no lower-case letter is left; a lower-case letter becomes the same
      letter of the alphabet in upper case, and nothing else changes; what
      trim drops stays droppable and what it keeps stays kept. */
  function UpperChar(c: char): (u: char)
    ensures !('a' <= u <= 'z')
    ensures 'a' <= c <= 'z' ==> 'A' <= u <= 'Z' && u as int - 'A' as int == c as int - 'a' as int
    ensures u == c || 'a' <= c <= 'z'
    ensures IsTrimmable(u) <==> IsTrimmable(c)
  {
    if 'a' <= c <= 'z' then (c as int - 32) as char else c
  }

  /** `String.toUpperCase(Locale.ROOT)`: no lower-case letter is left, and
      the result equals the original up to case. */
  function ToUpperCase(s: string): (r: string)
    ensures IsUpperCase(r) && EqualIgnoringCase(r, s)
  {
    seq(|s|, i requires 0 <= i < |s| => UpperChar(s[i]))
  }

  /** No ASCII lower-case letter is left in a string. */
  predicate IsUpperCase(s: string) {
    forall i :: 0 <= i < |s| ==> !('a' <= s[i] <= 'z')
  }

  /** Two strings that differ at most in the case of ASCII letters. */
  predicate EqualIgnoringCase(a: string, b: string) {
    |a| == |b| && forall i :: 0 <= i < |a| ==> UpperChar(a[i]) == UpperChar(b[i])
  }

  /** `normalizeFormatKey`: a non-blank format, upper-cased; the key under
      which the converter registry stores and finds converters. */
  function NormalizeFormatKey(format: Option<string>): (r: Result<string>)
    ensures r.Success? <==> !IsBlank(format)
    ensures r.Success? ==> IsUpperCase(r.value) && EqualIgnoringCase(r.value, format.value)
    ensures r.Failure? ==> r.error == IllegalArgument(NotBlankMessage("format"))
  {
    match RequireNotBlank(format, "format")
    case Failure(e) => Failure(e)
    case Success(f) => Success(ToUpperCase(f))
  }

  /** Format keys ignore case: formats that differ only in the case of their
      letters are both rejected or both give the same key. */
  lemma FormatKeyIgnoresCase(a: string, b: string)
    requires EqualIgnoringCase(a, b)
    ensures NormalizeFormatKey(Some(a)) == NormalizeFormatKey(Some(b))
  {
    CaseKeepsBlankness(a, b);
    if !AllTrimmable(a) {
      assert ToUpperCase(a) == ToUpperCase(b);
    }
  }

  /** Strings equal up to case are blank together. */
  lemma CaseKeepsBlankness(a: string, b: string)
    requires EqualIgnoringCase(a, b)
    ensures AllTrimmable(a) <==> AllTrimmable(b)
  {
    forall i | 0 <= i < |a| ensures IsTrimmable(a[i]) <==> IsTrimmable(b[i]) {
      assert IsTrimmable(UpperChar(a[i])) <==> IsTrimmable(UpperChar(b[i]));
    }
  }

  /** A key is its own normalisation: registering under a key that came out
      of `NormalizeFormatKey` stores it under the same key. */
  lemma FormatKeyIdempotent(format: Option<string>)
    requires NormalizeFormatKey(format).Success?
    ensures NormalizeFormatKey(Some(NormalizeFormatKey(format).value)) == NormalizeFormatKey(format)
  {
    var key := ToUpperCase(format.value);
    UpperCaseKeepsNonBlank(format.value);
    UpperCaseIsFixed(key);
  }

  /** Upper-casing keeps a non-blank string non-blank. */
  lemma UpperCaseKeepsNonBlank(s: string)
    requires !AllTrimmable(s)
    ensures !AllTrimmable(ToUpperCase(s))
  {
    var i :| 0 <= i < |s| && !IsTrimmable(s[i]);
    assert !IsTrimmable(ToUpperCase(s)[i]);
  }

  /** A string with no lower-case letter is left as it is by upper-casing. */
  lemma UpperCaseIsFixed(s: string)
    requires IsUpperCase(s)
    ensures ToUpperCase(s) == s
  {
    forall j | 0 <= j < |s| ensures UpperChar(s[j]) == s[j] {
      assert !('a' <= s[j] <= 'z');
    }
  }

  /** Decimal digits of a non-negative int, as Java's string concatenation
      prints it. */
  function DecimalString(n: nat): (r: string)
    ensures |r| > 0 && forall i :: 0 <= i < |r| ==> '0' <= r[i] <= '9'
  {
    var digit := ['0' + (n % 10) as char];
    if n < 10 then digit else DecimalString(n / 10) + digit
  }

  /** `String.join(separator, parts)`. */
  function Join(separator: string, parts: seq<string>): (r: string)
    ensures parts == [] ==> r == []
    ensures |parts| == 1 ==> r == parts[0]
  {
    if parts == [] then [] else if |parts| == 1 then parts[0] else parts[0] + separator + Join(separator, parts[1..])
  }
}

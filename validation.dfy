/** The form validators of frontend/src/utils/validation.ts. Each one takes
    the raw text of a form field and returns an error message, or `None` when
    the field is acceptable. The browser's `URL` parser is a parameter
    (`parse`) that yields the parsed protocol or fails. */
module Validation {
  import opened Wrappers
  import Registry

  const UrlRequired := "URL is required"
  const UrlProtocolNotHttp := "URL must use HTTP or HTTPS protocol"
  const UrlMalformed := "Please enter a valid URL"
  const ValidityNotPositive := "Validity must be a positive number"
  const ValidityTooLong := "Validity cannot exceed 7 days (10080 minutes)"
  const ShortcodeLength := "Shortcode must be between 3 and 20 characters"
  const ShortcodeCharacters := "Shortcode must contain only letters and numbers"

  /** Seven days in minutes. */
  const MaxValidityMinutes: int := 10080

  /** What `new URL(url)` yields when it succeeds; only the protocol is used. */
  datatype ParsedUrl = ParsedUrl(protocol: string)

  /** The JavaScript white-space and line-terminator characters that
      `String.prototype.trim` and `parseInt` skip. */
  predicate IsJsWhitespace(c: char) {
    || ('\U{9}' <= c <= '\U{D}')          // tab, line feed, vertical tab, form feed, carriage return
    || c == ' ' || c == '\U{A0}' || c == '\U{1680}'
    || ('\U{2000}' <= c <= '\U{200A}')
    || c == '\U{2028}' || c == '\U{2029}' || c == '\U{202F}' || c == '\U{205F}'
    || c == '\U{3000}' || c == '\U{FEFF}'
  }

  /** Text that `trim()` reduces to the empty string. */
  predicate IsBlank(s: string) {
    forall i :: 0 <= i < |s| ==> IsJsWhitespace(s[i])
  }

  function TrimStart(s: string): (r: string)
    ensures |r| <= |s| && r == s[|s| - |r|..]
    ensures r != [] ==> !IsJsWhitespace(r[0])
  {
    if s != [] && IsJsWhitespace(s[0]) then TrimStart(s[1..]) else s
  }

  function TrimEnd(s: string): (r: string)
    ensures |r| <= |s| && r == s[..|r|]
    ensures r != [] ==> !IsJsWhitespace(r[|r| - 1])
  {
    if s != [] && IsJsWhitespace(s[|s| - 1]) then TrimEnd(s[..|s| - 1]) else s
  }

  /** `String.prototype.trim`. */
  function Trim(s: string): string {
    TrimEnd(TrimStart(s))
  }

  lemma {:induction false} TrimStartEmptyIffBlank(s: string)
    ensures TrimStart(s) == [] <==> IsBlank(s)
  {
    if s != [] {
      BlankUncons(s);
      if IsJsWhitespace(s[0]) {
        TrimStartEmptyIffBlank(s[1..]);
      }
    }
  }

  lemma BlankUncons(s: string)
    requires s != []
    ensures IsBlank(s) <==> IsJsWhitespace(s[0]) && IsBlank(s[1..])
  {
    if IsJsWhitespace(s[0]) && IsBlank(s[1..]) {
      forall i | 1 <= i < |s| ensures IsJsWhitespace(s[i]) {
        assert s[i] == s[1..][i - 1];
      }
    }
  }

  /** `!s.trim()` holds exactly for white-space-only text. */
  lemma TrimEmptyIffBlank(s: string)
    ensures Trim(s) == [] <==> IsBlank(s)
  {
    TrimStartEmptyIffBlank(s);
    var t := TrimStart(s);
    if t != [] {
      assert |TrimEnd(t)| > 0 by {
        if TrimEnd(t) == [] { TrimEndOfNonBlank(t); }
      }
    }
  }

  lemma {:induction false} TrimEndOfNonBlank(t: string)
    requires t != [] && !IsJsWhitespace(t[0])
    ensures TrimEnd(t) != []
    decreases |t|
  {
    if IsJsWhitespace(t[|t| - 1]) {
      TrimEndOfNonBlank(t[..|t| - 1]);
    }
  }

  /** `validateUrl`. */
  function ValidateUrl(url: string, parse: string -> Option<ParsedUrl>): (r: Option<string>)
    ensures r == Some(UrlRequired) <==> IsBlank(url)
    ensures !IsBlank(url) && parse(url).None? ==> r == Some(UrlMalformed)
    ensures !IsBlank(url) && parse(url).Some? && parse(url).value.protocol !in ["http:", "https:"] ==>
      r == Some(UrlProtocolNotHttp)
    ensures r.None? <==> !IsBlank(url) && parse(url).Some? && parse(url).value.protocol in ["http:", "https:"]
  {
    TrimEmptyIffBlank(url);
    if Trim(url) == "" then Some(UrlRequired)
    else match parse(url)
      case None => Some(UrlMalformed)
      case Some(parsed) =>
        if parsed.protocol !in ["http:", "https:"] then Some(UrlProtocolNotHttp) else None
  }

  predicate IsDecimalDigit(c: char) {
    '0' <= c <= '9'
  }

  /** The longest prefix of decimal digits. */
  function DigitPrefix(s: string): (d: string)
    ensures |d| <= |s| && d == s[..|d|]
    ensures forall i :: 0 <= i < |d| ==> IsDecimalDigit(d[i])
    ensures |d| < |s| ==> !IsDecimalDigit(s[|d|])
  {
    if s != [] && IsDecimalDigit(s[0]) then [s[0]] + DigitPrefix(s[1..]) else []
  }

  function DigitValue(c: char): nat
    requires IsDecimalDigit(c)
  {
    c as int - '0' as int
  }

  /** The value of a string of decimal digits, most significant first. */
  function DigitsValue(d: string): nat
    requires forall i :: 0 <= i < |d| ==> IsDecimalDigit(d[i])
  {
    if d == [] then 0 else DigitsValue(d[..|d| - 1]) * 10 + DigitValue(d[|d| - 1])
  }

  /** `parseInt(s, 10)`: skip leading white space, take an optional sign, then
      the longest run of decimal digits; no digits gives NaN (`None`). A
      negative zero is 0 here, which every comparison below treats alike. */
  function ParseInt(s: string): (r: Option<int>)
    ensures r.None? <==> DigitPrefix(UnsignedPart(TrimStart(s))) == []
  {
    var t := TrimStart(s);
    var negative := t != [] && t[0] == '-';
    var digits := DigitPrefix(UnsignedPart(t));
    if digits == [] then None
    else if negative then Some(0 - DigitsValue(digits) as int)
    else Some(DigitsValue(digits))
  }

  /** The text after an optional leading `+` or `-`. */
  function UnsignedPart(t: string): (u: string)
    ensures u == t || (t != [] && (t[0] == '+' || t[0] == '-') && u == t[1..])
  {
    if t != [] && (t[0] == '+' || t[0] == '-') then t[1..] else t
  }

  /** `validateValidity`: optional; otherwise the parsed prefix must be a
      positive number of minutes no larger than seven days. */
  function ValidateValidity(validity: string): (r: Option<string>)
    ensures IsBlank(validity) ==> r.None?
    ensures !IsBlank(validity) ==>
      (r.None? <==> ParseInt(validity).Some? && 1 <= ParseInt(validity).value <= MaxValidityMinutes)
    ensures !IsBlank(validity) && (ParseInt(validity).None? || ParseInt(validity).value <= 0) ==>
      r == Some(ValidityNotPositive)
    ensures !IsBlank(validity) && ParseInt(validity).Some? && ParseInt(validity).value > MaxValidityMinutes ==>
      r == Some(ValidityTooLong)
  {
    TrimEmptyIffBlank(validity);
    if Trim(validity) == "" then None
    else
      var n := ParseInt(validity);
      if n.None? || n.value <= 0 then Some(ValidityNotPositive)
      else if n.value > MaxValidityMinutes then Some(ValidityTooLong)
      else None
  }

  /** The number of UTF-16 code units of the text, which is what JavaScript's
      `length` counts: a character outside the Basic Multilingual Plane takes
      two (a surrogate pair). */
  function Utf16Length(s: string): (n: nat)
    ensures |s| <= n <= 2 * |s|
    ensures (forall i :: 0 <= i < |s| ==> (s[i] as int) < 0x10000) ==> n == |s|
  {
    if s == [] then 0
    else (if (s[0] as int) < 0x10000 then 1 else 2) + Utf16Length(s[1..])
  }

  /** `validateShortcode`: optional; otherwise the length in UTF-16 code units
      is checked before the characters. */
  function ValidateShortcode(shortcode: string): (r: Option<string>)
    ensures IsBlank(shortcode) ==> r.None?
    ensures !IsBlank(shortcode) && !(3 <= Utf16Length(shortcode) <= 20) ==> r == Some(ShortcodeLength)
    ensures !IsBlank(shortcode) && 3 <= Utf16Length(shortcode) <= 20
              && (exists i :: 0 <= i < |shortcode| && !Registry.IsAlphanumeric(shortcode[i])) ==>
      r == Some(ShortcodeCharacters)
  {
    TrimEmptyIffBlank(shortcode);
    if Trim(shortcode) == "" then None
    else if Utf16Length(shortcode) < 3 || Utf16Length(shortcode) > 20 then Some(ShortcodeLength)
    else if !(forall i :: 0 <= i < |shortcode| ==> Registry.IsAlphanumeric(shortcode[i])) then
      Some(ShortcodeCharacters)
    else None
  }

  /** On text that is not blank, the form accepts exactly the shortcodes the
      service's own `isValidShortcode` accepts: an alphanumeric text has as
      many code units as characters. */
  lemma ShortcodeValidatorAgreesWithService(shortcode: string)
    requires !IsBlank(shortcode)
    ensures ValidateShortcode(shortcode).None? <==> Registry.IsValidShortcode(shortcode)
  {
    if forall i :: 0 <= i < |shortcode| ==> Registry.IsAlphanumeric(shortcode[i]) {
      assert forall i :: 0 <= i < |shortcode| ==> (shortcode[i] as int) < 0x10000;
    }
  }

  /** Eleven characters outside the Basic Multilingual Plane make 22 code
      units, so the form reports the length, not the characters; two of them
      make 4 code units, so it reports the characters, not the length. */
  lemma AstralShortcodeMessages()
    ensures ValidateShortcode(seq(11, _ => '\U{1F600}')) == Some(ShortcodeLength)
    ensures ValidateShortcode(seq(2, _ => '\U{1F600}')) == Some(ShortcodeCharacters)
  {
    var long := seq(11, _ => '\U{1F600}');
    var short := seq(2, _ => '\U{1F600}');
    assert !IsJsWhitespace(long[0]) && !IsJsWhitespace(short[0]);
    assert Utf16Length(long) == 22 by { AllAstralLength(long); }
    assert Utf16Length(short) == 4 by { AllAstralLength(short); }
    assert !Registry.IsAlphanumeric(short[0]);
  }

  lemma {:induction false} AllAstralLength(s: string)
    requires forall i :: 0 <= i < |s| ==> (s[i] as int) >= 0x10000
    ensures Utf16Length(s) == 2 * |s|
  {
    if s != [] {
      AllAstralLength(s[1..]);
    }
  }

  /** The form fields as typed. */
  datatype UrlFormData = UrlFormData(url: string, validity: string, shortcode: string)

  /** The keys a `FormErrors` object may carry. */
  datatype Field = UrlField | ValidityField | ShortcodeField

  /** `validateForm`: one key per failing field, holding that field's message. */
  function ValidateForm(form: UrlFormData, parse: string -> Option<ParsedUrl>): (errors: map<Field, string>)
    ensures UrlField in errors <==> ValidateUrl(form.url, parse).Some?
    ensures UrlField in errors ==> errors[UrlField] == ValidateUrl(form.url, parse).value
    ensures ValidityField in errors <==> ValidateValidity(form.validity).Some?
    ensures ValidityField in errors ==> errors[ValidityField] == ValidateValidity(form.validity).value
    ensures ShortcodeField in errors <==> ValidateShortcode(form.shortcode).Some?
    ensures ShortcodeField in errors ==> errors[ShortcodeField] == ValidateShortcode(form.shortcode).value
  {
    CollectErrors(ValidateUrl(form.url, parse), ValidateValidity(form.validity), ValidateShortcode(form.shortcode))
  }

  /** The error object built from the three validators' answers, in the
      order `validateForm` sets the keys. */
  function CollectErrors(urlError: Option<string>, validityError: Option<string>, shortcodeError: Option<string>)
    : (errors: map<Field, string>)
    ensures UrlField in errors <==> urlError.Some?
    ensures UrlField in errors ==> errors[UrlField] == urlError.value
    ensures ValidityField in errors <==> validityError.Some?
    ensures ValidityField in errors ==> errors[ValidityField] == validityError.value
    ensures ShortcodeField in errors <==> shortcodeError.Some?
    ensures ShortcodeField in errors ==> errors[ShortcodeField] == shortcodeError.value
  {
    WithError(WithError(WithError(map[], UrlField, urlError), ValidityField, validityError),
              ShortcodeField, shortcodeError)
  }

  /** `if (error) errors.field = error`. */
  function WithError(errors: map<Field, string>, field: Field, error: Option<string>): (r: map<Field, string>)
    ensures field in r <==> field in errors || error.Some?
    ensures error.Some? ==> r[field] == error.value
    ensures error.None? ==> r == errors
    ensures forall g :: g != field ==> (g in r <==> g in errors)
    ensures forall g :: g != field && g in r ==> r[g] == errors[g]
  {
    if error.Some? then errors[field := error.value] else errors
  }

  /** The form is free of errors exactly when every field passes. */
  lemma FormValidIffFieldsValid(form: UrlFormData, parse: string -> Option<ParsedUrl>)
    ensures ValidateForm(form, parse) == map[] <==>
      && ValidateUrl(form.url, parse).None?
      && ValidateValidity(form.validity).None?
      && ValidateShortcode(form.shortcode).None?
  {
    var errors := ValidateForm(form, parse);
    if errors.Keys == {} { assert errors == map[]; }
  }

  /** Lower boundary of the validity field: 1 minute passes, 0 does not. */
  lemma ValidityLowerBoundary()
    ensures ValidateValidity("1").None?
    ensures ValidateValidity("0") == Some(ValidityNotPositive)
  {
    DigitStringValidity("1", 1);
    DigitStringValidity("0", 0);
  }

  /** Upper boundary of the validity field: 10080 minutes (seven days) pass. */
  lemma SevenDaysAccepted()
    ensures ValidateValidity("10080").None?
  {
    DigitsOf1008();
    DigitsValueSnoc("1008", '0');
    assert "1008" + ['0'] == "10080";
    DigitStringValidity("10080", 10080);
  }

  /** One minute more than seven days is rejected with the upper-bound message. */
  lemma SevenDaysPlusOneRejected()
    ensures ValidateValidity("10081") == Some(ValidityTooLong)
  {
    DigitsOf1008();
    DigitsValueSnoc("1008", '1');
    assert "1008" + ['1'] == "10081";
    DigitStringValidity("10081", 10081);
  }

  lemma DigitsOf1008()
    ensures DigitsValue("1008") == 1008
  {
    DigitsValueSnoc("1", '0');
    assert "1" + ['0'] == "10";
    DigitsValueSnoc("10", '0');
    assert "10" + ['0'] == "100";
    DigitsValueSnoc("100", '8');
    assert "100" + ['8'] == "1008";
  }

  /** Text after the digits is ignored, and text without leading digits is
      not a number. */
  lemma ValidityPrefixParse()
    ensures ValidateValidity("30 minutes").None?
    ensures ValidateValidity("abc") == Some(ValidityNotPositive)
  {
    var s := "30 minutes";
    assert !IsJsWhitespace(s[0]);
    assert TrimStart(s) == s;
    assert UnsignedPart(s) == s;
    assert DigitPrefix(s[2..]) == [] by { assert !IsDecimalDigit(s[2..][0]); }
    assert DigitPrefix(s[1..]) == "0" by { assert s[1..][1..] == s[2..]; }
    assert DigitPrefix(s) == "30";
    DigitsValueSnoc("3", '0');
    assert ParseInt(s) == Some(30);
    var t := "abc";
    assert !IsJsWhitespace(t[0]);
    assert TrimStart(t) == t;
    assert UnsignedPart(t) == t;
    assert DigitPrefix(t) == [];
  }

  lemma DigitsValueSnoc(d: string, c: char)
    requires forall i :: 0 <= i < |d| ==> IsDecimalDigit(d[i])
    requires IsDecimalDigit(c)
    ensures DigitsValue(d + [c]) == DigitsValue(d) * 10 + DigitValue(c)
  {
    assert (d + [c])[..|d|] == d;
  }

  /** A field holding only digits is accepted exactly when its value is a
      number of minutes from 1 to 10080. */
  lemma DigitStringValidity(s: string, n: nat)
    requires s != [] && forall i :: 0 <= i < |s| ==> IsDecimalDigit(s[i])
    requires DigitsValue(s) == n
    ensures ValidateValidity(s) ==
      if n == 0 then Some(ValidityNotPositive)
      else if n > MaxValidityMinutes then Some(ValidityTooLong)
      else None
  {
    ParsesTo(s, n);
  }

  /** A string made only of digits parses to its decimal value. */
  lemma ParsesTo(s: string, n: nat)
    requires s != [] && forall i :: 0 <= i < |s| ==> IsDecimalDigit(s[i])
    requires DigitsValue(s) == n
    ensures !IsBlank(s) && ParseInt(s) == Some(n)
  {
    assert !IsJsWhitespace(s[0]);
    assert TrimStart(s) == s;
    assert UnsignedPart(s) == s;
    AllDigitsPrefix(s);
  }

  lemma {:induction false} AllDigitsPrefix(s: string)
    requires forall i :: 0 <= i < |s| ==> IsDecimalDigit(s[i])
    ensures DigitPrefix(s) == s
  {
    if s != [] {
      AllDigitsPrefix(s[1..]);
    }
  }
}

/** How the URL-shortener page turns a validated form into a create request
    (frontend/src/components/UrlShortenerPage.tsx), only as far as the
    shortcode field goes, and what the service then does with it. */
module FormSubmission {
  import opened Wrappers
  import Registry
  import opened Validation

  /** The shortcode the page sends, as written: `form.data.shortcode ||
      undefined`, so only the empty string is dropped. */
  function SentShortcode(field: string): (sent: Option<string>)
    ensures sent.None? <==> field == ""
    ensures sent.Some? ==> sent.value == field
  {
    if field == "" then None else Some(field)
  }

  /** A field of three spaces passes the form's check, because the validator
      treats white-space-only text as an empty optional field; the page still
      sends it, and the service rejects it as an invalid shortcode. */
  lemma BlankShortcodeRejectedByService(s: Registry.State, url: string, now: int, id: string,
                                        draws: seq<string>, isUrl: string -> bool)
    requires isUrl(url)
    ensures ValidateShortcode("   ").None?
    ensures Registry.Create(s, url, None, SentShortcode("   "), now, id, draws, isUrl).0
              == Failure(Registry.InvalidShortcodeFormat)
  {
    var field := "   ";
    assert IsBlank(field);
    assert !Registry.IsAlphanumeric(field[0]);
  }

  /** The shortcode the page evidently means to send: nothing when the field
      is blank after trimming, which is what the validator accepts as empty. */
  function SentShortcodeTrimmed(field: string): (sent: Option<string>)
    ensures sent.None? <==> IsBlank(field)
    ensures sent.Some? ==> sent.value == field
  {
    TrimEmptyIffBlank(field);
    if Trim(field) == "" then None else Some(field)
  }

  /** Create rejects a shortcode for its format only when one is requested
      and fails `isValidShortcode`. */
  lemma CreateNeverRejectsValidFormat(s: Registry.State, url: string, validity: Option<int>,
                                      sent: Option<string>, now: int, id: string,
                                      draws: seq<string>, isUrl: string -> bool)
    requires Registry.ValidValidity(validity)
    requires !Registry.IsRequested(sent) || Registry.IsValidShortcode(sent.value)
    ensures Registry.Create(s, url, validity, sent, now, id, draws, isUrl).0 != Failure(Registry.InvalidShortcodeFormat)
  {
    assert Registry.ChooseCode(s, url, sent, draws, isUrl) != Failure(Registry.InvalidShortcodeFormat);
  }

  /** With the trimmed submission, a shortcode field the form accepts is never
      rejected by the service for its format. */
  lemma FormAcceptedShortcodeIsServiceValid(s: Registry.State, url: string, validity: Option<int>,
                                            field: string, now: int, id: string,
                                            draws: seq<string>, isUrl: string -> bool)
    requires Registry.ValidValidity(validity)
    requires ValidateShortcode(field).None?
    ensures var sent := SentShortcodeTrimmed(field);
      !Registry.IsRequested(sent) || Registry.IsValidShortcode(sent.value)
    ensures Registry.Create(s, url, validity, SentShortcodeTrimmed(field), now, id, draws, isUrl).0
              != Failure(Registry.InvalidShortcodeFormat)
  {
    var sent := SentShortcodeTrimmed(field);
    assert !Registry.IsRequested(sent) || Registry.IsValidShortcode(sent.value) by {
      if !IsBlank(field) {
        ShortcodeValidatorAgreesWithService(field);
      }
    }
    CreateNeverRejectsValidFormat(s, url, validity, sent, now, id, draws, isUrl);
  }
}

# Short-URL registry: a verified Dafny model

This project models the in-memory short-URL registry of a small URL-shortener
service, together with the form validators of its web front end.

The registry is one object, `UrlService`. It holds two fields:

- `urls`, a map from shortcode to entry;
- `customShortcodes`, the set of shortcodes that callers asked for explicitly.

Its operations are:

- **create** (`createShortUrl`): checks the URL, then takes a custom code or
  generates one, computes the expiry and stores the entry;
- **resolve** (`getOriginalUrl`): looks up a code, refuses an expired entry,
  and records a click on a live one;
- **stats** (`getUrlStats`) and **list** (`getAllUrls`): plain reads;
- **sweep** (`cleanupExpiredUrls`): evicts expired entries and counts them.

The front-end validators check the three form fields (URL, validity in
minutes, optional shortcode) and build the form's error object.

Files:

- `wrappers.dfy`: `Option` and `Result`.
- `types.dfy`: the stored records `ShortUrl`, `ClickData` and `Location`.
- `registry.dfy`: module `Registry`. It states the three operations that
  change the registry (create, resolve, sweep) and the code choice of create
  as functions from the old state to a result and a new state. It also holds
  the registry invariant and the lemmas about the operations.
- `url_service.dfy`: module `Service`. The class `UrlService` has the two
  fields and the imperative methods, with the retry loop, the listing loop
  and the sweep loop. Create, resolve, the sweep and the retry loop are
  proved to compute the matching `Registry` function, and the first three to
  keep the invariant. The two reads, stats and list, are specified directly
  against the fields.
- `validation.dfy`: module `Validation`, the front-end validators, with
  `String.prototype.trim` and `parseInt(…, 10)` written out.
- `form_submission.dfy`: module `FormSubmission`. It models how the page
  sends the shortcode field, which is needed for the finding below.

The registry invariant (`Registry.Inv`) has five parts:

- every custom code is stored;
- each entry sits under its own shortcode;
- `clickCount == |clicks|`;
- `createdAt < expiresAt`;
- `expiresAt` is a valid JavaScript Date, at most 8.64·10^15 ms from the
  epoch.

Collaborators are parameters of the model:

- time is an integer number of milliseconds, `now`;
- `nanoid(6)` is the sequence `draws` of its successive results, each of
  length 6, and `nanoid()` is the entry `id`;
- `validator.isURL` restricted to http/https is `isUrl`;
- `geoip.lookup` is `lookup`;
- the browser `URL` parser is `parse`.

On these points the model follows the code:

- `getOriginalUrl` does not delete an expired entry. It only refuses it.
- `getUrlStats` makes no expiry check.
- `getAllUrls` does not filter out expired entries.
- The sweep removes entries with `now > expiresAt`, so an entry is still live
  at exactly `expiresAt`.
- The sweep also removes the code from `customShortcodes`. So an expired
  custom code becomes free again, both for a new request and for the
  generator (`Registry.CleanupFreesCustomCode`). Under the invariant, the
  collision test against `customShortcodes` adds nothing to the test against
  `urls` (`Registry.Inv`).
- The entry keeps a separate `clickCount`. The invariant ties it to the
  number of clicks.
- Generated codes are only promised to have length 6, not to be
  alphanumeric, because nanoid's alphabet includes `_` and `-`.
- The service does not check the validity itself. The HTTP route rejects a
  validity that is not a positive integer before it calls the service
  (src/routes/shorturl.ts:26). The model makes this a precondition
  (`Registry.ValidValidity`). The route sets no upper bound, so the expiry
  can lie beyond the range of a JavaScript Date; that case is modelled (see
  "## Findings").
- An Invalid Date compares false with everything, so an entry whose expiry
  is an Invalid Date is never expired (`Registry.IsExpired`).

## Model

| member | source | states |
|---|---|---|
| `Registry.IsValidShortcode` | src/services/urlService.ts:135-139 | the anchored expression `^[a-zA-Z0-9]{3,20}$` matches exactly when the text has 3 to 20 characters and the character class runs over all of it (`AlnumRun`, the length of the longest alphanumeric prefix) |
| `Registry.Inv` | src/services/urlService.ts:37 | the registry invariant; under it a code is in use (in `customShortcodes` or in `urls`) exactly when it is stored in `urls`, so the two-field collision test reduces to the map test |
| `Registry.FirstFreshFrom` | src/services/urlService.ts:127-133 | the index of the first draw in use by neither field; every earlier draw collides; `None` exactly when every draw collides |
| `Registry.ChooseCode` | src/services/urlService.ts:24-45 | an invalid URL fails with the URL error first; a chosen code is not in use; a custom code is chosen as given and is syntactically valid; a generated code is one of the draws |
| `Registry.Create` | src/services/urlService.ts:21-70 | the corrected create: the state changes exactly when create succeeds; an invalid URL fails with "Invalid URL format"; the assigned code was not stored before; the expiry is the one computed from now and validity, and it is a valid Date |
| `Registry.CreateAsWritten` | src/services/urlService.ts:41-68 | create as written: whenever the expiry is a valid Date, or the URL or code check fails first, it equals `Create`; otherwise it fails with the `toISOString` error, yet it has stored the whole new entry (the given `id` and URL, `createdAt = now`, the out-of-range expiry, a zero counter, no clicks) under a code that was not stored before, left every older entry as it was, and reserved the code in `customShortcodes` when it was requested |
| `Registry.ExpiryOf` | src/services/urlService.ts:22-49 | the time value handed to `new Date` for the expiry is later than the creation instant; without a validity it is 30 minutes after now (whether it makes a valid Date is decided separately, by `IsValidTime`) |
| `Registry.NewEntry` | src/services/urlService.ts:51-60 | a new entry whose expiry is a valid Date is filed under its code, has no clicks, a zero counter, and satisfies the entry invariant |
| `Registry.LocationFor` | src/services/urlService.ts:94-104 | a location is recorded exactly when the address is present, non-empty, not `::1` or `127.0.0.1`, and the lookup answers; it is the lookup's answer |
| `Registry.Resolve` | src/services/urlService.ts:72-112 | a miss happens exactly when the code is absent or `now > expiresAt`, and a miss changes nothing; a hit returns the original URL; no key is added or removed and the custom set is unchanged |
| `Registry.CreateErrors` | src/services/urlService.ts:25-40 | errors come in the source's order (URL, then shortcode format, then collision, then an expiry beyond the Date range), each with an unchanged state; all draws colliding gives `GenerationExhausted` |
| `Registry.CreateSuccess` | src/services/urlService.ts:41-62 | success adds exactly one fresh entry with no clicks, `createdAt = now` and `expiresAt = now + validity·60000` (validity defaults to 30), a valid Date; older entries are unchanged; a custom code is added to `customShortcodes` and a generated one (of length 6) is not |
| `Registry.CreatePreservesInv` | src/services/urlService.ts:41-62 | create keeps the registry invariant |
| `Registry.ResolveHit` | src/services/urlService.ts:86-111 | on a live code: the original URL is returned; exactly one click with the given time, referrer, user agent, address and location is appended; the counter goes up by one and still equals the number of clicks; no other field or entry changes |
| `Registry.ResolvePreservesInv` | src/services/urlService.ts:72-111 | resolve keeps the registry invariant on a hit and on a miss |
| `Registry.ResolveExpiryBoundary` | src/services/urlService.ts:80-84 | in a registry that keeps the invariant, an entry is served at exactly `expiresAt`; one millisecond later the resolve misses, changes nothing, and the entry stays stored |
| `Registry.CreateThenResolve` | src/test/api-test.ts:58-118 | resolving a freshly created code before its expiry returns the target, and the entry then has one click and a counter of 1 |
| `Registry.Cleanup` | src/services/urlService.ts:142-159 | the sweep keeps exactly the entries that are not expired at `now`, and returns the number of entries it removed |
| `Registry.CleanupRemovesExactlyExpired` | src/services/urlService.ts:146-150 | every surviving entry is unchanged; the sweep drops exactly the expired codes from `customShortcodes` and keeps the rest |
| `Registry.CleanupLeavesOnlyLive` | src/services/urlService.ts:146-152 | after the sweep no stored entry is expired at that instant |
| `Registry.CleanupIdempotent` | src/services/urlService.ts:142-159 | a second sweep at the same instant returns 0 and changes nothing |
| `Registry.CleanupPreservesInv` | src/services/urlService.ts:146-150 | the sweep keeps the registry invariant, in particular that every custom code is stored |
| `Registry.CleanupFreesCustomCode` | src/services/urlService.ts:149 | an expired custom code is no longer in use after the sweep |
| `Registry.OutOfRangeValidityLeavesEntry` | src/services/urlService.ts:41-81 | with validity 200000000000 minutes and code "abcdef", create as written fails, yet the registry has changed and reserved the code; resolve serves the entry at any later time, the sweep never removes it, and the invariant is broken |
| `Service.UrlService.constructor` | src/services/urlService.ts:9-12 | a new service is empty and satisfies the invariant |
| `Service.UrlService.CreateShortUrl` | src/services/urlService.ts:21-70 | the new state and the result (short link `baseUrl/code` and expiry, or the error) are those of the corrected `Registry.Create`, which checks the expiry before it reserves the code; the invariant is kept |
| `Service.UrlService.GetOriginalUrl` | src/services/urlService.ts:72-112 | the result and the new state are those of `Registry.Resolve`; the invariant is kept |
| `Service.UrlService.GetUrlStats` | src/services/urlService.ts:114-121 | returns the stored entry exactly when the code is stored, expired or not; it is filed under that code and its counter equals its clicks; nothing changes |
| `Service.UrlService.GetAllUrls` | src/services/urlService.ts:123-125 | the list has one element per stored entry; each element is the entry stored under its shortcode, no shortcode appears twice, and every stored entry appears, expired or not; nothing changes |
| `Service.UrlService.GenerateUniqueShortcode` | src/services/urlService.ts:127-133 | the retry loop returns a length-6 code in neither `urls` nor `customShortcodes`, namely the first such draw; it returns `None` only when every draw collides |
| `Service.UrlService.CleanupExpiredUrls` | src/services/urlService.ts:142-159 | the count and the new state are those of `Registry.Cleanup`; it demands nothing of the registry, and a valid registry stays valid |
| `Service.CreateThenRedirect` | src/test/api-test.ts:58-118 | on a fresh service, create succeeds exactly when the URL passes, a custom code is well-formed, a draw exists and the expiry is a valid Date; the redirect before expiry then returns the target and the stats show one click |
| `Validation.TrimEmptyIffBlank` | frontend/src/utils/validation.ts:4 | `trim()` gives the empty string exactly for text made only of JavaScript white space |
| `Validation.ValidateUrl` | frontend/src/utils/validation.ts:3-19 | "URL is required" exactly for blank input; a parse failure gives "Please enter a valid URL"; a protocol other than `http:`/`https:` gives the protocol message; no error exactly when the URL is not blank, parses, and its protocol is `http:` or `https:` |
| `Validation.ParseInt` | frontend/src/utils/validation.ts:26 | NaN exactly when no decimal digit follows the leading white space and optional sign |
| `Validation.ValidateValidity` | frontend/src/utils/validation.ts:21-36 | blank input gives no error; otherwise no error exactly when the parsed value is in 1..10080; NaN or a value ≤ 0 gives the "positive number" message before the upper bound is checked |
| `Validation.DigitStringValidity` | frontend/src/utils/validation.ts:21-36 | a field of digits gets the "positive number" message for 0, the 7-day message above 10080, and no error otherwise |
| `Validation.ValidityLowerBoundary` | frontend/src/utils/validation.ts:27-29 | "1" passes and "0" gets the "positive number" message |
| `Validation.SevenDaysAccepted` | frontend/src/utils/validation.ts:31-35 | "10080" passes |
| `Validation.SevenDaysPlusOneRejected` | frontend/src/utils/validation.ts:31-33 | "10081" gets the 7-day message |
| `Validation.ValidityPrefixParse` | frontend/src/utils/validation.ts:26-29 | "30 minutes" passes because `parseInt` reads the leading digits; "abc" gets the "positive number" message |
| `Validation.ValidateShortcode` | frontend/src/utils/validation.ts:38-52 | blank input gives no error; a length outside 3..20, counted in UTF-16 code units (`Utf16Length`), gives the length message, even if the characters are also wrong; otherwise a non-alphanumeric character gives the character message |
| `Validation.AstralShortcodeMessages` | frontend/src/utils/validation.ts:43-49 | eleven characters outside the Basic Multilingual Plane (22 code units) get the length message, and two of them (4 code units) get the character message |
| `Validation.ShortcodeValidatorAgreesWithService` | frontend/src/utils/validation.ts:43-49 | on non-blank input the form accepts exactly the shortcodes that the service's `isValidShortcode` accepts |
| `Validation.ValidateForm` | frontend/src/utils/validation.ts:54-67 | the error object has a key for a field exactly when that field's validator returns a message, and the value is that message; the key type admits no other keys |
| `Validation.FormValidIffFieldsValid` | frontend/src/utils/validation.ts:54-67 | the error object is empty exactly when all three validators pass |
| `FormSubmission.SentShortcode` | frontend/src/components/UrlShortenerPage.tsx:106 | the page drops the shortcode only when the field is the empty string, and sends the field unchanged otherwise |
| `FormSubmission.BlankShortcodeRejectedByService` | frontend/src/components/UrlShortenerPage.tsx:92-106 | a field of three spaces passes the form check, yet create fails with the invalid-shortcode error |
| `FormSubmission.SentShortcodeTrimmed` | frontend/src/components/UrlShortenerPage.tsx:106 | the corrected submission drops the shortcode exactly when the field is blank after trimming |
| `FormSubmission.FormAcceptedShortcodeIsServiceValid` | frontend/src/utils/validation.ts:38-52 | with the corrected submission, a shortcode the form accepts is never rejected by create for its format |

## Findings

| source | as written | input that shows it | evidently intended | confidence | as-written member | corrected member |
|---|---|---|---|---|---|---|
| frontend/src/components/UrlShortenerPage.tsx:106 | `validateShortcode` treats a white-space-only field as empty, but the page sends `shortcode || undefined`, which keeps such a field; the service then rejects it as an invalid shortcode (and the route answers 409) | shortcode field `"   "` | a field that the form accepts as empty is sent as no shortcode, so a generated code is used | medium (not executed) | `FormSubmission.BlankShortcodeRejectedByService` | `FormSubmission.FormAcceptedShortcodeIsServiceValid` |
| src/services/urlService.ts:42-68 | the custom code is reserved (line 42) and the entry stored (line 62) before `expiresAt.toISOString()` (line 68) throws a `RangeError` for an expiry beyond the Date range; the route answers 500, yet the entry stays, and since its expiry is an Invalid Date, `now > expiresAt` is false at lines 81 and 147, so it is served and never swept | validity `200000000000` with shortcode `"abcdef"` (the route checks only for a positive integer) | a create that fails leaves the registry unchanged, as the other errors do | medium (not executed) | `Registry.OutOfRangeValidityLeavesEntry` | `Registry.Create` |

## Left out

- Registry.Create: the source retries `nanoid(6)` without bound. The model tries only the supplied `draws` and fails with `GenerationExhausted` when every draw collides. The source cannot fail this way; it would loop instead.
- Service.UrlService.GenerateUniqueShortcode: the same bound on retries applies. The nanoid alphabet is not modelled; only the length 6 is.
- Service.UrlService.GetAllUrls: a JavaScript `Map` lists entries in insertion order. The model promises no order.
- Service.UrlService.GetUrlStats: the source returns the live entry object, so a caller sees later clicks through it. The model returns a snapshot value. The same holds for `getAllUrls`.
- Service.UrlService.GetOriginalUrl: the source reads the clock twice, once for the expiry test and once for the click timestamp. The model uses one `now` for both.
- Service.UrlService.CleanupExpiredUrls: the source deletes from the `Map` while it iterates over it. The model iterates over the set of keys taken before the loop. The two agree because only visited keys are deleted.
- The singleton accessor `getInstance` is left out. The model constructs the service explicitly.
- Logging is left out (src/middleware/logging.ts, frontend/src/utils/logging.ts). It only appends to a list and writes to the console.
- The HTTP routes are left out (src/routes/shorturl.ts, src/routes/redirect.ts). They map requests to calls and error texts to status codes. Only the route's guard on `validity` is kept, as a precondition of create. Note that the route sends the invalid-shortcode error to 409, not 400 (src/routes/shorturl.ts:51).
- Process wiring is left out (src/index.ts): middleware, the rate limiter and the hourly `setInterval` sweep. The sweep itself is modelled as a method.
- The React components and the axios client are left out. The one exception is how the page sends the shortcode field (UrlShortenerPage.tsx:106), which the finding needs.
- The foreign libraries are parameters, not reimplementations: `nanoid`, `validator.isURL`, `geoip-lite` and the browser `URL` parser.
- Service.UrlService.CreateShortUrl: it follows the corrected `Registry.Create` of the Findings table, so it checks the expiry before it reserves the code. The source's order, which stores and then fails, is modelled only by `Registry.CreateAsWritten`.
- Dates are integer milliseconds, and the Date range is modelled. `toISOString` formatting is left out. The expiry is computed exactly, while JavaScript computes `validity * 60 * 1000` in doubles. The two differ only when the product exceeds 2^53, which is beyond the Date range for any realistic clock reading.
- Validation.ParseInt: JavaScript's `-0` is modelled as 0. Digit strings beyond 2^53 lose precision in JavaScript but not here. Neither difference changes any comparison with 0 or 10080.
- Strings are sequences of Unicode code points. Only the length test of `validateShortcode` counts UTF-16 code units (`Validation.Utf16Length`), as JavaScript does. Elsewhere the two views agree: the white-space characters of `trim` and the class `[a-zA-Z0-9]` all lie in the Basic Multilingual Plane, so a surrogate pair is neither.
- The page's conversion of the validity field (`parseInt` on any non-empty text) is left out. The HTTP layer that would receive a resulting `NaN` is left out too.
